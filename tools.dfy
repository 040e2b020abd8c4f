/**
 The MCP tools the firmware registers with the transport, and the logic of the
 two handlers that compute something: `led_blink` and `calculator`. The JSON
 library is not modelled: a handler receives what deserialisation produced (a
 parse-succeeded flag and the extracted string parameter).
 */
module McpTools {

  /** `WebSocketMCP::ToolResponse`: the JSON text sent back and its error flag. */
  datatype ToolResponse = ToolResponse(json: string, isError: bool)

  /** One `registerTool` call: name, description and JSON parameter schema. */
  datatype ToolDecl = ToolDecl(name: string, description: string, schema: string)

  const LED_SCHEMA: string :=
    "{\"properties\":{\"state\":{\"title\":\"LEDStatus\",\"type\":\"string\",\"enum\":[\"on\",\"off\",\"blink\"]}},"
    + "\"required\":[\"state\"],\"title\":\"ledControlArguments\",\"type\":\"object\"}"
  const SYSTEM_INFO_SCHEMA: string :=
    "{\"properties\":{},\"title\":\"systemInfoArguments\",\"type\":\"object\"}"
  const CALCULATOR_SCHEMA: string :=
    "{\"properties\":{\"expression\":{\"title\":\"expression\",\"type\":\"string\"}},"
    + "\"required\":[\"expression\"],\"title\":\"calculatorArguments\",\"type\":\"object\"}"

  /** The `registerTool` calls of `registerMcpTools`, in order. */
  function ToolDecls(): (tools: seq<ToolDecl>)
    ensures |tools| == 3
    ensures forall i, j :: 0 <= i < j < |tools| ==> tools[i].name != tools[j].name
  {
    [ ToolDecl("led_blink", "LED-control", LED_SCHEMA),
      ToolDecl("system-info", "ESP32-info", SYSTEM_INFO_SCHEMA),
      ToolDecl("calculator", "Calculator", CALCULATOR_SCHEMA) ]
  }

}

/** The `led_blink` handler: drive the LED and echo the requested state. */
module LedTool {

  import opened Optional
  import opened ArduinoText
  import opened Gpio
  import opened McpTools

  const INVALID_FORMAT: string := "{\"success\":false,\"error\":\"Invalid parameter format\"}"
  const LED_RESULT_PREFIX: string := "{\"success\":true,\"state\":\""
  const LED_RESULT_SUFFIX: string := "\"}"

  /** The success response of `led_blink`, echoing the state it was given. */
  function LedResult(state: string): (r: string)
    ensures |r| == |LED_RESULT_PREFIX| + |state| + |LED_RESULT_SUFFIX|
    ensures r[..|LED_RESULT_PREFIX|] == LED_RESULT_PREFIX
    ensures r[|LED_RESULT_PREFIX|..|r| - |LED_RESULT_SUFFIX|] == state
    ensures r[|r| - |LED_RESULT_SUFFIX|..] == LED_RESULT_SUFFIX
  {
    LED_RESULT_PREFIX + state + LED_RESULT_SUFFIX
  }

  /** Reads the echoed state back out of an `led_blink` success response. */
  function EchoedState(json: string): Option<string> {
    var p, q := |LED_RESULT_PREFIX|, |LED_RESULT_SUFFIX|;
    if |json| >= p + q && json[..p] == LED_RESULT_PREFIX && json[|json| - q..] == LED_RESULT_SUFFIX
    then Some(json[p..|json| - q])
    else None
  }

  /** Every state, recognised or not, comes back verbatim in the result; the error text carries none. */
  lemma LedResultEchoes(state: string)
    ensures EchoedState(LedResult(state)) == Some(state)
    ensures EchoedState(INVALID_FORMAT) == None
  {
    var json := LedResult(state);
    var p := |LED_RESULT_PREFIX|;
    assert json[..p] == LED_RESULT_PREFIX;
    assert json[|json| - 2..] == LED_RESULT_SUFFIX;
    assert json[p..|json| - 2] == state;
    assert INVALID_FORMAT[..p] != LED_RESULT_PREFIX by {
      assert INVALID_FORMAT[11] != LED_RESULT_PREFIX[11];
    }
  }

  const BLINK_CYCLES: nat := 5
  const BLINK_DELAY_MS: nat := 200

  /** One pass of the blink loop: on, wait, off, wait. */
  const BLINK_CYCLE: seq<PinEvent> := [Write(High), Delay(BLINK_DELAY_MS), Write(Low), Delay(BLINK_DELAY_MS)]

  /** One blink cycle writes HIGH once and LOW once. */
  lemma BlinkCycleWrites()
    ensures WriteCount(BLINK_CYCLE, High) == 1 && WriteCount(BLINK_CYCLE, Low) == 1
  {
    var c := BLINK_CYCLE;
    assert c[..3] == [Write(High), Delay(BLINK_DELAY_MS), Write(Low)];
    assert c[..3][..2] == [Write(High), Delay(BLINK_DELAY_MS)];
    assert c[..3][..2][..1] == [Write(High)];
    assert [Write(High)][..0] == [];
    forall level: Level ensures WriteCount([Write(High)], level) == if level == High then 1 else 0 {
      assert [Write(High)][..0] == [];
    }
    assert WriteCount(c[..3][..2], High) == 1 && WriteCount(c[..3][..2], Low) == 0;
    assert WriteCount(c[..3], High) == 1 && WriteCount(c[..3], Low) == 1;
  }

  /**
   The `led_blink` handler. `parsed` says whether `deserializeJson` succeeded and
   `state` is what `doc["state"].as<String>()` gave. Returns the response and the
   pin events, in order. `String == const char*` compares with `strcmp`, so the
   state is matched by its C string: text after an embedded NUL is ignored.
   */
  method LedBlink(parsed: bool, state: string) returns (response: ToolResponse, effects: seq<PinEvent>)
    ensures !parsed ==> response == ToolResponse(INVALID_FORMAT, true) && effects == []
    ensures parsed ==> response == ToolResponse(LedResult(state), false)
    ensures parsed && CString(state) == "on" ==> effects == [Write(High)]
    ensures parsed && CString(state) == "off" ==> effects == [Write(Low)]
    ensures parsed && CString(state) == "blink" ==>
              |effects| == 4 * BLINK_CYCLES
              && (forall k :: 0 <= k < |effects| ==> effects[k] == BLINK_CYCLE[k % 4])
              && WriteCount(effects, High) == BLINK_CYCLES && WriteCount(effects, Low) == BLINK_CYCLES
    ensures parsed && CString(state) != "on" && CString(state) != "off" && CString(state) != "blink" ==> effects == []
  {
    if !parsed {
      return ToolResponse(INVALID_FORMAT, true), [];
    }
    effects := [];
    if CString(state) == "on" {
      effects := [Write(High)];
    } else if CString(state) == "off" {
      effects := [Write(Low)];
    } else if CString(state) == "blink" {
      BlinkCycleWrites();
      for i := 0 to BLINK_CYCLES
        invariant |effects| == 4 * i
        invariant forall k :: 0 <= k < |effects| ==> effects[k] == BLINK_CYCLE[k % 4]
        invariant WriteCount(effects, High) == i && WriteCount(effects, Low) == i
      {
        WriteCountAppend(effects, BLINK_CYCLE, High);
        WriteCountAppend(effects, BLINK_CYCLE, Low);
        effects := effects + BLINK_CYCLE;
        forall k | 4 * i <= k < 4 * i + 4 ensures effects[k] == BLINK_CYCLE[k % 4] {
          assert k % 4 == k - 4 * i;
        }
      }
    }
    response := ToolResponse(LedResult(state), false);
  }

}

/** The `calculator` handler: one addition or subtraction over `toInt` operands. */
module CalculatorTool {

  import opened ArduinoText
  import opened McpTools

  /**
   The calculator's arithmetic. The operator is the first `+` if it stands after
   position 0, otherwise the first `-` if it does; the operands are read with
   `toInt`. Anything else gives 0.
   */
  function Calculate(expr: string): (r: int)
    ensures IndexOf(expr, '+') <= 0 && IndexOf(expr, '-') <= 0 ==> r == 0
  {
    var plus := IndexOf(expr, '+');
    if plus > 0 then
      ToInt(expr[..plus]) + ToInt(expr[plus + 1..])
    else
      var minus := IndexOf(expr, '-');
      if minus > 0 then ToInt(expr[..minus]) - ToInt(expr[minus + 1..]) else 0
  }

  /** The `+` branch: taken when the first `+` stands after position 0. */
  lemma CalculatePlus(expr: string, p: int)
    requires IndexOf(expr, '+') == p && p > 0
    ensures Calculate(expr) == ToInt(expr[..p]) + ToInt(expr[p + 1..])
  {
  }

  /** The `-` branch: taken when there is no `+` after position 0 and the first `-` stands after it. */
  lemma CalculateMinus(expr: string, p: int)
    requires IndexOf(expr, '+') <= 0 && IndexOf(expr, '-') == p && p > 0
    ensures Calculate(expr) == ToInt(expr[..p]) - ToInt(expr[p + 1..])
  {
  }

  /**
   An operand, one operator, an operand: with no NUL and no operator character
   inside the left operand and, for `-`, no `+` at all, the operator
   found is the one after `x` and the result combines the two `toInt` values.
   */
  lemma CalculateSplit(x: string, op: char, y: string)
    requires op == '+' || op == '-'
    requires |x| > 0 && op !in x && '\0' !in x
    requires op == '-' ==> '+' !in x && '+' !in y
    ensures Calculate(x + [op] + y) == if op == '+' then ToInt(x) + ToInt(y) else ToInt(x) - ToInt(y)
  {
    var e := x + [op] + y;
    IndexOfAfter(x, op, y);
    if op == '+' {
      CalculatePlus(e, |x|);
    } else {
      assert '+' !in e by {
        forall i | 0 <= i < |e| ensures e[i] != '+' {
          if i < |x| { assert e[i] == x[i]; } else if i > |x| { assert e[i] == y[i - |x| - 1]; }
        }
      }
      CalculateMinus(e, |x|);
    }
  }

  /** Text that starts with `-` and holds no `+` evaluates to 0: the only operator found is at position 0. */
  lemma CalculateLeadingMinus(expr: string)
    requires |expr| > 0 && expr[0] == '-' && '+' !in expr
    ensures Calculate(expr) == 0
  {
    assert CString(expr)[0] == '-';
    assert IndexOf(expr, '-') == 0;
  }

  /** A sum written in `String(int)` form evaluates to the sum, whatever the operands' signs. */
  lemma CalculateSum(a: int, b: int)
    ensures Calculate(IntToString(a) + "+" + IntToString(b)) == a + b
  {
    CalculateSplit(IntToString(a), '+', IntToString(b));
    ToIntIntToString(a);
    ToIntIntToString(b);
  }

  /**
   A difference evaluates to the difference when the left operand is not negative.
   A negative left operand puts the first `-` at position 0, so the result is 0.
   */
  lemma CalculateDifference(a: int, b: int)
    ensures Calculate(IntToString(a) + "-" + IntToString(b)) == if a >= 0 then a - b else 0
  {
    var x, y := IntToString(a), IntToString(b);
    if a >= 0 {
      CalculateSplit(x, '-', y);
      ToIntIntToString(a);
      ToIntIntToString(b);
    } else {
      var e := x + "-" + y;
      assert e[0] == '-';
      assert '+' !in e by {
        forall i | 0 <= i < |e| ensures e[i] != '+' {
          if i < |x| { assert e[i] == x[i]; } else if i > |x| { assert e[i] == y[i - |x| - 1]; }
        }
      }
      CalculateLeadingMinus(e);
    }
  }

  /** `"3+4"` gives 7. */
  lemma CalculateExampleSum()
    ensures Calculate("3+4") == 7
  {
    assert IntToString(3) == "3";
    assert IntToString(4) == "4";
    assert "3+4" == IntToString(3) + "+" + IntToString(4);
    CalculateSum(3, 4);
  }

  /** `"10-3"` gives 7. */
  lemma CalculateExampleDifference()
    ensures Calculate("10-3") == 7
  {
    assert NatToString(10) == NatToString(1) + [DigitChar(0)];
    assert IntToString(10) == "10";
    assert IntToString(3) == "3";
    assert "10-3" == IntToString(10) + "-" + IntToString(3);
    CalculateDifference(10, 3);
  }

  /**
   Blanks around the operator do not matter: `toInt` stops at the blanks after the
   left operand and skips those before the right one, so `"3 + 4"` means `3+4`.
   */
  lemma CalculateSpacedSum(da: string, w1: string, w2: string, db: string)
    requires da != [] && AllDigits(da) && db != [] && AllDigits(db)
    requires AllSpace(w1) && AllSpace(w2)
    ensures Calculate(da + w1 + "+" + w2 + db) == DigitsValue(da) + DigitsValue(db)
  {
    var x, y := da + w1, w2 + db;
    assert da + w1 + "+" + w2 + db == x + ['+'] + y;
    assert '+' !in x && '\0' !in x by {
      forall i | 0 <= i < |x| ensures x[i] != '+' && x[i] != '\0' {
        if i < |da| { assert x[i] == da[i] && IsDigit(da[i]); } else { assert IsSpace(w1[i - |da|]); }
      }
    }
    CalculateSplit(x, '+', y);
    ToIntDigitsBlank(da, w1);
    ToIntBlankDigits(w2, db);
  }

  /** `"3 + 4"` gives 7: the blanks around the operator are skipped. */
  lemma CalculateExampleSpaced()
    ensures Calculate("3 + 4") == 7
  {
    assert "3 + 4" == "3" + " " + "+" + " " + "4";
    assert DigitsValue("3") == 3 && DigitsValue("4") == 4;
    CalculateSpacedSum("3", " ", " ", "4");
  }

  /** Text without a `+` or `-` after position 0 evaluates to 0. */
  lemma CalculateNoOperator(expr: string)
    requires forall i :: 0 < i < |expr| ==> expr[i] != '+' && expr[i] != '-'
    ensures Calculate(expr) == 0
  {
  }

  /** `"-3-2"` is not -5: its first `-` is at position 0, so no operator is found. */
  lemma CalculateExampleLeadingMinus()
    ensures Calculate("-3-2") == 0
  {
    CalculateLeadingMinus("-3-2");
  }

  /** Text with no operator evaluates to 0. */
  lemma CalculateExampleText()
    ensures Calculate("abc") == 0
  {
    var e := "abc";
    assert e[1] == 'b' && e[2] == 'c' && |e| == 3;
    CalculateNoOperator(e);
  }
}

/** The `calculator` handler's response text. */
module CalculatorReply {

  import opened ArduinoText
  import opened McpTools
  import opened CalculatorTool

  const CALC_PREFIX: string := "{\"success\":true,\"expression\":\""
  const CALC_RESULT_KEY: string := "\",\"result\":"

  /** The `calculator` handler, given `doc["expression"].as<String>()`; it never reports an error. */
  function CalculatorResponse(expr: string): (r: ToolResponse)
    ensures !r.isError
  {
    ToolResponse(CALC_PREFIX + expr + CALC_RESULT_KEY + IntToString(Calculate(expr)) + "}", false)
  }

  /** Where each part lies in `p + e + key + v + "}"`. */
  lemma {:induction false} ReplyLayout(p: string, e: string, key: string, v: string)
    ensures var j := p + e + key + v + "}";
            var k := |p| + |e| + |key|;
            |j| == k + |v| + 1 && j[..|p|] == p && j[|p|..|p| + |e|] == e
            && j[|p| + |e|..k] == key && j[k..|j| - 1] == v && j[|j| - 1] == '}'
  {
    var j := p + e + key + v + "}";
    var k := |p| + |e| + |key|;
    assert j == p + (e + (key + (v + "}")));
    assert j[..|p|] == p;
    assert j[|p|..|p| + |e|] == e;
    assert j[|p| + |e|..k] == key;
    assert j[k..|j| - 1] == v;
  }

  /**
   The response is the fixed prefix, the expression verbatim, the `"result":` key,
   the computed value in `String(int)` form and a closing brace; the number after
   the key reads back with `toInt` as the computed value.
   */
  lemma CalculatorResultReadsBack(expr: string)
    ensures var json := CalculatorResponse(expr).json;
            var k := |CALC_PREFIX| + |expr| + |CALC_RESULT_KEY|;
            k < |json| && json[..|CALC_PREFIX|] == CALC_PREFIX
            && json[|CALC_PREFIX|..|CALC_PREFIX| + |expr|] == expr
            && json[k - |CALC_RESULT_KEY|..k] == CALC_RESULT_KEY
            && json[|json| - 1] == '}'
            && ToInt(json[k..|json| - 1]) == Calculate(expr)
  {
    var v := IntToString(Calculate(expr));
    ReplyLayout(CALC_PREFIX, expr, CALC_RESULT_KEY, v);
    ToIntIntToString(Calculate(expr));
  }
}
