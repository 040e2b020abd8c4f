/**
 The serial line accumulator: a fixed `char` buffer of `MAX_INPUT_LENGTH` bytes
 and a write cursor. Each byte read from the serial port either completes a line
 (CR or LF), erases the last buffered byte (backspace or DEL), or is appended
 while there is room, one slot being kept for the terminating NUL.

 `Step` and `Run` give the meaning of one byte and of a batch of bytes on the
 buffered text; the class `LineAccumulator` is the buffer itself and its methods
 are proved to follow them.
 */
module SerialConsole {

  import opened ArduinoText
  import opened CommandRouter

  const MAX_INPUT_LENGTH: nat := 1024

  const BACKSPACE: char := 8 as char
  const DEL: char := 127 as char

  /** What the console prints when a byte is erased: back, blank, back. */
  const ERASE_ECHO: string := [BACKSPACE, ' ', BACKSPACE]

  datatype ConsoleEvent =
    | Echo(text: string)                      // bytes echoed back to the operator
    | Routed(command: string, action: Action) // a completed command and the action it selected

  /** The buffered text after some input, and the events that input produced. */
  datatype Outcome = Outcome(pending: string, events: seq<ConsoleEvent>)

  predicate IsLineEnd(c: char) {
    c == '\n' || c == '\r'
  }

  predicate IsErase(c: char) {
    c == BACKSPACE || c == DEL
  }

  /** An ordinary byte: neither a line end nor an erase. */
  predicate IsText(c: char) {
    !IsLineEnd(c) && !IsErase(c)
  }

  /** The commands routed by a sequence of events, with their actions, in order. */
  function Routes(events: seq<ConsoleEvent>): seq<ConsoleEvent>
    decreases |events|
  {
    if events == [] then []
    else if events[0].Routed? then [events[0]] + Routes(events[1..])
    else Routes(events[1..])
  }

  lemma {:induction false} RoutesAppend(a: seq<ConsoleEvent>, b: seq<ConsoleEvent>)
    ensures Routes(a + b) == Routes(a) + Routes(b)
    decreases |a|
  {
    if a == [] {
      assert a + b == b;
    } else {
      assert (a + b)[1..] == a[1..] + b;
      assert (a + b)[0] == a[0];
      RoutesAppend(a[1..], b);
    }
  }

  /** The command a completed line carries: the buffer read as a C string, trimmed. */
  function LineCommand(pending: string): (command: string)
    ensures '\0' !in command
    ensures command == [] <==> AllSpace(CString(pending))
  {
    TrimEmptyIff(CString(pending));
    Trim(CString(pending))
  }

  /**
   One byte read from the serial port, given the buffered text and the
   transport's `isConnected()`. The buffer never reaches `MAX_INPUT_LENGTH`
   characters, so the NUL written at a line end always fits.
   */
  function Step(pending: string, c: char, connected: bool): (r: Outcome)
    requires |pending| < MAX_INPUT_LENGTH
    ensures |r.pending| < MAX_INPUT_LENGTH
  {
    if IsLineEnd(c) then
      if pending != [] then
        var command := LineCommand(pending);
        Outcome([], if command != [] then [Routed(command, Route(command, connected))] else [])
      else
        Outcome(pending, [])
    else if IsErase(c) then
      if pending != [] then Outcome(pending[..|pending| - 1], [Echo(ERASE_ECHO)]) else Outcome(pending, [])
    else if |pending| < MAX_INPUT_LENGTH - 1 then
      Outcome(pending + [c], [Echo([c])])
    else
      Outcome(pending, [])
  }

  /**
   A line end empties the buffer. It routes the buffered text, read as a C
   string and trimmed, exactly once, and only when that command is not empty;
   with an empty buffer it does nothing at all.
   */
  lemma StepLineEnd(pending: string, c: char, connected: bool)
    requires |pending| < MAX_INPUT_LENGTH && IsLineEnd(c)
    ensures var r := Step(pending, c, connected);
            r.pending == []
            && r.events == if pending != [] && LineCommand(pending) != []
                           then [Routed(LineCommand(pending), Route(LineCommand(pending), connected))]
                           else []
  {
  }

  /** An erase removes and rubs out the last buffered byte, if there is one, and does nothing otherwise. */
  lemma StepErase(pending: string, c: char, connected: bool)
    requires |pending| < MAX_INPUT_LENGTH && IsErase(c)
    ensures Step(pending, c, connected)
         == if pending == [] then Outcome([], []) else Outcome(pending[..|pending| - 1], [Echo(ERASE_ECHO)])
  {
  }

  /**
   An ordinary byte is appended and echoed while there is room, one slot being
   kept for the NUL; once the buffer holds `MAX_INPUT_LENGTH - 1` characters it
   is dropped silently and the buffered text is left as it was.
   */
  lemma StepText(pending: string, c: char, connected: bool)
    requires |pending| < MAX_INPUT_LENGTH && IsText(c)
    ensures Step(pending, c, connected)
         == if |pending| < MAX_INPUT_LENGTH - 1 then Outcome(pending + [c], [Echo([c])]) else Outcome(pending, [])
  {
  }

  /** Only a line end routes anything; every other byte produces echoes at most. */
  lemma StepRoutesOnlyAtLineEnd(pending: string, c: char, connected: bool)
    requires |pending| < MAX_INPUT_LENGTH && !IsLineEnd(c)
    ensures Routes(Step(pending, c, connected).events) == []
  {
    var r := Step(pending, c, connected);
    assert r.events == [] || r.events == [Echo(ERASE_ECHO)] || r.events == [Echo([c])];
  }

  /** A batch of bytes read in one pass of the serial loop. */
  function Run(pending: string, input: string, connected: bool): (r: Outcome)
    requires |pending| < MAX_INPUT_LENGTH
    ensures |r.pending| < MAX_INPUT_LENGTH
    decreases |input|
  {
    if input == [] then Outcome(pending, [])
    else
      var first := Step(pending, input[0], connected);
      var rest := Run(first.pending, input[1..], connected);
      Outcome(rest.pending, first.events + rest.events)
  }

  /** Reading one byte is one step. */
  lemma RunOne(pending: string, c: char, connected: bool)
    requires |pending| < MAX_INPUT_LENGTH
    ensures Run(pending, [c], connected) == Step(pending, c, connected)
  {
    var first := Step(pending, c, connected);
    assert [c][1..] == [];
    assert first.events + [] == first.events;
  }

  /** Reading one more byte after `prefix` is one more step. */
  lemma RunSnoc(pending: string, prefix: string, c: char, connected: bool)
    requires |pending| < MAX_INPUT_LENGTH
    ensures var r := Run(pending, prefix, connected);
            var last := Step(r.pending, c, connected);
            Run(pending, prefix + [c], connected) == Outcome(last.pending, r.events + last.events)
  {
    RunAppend(pending, prefix, [c], connected);
    RunOne(Run(pending, prefix, connected).pending, c, connected);
  }

  /** Reading the bytes of `input` up to and including position `i`, one step at a time. */
  lemma RunPrefixStep(pending: string, input: string, i: nat, connected: bool)
    requires |pending| < MAX_INPUT_LENGTH && i < |input|
    ensures var r := Run(pending, input[..i], connected);
            var last := Step(r.pending, input[i], connected);
            Run(pending, input[..i + 1], connected) == Outcome(last.pending, r.events + last.events)
  {
    assert input[..i + 1] == input[..i] + [input[i]];
    RunSnoc(pending, input[..i], input[i], connected);
  }

  lemma AppendAssoc<T>(a: seq<T>, b: seq<T>, c: seq<T>)
    ensures (a + b) + c == a + (b + c)
  {
  }

  /** Reading `a` and then `b` is reading `a + b`. */
  lemma {:induction false} RunAppend(pending: string, a: string, b: string, connected: bool)
    requires |pending| < MAX_INPUT_LENGTH
    ensures var ra := Run(pending, a, connected);
            var rb := Run(ra.pending, b, connected);
            Run(pending, a + b, connected) == Outcome(rb.pending, ra.events + rb.events)
    decreases |a|
  {
    if a == [] {
      assert a + b == b;
    } else {
      assert (a + b)[1..] == a[1..] + b;
      assert (a + b)[0] == a[0];
      var first := Step(pending, a[0], connected);
      RunAppend(first.pending, a[1..], b, connected);
      var ra := Run(first.pending, a[1..], connected);
      var rb := Run(ra.pending, b, connected);
      assert Run(pending, a + b, connected)
          == Outcome(rb.pending, first.events + (ra.events + rb.events));
      assert first.events + (ra.events + rb.events) == (first.events + ra.events) + rb.events;
    }
  }

  function Min(x: int, y: int): int {
    if x <= y then x else y
  }

  /**
   Ordinary bytes fill the buffer up to `MAX_INPUT_LENGTH - 1` characters; the
   excess is dropped and what was already buffered is kept: the buffered text is
   always a prefix of everything typed, and nothing is routed.
   */
  lemma RunText(pending: string, input: string, connected: bool)
    requires |pending| < MAX_INPUT_LENGTH
    requires forall i :: 0 <= i < |input| ==> IsText(input[i])
    ensures var r := Run(pending, input, connected);
            r.pending == (pending + input)[..Min(|pending| + |input|, MAX_INPUT_LENGTH - 1)]
            && pending <= r.pending && Routes(r.events) == []
  {
    RunTextPending(pending, input, connected);
    RunTextRoutes(pending, input, connected);
  }

  lemma {:induction false} RunTextPending(pending: string, input: string, connected: bool)
    requires |pending| < MAX_INPUT_LENGTH
    requires forall i :: 0 <= i < |input| ==> IsText(input[i])
    ensures var r := Run(pending, input, connected);
            r.pending == (pending + input)[..Min(|pending| + |input|, MAX_INPUT_LENGTH - 1)]
            && pending <= r.pending
    decreases |input|
  {
    if input == [] {
      assert (pending + input)[..|pending|] == pending;
    } else {
      var c := input[0];
      var first := Step(pending, c, connected);
      StepText(pending, c, connected);
      RunTextPending(first.pending, input[1..], connected);
      var r := Run(first.pending, input[1..], connected);
      assert Run(pending, input, connected).pending == r.pending;
      if |pending| < MAX_INPUT_LENGTH - 1 {
        assert first.pending + input[1..] == pending + input;
      } else {
        assert r.pending == first.pending == pending;
        assert (pending + input)[..|pending|] == pending;
      }
    }
  }

  lemma {:induction false} RunTextRoutes(pending: string, input: string, connected: bool)
    requires |pending| < MAX_INPUT_LENGTH
    requires forall i :: 0 <= i < |input| ==> IsText(input[i])
    ensures Routes(Run(pending, input, connected).events) == []
    decreases |input|
  {
    if input != [] {
      var c := input[0];
      var first := Step(pending, c, connected);
      StepText(pending, c, connected);
      RunTextRoutes(first.pending, input[1..], connected);
      var r := Run(first.pending, input[1..], connected);
      assert Run(pending, input, connected).events == first.events + r.events;
      RoutesAppend(first.events, r.events);
    }
  }

  /** A line made only of blanks and tabs is discarded at its line end without routing anything. */
  lemma BlankLine(blank: string, end: char, connected: bool)
    requires forall i :: 0 <= i < |blank| ==> IsSpace(blank[i]) && IsText(blank[i])
    requires IsLineEnd(end)
    ensures Run([], blank + [end], connected).pending == []
    ensures Routes(Run([], blank + [end], connected).events) == []
  {
    RunText([], blank, connected);
    var r := Run([], blank, connected);
    RunSnoc([], blank, end, connected);
    var last := Step(r.pending, end, connected);
    StepLineEnd(r.pending, end, connected);
    assert Run([], blank + [end], connected) == Outcome(last.pending, r.events + last.events);
    assert [] + blank == blank;
    var text := CString(r.pending);
    assert text <= r.pending <= blank;
    assert AllSpace(text) by {
      forall i | 0 <= i < |text| ensures IsSpace(text[i]) {
        assert text[i] == blank[i];
      }
    }
    assert last.events == [];
    RoutesAppend(r.events, last.events);
  }

  /** After CR the buffer is empty, so the LF that follows it does nothing. */
  lemma CrLf(pending: string, connected: bool)
    requires |pending| < MAX_INPUT_LENGTH
    ensures Run(pending, "\r\n", connected) == Outcome([], Step(pending, '\r', connected).events)
  {
    var cr := Step(pending, '\r', connected);
    StepLineEnd(pending, '\r', connected);
    StepLineEnd([], '\n', connected);
    assert "\r\n"[0] == '\r' && "\r\n"[1..] == "\n";
    assert "\n"[0] == '\n' && "\n"[1..] == [];
    assert Run(cr.pending, "\n", connected) == Outcome([], []);
    assert cr.events + [] == cr.events;
  }

  /**
   A line typed into an empty buffer and ended by CR LF routes its command exactly
   once, or nothing if the line is blank.
   */
  lemma TypedLine(line: string, connected: bool)
    requires |line| < MAX_INPUT_LENGTH
    requires forall i :: 0 <= i < |line| ==> IsText(line[i])
    ensures Run([], line + "\r\n", connected).pending == []
    ensures Routes(Run([], line + "\r\n", connected).events)
         == if LineCommand(line) == [] then [] else [Routed(LineCommand(line), Route(LineCommand(line), connected))]
  {
    RunText([], line, connected);
    var r := Run([], line, connected);
    assert r.pending == line by {
      assert ([] + line)[..Min(|line|, MAX_INPUT_LENGTH - 1)] == line;
    }
    RunAppend([], line, "\r\n", connected);
    CrLf(line, connected);
    var cr := Step(line, '\r', connected);
    StepLineEnd(line, '\r', connected);
    assert Run([], line + "\r\n", connected) == Outcome([], r.events + cr.events);
    RoutesAppend(r.events, cr.events);
    var command := LineCommand(line);
    if line == [] {
      assert AllSpace(CString(line));
      assert cr.events == [];
    } else if command == [] {
      assert cr.events == [];
    } else {
      assert cr.events == [Routed(command, Route(command, connected))];
      assert Routes(cr.events) == cr.events;
    }
  }

  /** A word of lower-case letters typed into an empty buffer and ended by CR LF is routed once, verbatim. */
  lemma WordLine(word: string, connected: bool)
    requires 0 < |word| < MAX_INPUT_LENGTH
    requires forall i :: 0 <= i < |word| ==> 'a' <= word[i] <= 'z'
    ensures Run([], word + "\r\n", connected).pending == []
    ensures Routes(Run([], word + "\r\n", connected).events) == [Routed(word, Route(word, connected))]
  {
    forall i | 0 <= i < |word| ensures IsText(word[i]) && word[i] != '\0' && !IsSpace(word[i]) {
      assert 'a' <= word[i] <= 'z';
    }
    assert CString(word) == word;
    TrimFixed(word);
    assert LineCommand(word) == word;
    TypedLine(word, connected);
  }

  /** `"status\r\n"` routes exactly one command, `status`. */
  lemma StatusLine(connected: bool)
    ensures Run([], "status" + "\r\n", connected).pending == []
    ensures Routes(Run([], "status" + "\r\n", connected).events) == [Routed("status", Status)]
  {
    WordLine("status", connected);
  }

  lemma NulLineCommand()
    ensures LineCommand("he\0llo") == "he"
    ensures forall i :: 0 <= i < |"he\0llo"| ==> IsText("he\0llo"[i])
  {
    var line := "he\0llo";
    forall i | 0 <= i < |line| ensures IsText(line[i]) {
      assert line[i] == '\0' || 'e' <= line[i] <= 'o';
    }
    assert CString(line) == "he" by {
      assert line[1..][1..] == "\0llo";
    }
    TrimFixed("he");
  }

  /** A NUL byte ends the command early, because the buffer is read as a C string. */
  lemma NulTruncates(connected: bool)
    ensures Routes(Run([], "he\0llo" + "\r\n", connected).events)
         == [Routed("he", if connected then Send("he") else Reject)]
  {
    NulLineCommand();
    TypedLine("he\0llo", connected);
    assert Route("he", connected) == if connected then Send("he") else Reject;
  }

  /** The input buffer and its cursor (`inputBuffer`, `inputBufferIndex`). */
  class LineAccumulator {
    const buffer: array<char>
    var index: int
    /** Every event produced since the accumulator was created, oldest first. */
    ghost var log: seq<ConsoleEvent>

    ghost predicate Valid()
      reads this
    {
      buffer.Length == MAX_INPUT_LENGTH && 0 <= index < MAX_INPUT_LENGTH
    }

    /** The text buffered so far. */
    ghost function Pending(): string
      reads this, buffer
      requires Valid()
    {
      buffer[..index]
    }

    constructor ()
      ensures Valid() && fresh(buffer)
      ensures Pending() == [] && log == []
    {
      buffer := new char[MAX_INPUT_LENGTH](_ => '\0');
      index := 0;
      log := [];
    }

    /** One byte of `processSerialCommands`. */
    method Feed(c: char, connected: bool) returns (events: seq<ConsoleEvent>)
      requires Valid()
      modifies this, buffer
      ensures Valid()
      ensures Outcome(Pending(), events) == Step(old(Pending()), c, connected)
      ensures log == old(log) + events
    {
      if c == '\n' || c == '\r' {
        events := [];
        if index > 0 {
          ghost var text := buffer[..index];
          buffer[index] := '\0';
          assert buffer[..index] == text;
          CStringUpTo(buffer[..], index);
          assert buffer[..][..index] == text;
          var command := Trim(CString(buffer[..]));
          if |command| > 0 {
            events := [Routed(command, Route(command, connected))];
          }
          index := 0;
        }
      } else if c == BACKSPACE || c == DEL {
        events := [];
        if index > 0 {
          index := index - 1;
          events := [Echo(ERASE_ECHO)];
        }
      } else if index < MAX_INPUT_LENGTH - 1 {
        buffer[index] := c;
        index := index + 1;
        events := [Echo([c])];
      } else {
        events := [];
      }
      log := log + events;
    }

    /** `processSerialCommands`: every byte available in this pass of the main loop. */
    method ProcessSerialCommands(input: string, connected: bool) returns (events: seq<ConsoleEvent>)
      requires Valid()
      modifies this, buffer
      ensures Valid()
      ensures Outcome(Pending(), events) == Run(old(Pending()), input, connected)
      ensures log == old(log) + events
    {
      ghost var start := Pending();
      ghost var startLog := log;
      ghost var done := Outcome(start, []);
      events := [];
      var i := 0;
      while i < |input|
        invariant 0 <= i <= |input|
        invariant Valid()
        invariant done == Run(start, input[..i], connected)
        invariant Pending() == done.pending && events == done.events
        invariant log == startLog + events
      {
        ghost var last := Step(done.pending, input[i], connected);
        var e := Feed(input[i], connected);
        RunPrefixStep(start, input, i, connected);
        AppendAssoc(startLog, events, e);
        events := events + e;
        done := Outcome(last.pending, done.events + last.events);
        i := i + 1;
      }
      assert input[..i] == input;
    }
  }
}
