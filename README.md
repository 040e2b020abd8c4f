# ESP32 MCP demo firmware — verified model

This project models the logic of an ESP32 firmware (`src/main.cpp`). The firmware exposes
three tools (`led_blink`, `system-info`, `calculator`) to a remote MCP server over a
WebSocket transport. It also accepts operator commands typed on the serial console, and it
blinks the on-board LED to show the state of its links. The model is in Dafny and follows
the firmware's own structure:

- `text.dfy`
  - `Optional` holds the `Option` datatype.
  - `ArduinoText` models the Arduino `String` and C library behaviour that the firmware
    relies on:
    - `isspace` in the "C" locale;
    - `String::trim`;
    - reading a `char` buffer as a NUL-terminated C string;
    - `indexOf`, which stops at the first NUL;
    - `toInt`, which is `atol`;
    - `String(int)`.
- `router.dfy`, `CommandRouter`: the `if/else` chain that turns a completed serial command
  into one action.
- `console.dfy`, `SerialConsole`: the line accumulator of `processSerialCommands`.
  - `Step` and `Run` give the meaning of one byte and of a batch of bytes.
  - The class `LineAccumulator` keeps the fixed `char` buffer and its cursor in an array and
    an index, with a ghost log of every event.
  - Its methods are proved to follow `Step` and `Run`.
- `gpio.dfy`, `Gpio`: LED pin writes and delays, recorded as an event sequence.
- `tools.dfy`:
  - `McpTools` holds the tool declarations.
  - `LedTool` is the `led_blink` handler.
  - `CalculatorTool` is the calculator's arithmetic.
  - `CalculatorReply` is the calculator's response text.
- `blink.dfy`, `LedBlinker`: the `blinkLed` state machine.
  - Its four `static` variables become the fields of class `Blinker`.
  - `millis()` is a parameter `now`.
  - Elapsed time is computed modulo 2^32.
- `firmware.dfy`, `Firmware`: `setupWifi` against a status oracle, the connection callback
  `onMcpConnectionChange`, and one pass of `loop()` with its LED feedback choice.

Collaborators are parameters or recorded events, not code:
- The transport's connection events arrive as the callback argument.
- `isConnected()` is a boolean input.
- `registerTool` calls are recorded in a sequence.
- `WiFi.status()` is an oracle `nat -> bool`.
- The JSON library's result is an input: a parse-succeeded flag and the extracted string.
- Pin writes and delays are returned as events.

In three places the firmware's own declarations or messages promise more than its code
does, and the model follows the code.
- **LED tool, missing `state` key.** The `led_blink` schema (`src/main.cpp:161`) declares
  `"required":["state"]`. The handler returns the invalid-format error only when
  `deserializeJson` fails (`src/main.cpp:167-171`); otherwise it echoes whatever
  `doc["state"]` converts to. So the model's error path depends on the parse flag alone
  (`LedTool.LedBlink`).
- **When a line is forwarded.** Forwarding at `src/main.cpp:293-298` asks
  `mcpClient.isConnected()`, not the `mcpConnected` flag that the connection callback keeps,
  so `Route` takes that answer as its own input.
- **WiFi retries.** The failure message at `src/main.cpp:137` says the firmware will keep
  retrying. The code sets `wifiConnected` only in `setupWifi`, and `loop()` never changes it
  (`Firmware.Device.Loop` keeps it unchanged), so a failed association gives the fast blink
  forever.

## Model

| member | source | states |
|---|---|---|
| ArduinoText.CString | src/main.cpp:276-278 | `String(inputBuffer)` sees exactly the prefix before the first NUL: a prefix, NUL-free, stopped by a NUL, or all of the text when there is none |
| ArduinoText.CStringUpTo | src/main.cpp:276-278 | writing `'\0'` at the cursor makes the C string the same as that of the buffered text before the cursor |
| ArduinoText.LeadingSpaces | src/main.cpp:279 | the count of leading `isspace` characters: all of them are whitespace and the next one is not |
| ArduinoText.TrailingSpaces | src/main.cpp:279 | the count of trailing `isspace` characters: all of them are whitespace and the one before is not |
| ArduinoText.TrimStart | src/main.cpp:238-239 | `atol`'s skipping of leading whitespace: a suffix that does not start with whitespace, and everything dropped before it is whitespace |
| ArduinoText.Trim | src/main.cpp:279 | `String::trim`: the result is the middle of the text, with whitespace-only text before and after it, and no whitespace at either of its own ends |
| ArduinoText.TrimEmptyIff | src/main.cpp:279-281 | a line trims to the empty command exactly when it is all whitespace; this is the `command.length() > 0` test |
| ArduinoText.TrimFixed | src/main.cpp:279 | text with no whitespace at either end is left unchanged |
| ArduinoText.TrimIdempotent | src/main.cpp:279 | trimming twice is trimming once |
| ArduinoText.FirstIndex | src/main.cpp:236-237 | the first occurrence of a character, or -1 exactly when it does not occur |
| ArduinoText.IndexOf | src/main.cpp:236-237 | `indexOf` finds the first occurrence before any NUL, or gives -1 exactly when the C string lacks the character |
| ArduinoText.FirstIndexAfter | src/main.cpp:236-237 | in `x + [c] + y` with no `c` in `x`, the first `c` is at position `|x|` |
| ArduinoText.CStringAppend | src/main.cpp:236-237 | a NUL-free prefix is read in full as part of the C string, and reading stops only inside what follows |
| ArduinoText.IndexOfAfter | src/main.cpp:236-244 | in `x + [c] + y`, with no NUL and no `c` in `x` and anything at all in `y`, `indexOf` finds the operator after `x`, and the two substrings are `x` and `y` |
| ArduinoText.ToInt | src/main.cpp:238-244 | `toInt`: text that is empty after its leading whitespace reads as 0, and a negative value needs a leading `-`. Its value on any text is given by `ToIntReads` and `ToIntNoDigits` |
| ArduinoText.DigitPrefix | src/main.cpp:238-239 | `atol` reads the longest run of leading digits |
| ArduinoText.NatToString | src/main.cpp:248 | decimal rendering: non-empty digits with no leading zero |
| ArduinoText.IntToString | src/main.cpp:248 | `String(int)`: non-empty, with a `-` sign exactly for negative values, no `+` and no NUL |
| ArduinoText.NatToStringValue | src/main.cpp:248 | the digits written for `n` have the value `n` |
| ArduinoText.DigitPrefixOfDigits | src/main.cpp:238-239 | `atol` stops exactly at the end of a digit run |
| ArduinoText.ToIntIntToString | src/main.cpp:238-248 | `toInt` reads back what `String(int)` writes, for every integer |
| ArduinoText.LeadingSpacesAppend | src/main.cpp:238-239 | whitespace followed by text that starts with a non-space is skipped exactly |
| ArduinoText.ToIntUnsigned | src/main.cpp:238-239 | with no sign after the whitespace, `toInt` is the value of the leading digits |
| ArduinoText.ToIntSigned | src/main.cpp:238-239 | with a sign after the whitespace, `toInt` is the digits after it, negated for `-` |
| ArduinoText.ToIntReads | src/main.cpp:238-244 | `atol` on any text: whitespace, an optional sign, digits and anything that does not continue them read as the signed value of the digits |
| ArduinoText.ToIntNoDigits | src/main.cpp:238-244 | with no digit after the whitespace and the optional sign, the text reads as 0 |
| ArduinoText.ToIntDigitsBlank | src/main.cpp:238-239 | digits followed by blanks, the left operand of `"3 + 4"`, read as the digits |
| ArduinoText.ToIntBlankDigits | src/main.cpp:243-244 | blanks followed by digits, the right operand of `"3 + 4"`, read as the digits |
| CommandRouter.Route | src/main.cpp:282-299 | each verb selects its own action whatever the connection state; any other text is `Send(command)` exactly while `isConnected()` holds, and `Reject` exactly while it does not |
| CommandRouter.VerbsIgnoreConnection | src/main.cpp:282-291 | the four verbs (including `reconnect`, always a disconnect) route the same whether connected or not, and never send or reject |
| CommandRouter.NoSendWhileDisconnected | src/main.cpp:293-298 | nothing is forwarded while the transport is down |
| SerialConsole.RoutesAppend | src/main.cpp:271-316 | the commands routed by two event runs are those of the first, then those of the second |
| SerialConsole.LineCommand | src/main.cpp:276-281 | the command carries no NUL, and is empty exactly when the C string of the buffer is all whitespace |
| SerialConsole.Step | src/main.cpp:272-315 | after any byte the buffered text is shorter than `MAX_INPUT_LENGTH`, so the terminating NUL always fits |
| SerialConsole.StepLineEnd | src/main.cpp:274-302 | CR or LF empties the buffer and routes the trimmed C-string command exactly once, and only when it is not empty; with an empty buffer nothing happens |
| SerialConsole.StepErase | src/main.cpp:305-310 | backspace or DEL drops the last byte and echoes `"\b \b"` when there is one; on an empty buffer it does nothing |
| SerialConsole.StepText | src/main.cpp:312-315 | any other byte is appended and echoed while fewer than `MAX_INPUT_LENGTH - 1` bytes are buffered, and dropped silently otherwise |
| SerialConsole.StepRoutesOnlyAtLineEnd | src/main.cpp:305-315 | only a line end routes a command |
| SerialConsole.Run | src/main.cpp:271-316 | the buffer stays within bounds over any batch of bytes |
| SerialConsole.RunOne | src/main.cpp:271-272 | one available byte is one step |
| SerialConsole.RunSnoc | src/main.cpp:271-272 | one more byte after a batch is one more step |
| SerialConsole.RunPrefixStep | src/main.cpp:271-272 | reading bytes up to position `i` and then byte `i` is reading up to `i + 1` |
| SerialConsole.RunAppend | src/main.cpp:271-316 | reading `a` and then `b` is reading `a + b`: buffer and events compose |
| SerialConsole.RunText | src/main.cpp:312-315 | ordinary bytes fill the buffer up to `MAX_INPUT_LENGTH - 1`. The buffer is the typed text cut at that bound, the earlier buffered prefix is never disturbed, and nothing is routed |
| SerialConsole.RunTextPending | src/main.cpp:312-315 | the buffer after ordinary bytes is the typed text cut at `MAX_INPUT_LENGTH - 1`, extending what was buffered |
| SerialConsole.RunTextRoutes | src/main.cpp:312-315 | ordinary bytes route nothing |
| SerialConsole.BlankLine | src/main.cpp:274-302 | a whitespace-only line is discarded at its line end: the buffer resets and nothing is routed |
| SerialConsole.CrLf | src/main.cpp:274-275 | after CR the buffer is empty, so the LF of CR LF does nothing |
| SerialConsole.TypedLine | src/main.cpp:274-302 | a typed line ended by CR LF leaves the buffer empty and routes its trimmed command exactly once, or nothing when it is blank |
| SerialConsole.WordLine | src/main.cpp:274-302 | a lower-case word ended by CR LF is routed once, verbatim |
| SerialConsole.StatusLine | src/main.cpp:274-285 | `"status\r\n"` routes exactly one command, `status`, to the status action |
| SerialConsole.NulLineCommand | src/main.cpp:276-279 | the buffer `"he\0llo"` carries the command `"he"` |
| SerialConsole.NulTruncates | src/main.cpp:276-298 | `"he\0llo\r\n"` routes the command `"he"`, sent or rejected according to the connection |
| SerialConsole.LineAccumulator.constructor | src/main.cpp:26-27 | the buffer starts empty with the cursor at 0 |
| SerialConsole.LineAccumulator.Feed | src/main.cpp:272-315 | one byte updates the array and the cursor exactly as `Step` says, keeps the cursor in bounds, and appends the events to the log |
| SerialConsole.LineAccumulator.ProcessSerialCommands | src/main.cpp:270-317 | the loop over the available bytes leaves the buffer and returns the events that `Run` gives, and the log grows by those events |
| Gpio.WriteCountAppend | src/main.cpp:181-186 | the writes of a given level in two event runs add up |
| LedTool.LedResult | src/main.cpp:191 | the success text is the fixed prefix, the state verbatim and the closing `"}`; `LedResultEchoes` reads the state back |
| LedTool.LedResultEchoes | src/main.cpp:167-192 | every state string, recognised or not, is echoed verbatim in the success response; the error text echoes none |
| LedTool.BlinkCycleWrites | src/main.cpp:182-185 | one blink cycle writes HIGH once and LOW once |
| LedTool.LedBlink | src/main.cpp:162-193 | the parse failure is the only error, and it touches no pin. `"on"` writes HIGH once and `"off"` writes LOW once. `"blink"` gives exactly five HIGH, 200 ms, LOW, 200 ms cycles. Any other state writes nothing. The state is matched as `strcmp` does, up to its first NUL, and the successful response echoes all of it |
| McpTools.ToolDecls | src/main.cpp:158-225 | the three tools are registered in order with distinct names and their literal descriptions and schemas |
| CalculatorTool.Calculate | src/main.cpp:235-246 | with no operator after position 0 the result is 0; the value of a sum and of a difference is given by `CalculateSum` and `CalculateDifference` |
| CalculatorTool.CalculatePlus | src/main.cpp:236-240 | when the first `+` stands after position 0 the result is `toInt(prefix) + toInt(suffix)` |
| CalculatorTool.CalculateMinus | src/main.cpp:241-245 | when there is no `+` after position 0 and the first `-` stands after it, the result is `toInt(prefix) - toInt(suffix)` |
| CalculatorTool.CalculateSplit | src/main.cpp:235-246 | an operand, one operator and an operand evaluate to the sum or the difference of the two `toInt` values, whatever the right operand holds (for `-`, as long as no `+` occurs) |
| CalculatorTool.CalculateLeadingMinus | src/main.cpp:241-246 | text that starts with `-` and has no `+` evaluates to 0 |
| CalculatorTool.CalculateSum | src/main.cpp:236-240 | `String(a) + "+" + String(b)` evaluates to `a + b` for all integers, so `"3+4"` gives 7 |
| CalculatorTool.CalculateDifference | src/main.cpp:236-246 | `String(a) + "-" + String(b)` evaluates to `a - b` when `a >= 0`, so `"10-3"` gives 7. For a negative `a` it gives 0 |
| CalculatorTool.CalculateExampleSum | src/main.cpp:235-240 | `"3+4"` gives 7 |
| CalculatorTool.CalculateExampleDifference | src/main.cpp:235-246 | `"10-3"` gives 7 |
| CalculatorTool.CalculateSpacedSum | src/main.cpp:235-240 | blanks around the `+` are skipped: digits, blanks, `+`, blanks, digits evaluate to the sum of the two digit values |
| CalculatorTool.CalculateExampleSpaced | src/main.cpp:235-240 | `"3 + 4"` gives 7 |
| CalculatorTool.CalculateNoOperator | src/main.cpp:235-246 | text with no `+` or `-` after position 0 evaluates to 0 |
| CalculatorTool.CalculateExampleLeadingMinus | src/main.cpp:241-246 | `"-3-2"` evaluates to 0, not -5 |
| CalculatorTool.CalculateExampleText | src/main.cpp:235-246 | `"abc"` evaluates to 0 |
| CalculatorReply.CalculatorResponse | src/main.cpp:248-249 | the calculator never reports an error |
| CalculatorReply.ReplyLayout | src/main.cpp:248 | where the prefix, the expression, the key and the value lie in the concatenated response |
| CalculatorReply.CalculatorResultReadsBack | src/main.cpp:248-249 | the response is `{"success":true,"expression":"`, the expression verbatim, `","result":`, then a number that reads back as the computed result, then `}` |
| LedBlinker.Elapsed | src/main.cpp:340-342 | `now - lastBlinkTime` in 32-bit unsigned arithmetic: adding it to `lastBlinkTime` modulo 2^32 gives `now`, and with no wrap it is the plain difference |
| LedBlinker.ToUnsigned | src/main.cpp:342 | `delayMs` converted to `unsigned long` for the comparison: congruent modulo 2^32, and unchanged when it is in range |
| LedBlinker.BlinkStep | src/main.cpp:322-354 | one call writes the pin at most once; `times == 0` writes LOW and clears the count and `lastTimes` |
| LedBlinker.BlinkStepKeepsInv | src/main.cpp:322-354 | every call keeps `0 <= blinkCount <= 2*lastTimes`, and keeps the LED level tied to the count's parity while a burst runs |
| LedBlinker.BlinkTogglesAfterDelay | src/main.cpp:341-347 | within a running burst a call toggles exactly when more than `delayMs` has elapsed. A toggle adds one to the count, flips and writes the level, and restarts the delay; otherwise nothing changes |
| LedBlinker.BlinkWritesParity | src/main.cpp:341-352 | a write during a burst is HIGH after an odd number of toggles and LOW otherwise, and the write that ends a burst is LOW |
| LedBlinker.BlinkBurstEnds | src/main.cpp:348-352 | after `2*times` toggles the next call writes LOW and resets `blinkCount` and `lastTimes` to 0 |
| LedBlinker.BlinkRestarts | src/main.cpp:334-339 | a change of `times` restarts the counters, takes the LED as off and measures the delay from `now`, so nothing is written, for any `delayMs`; a negative `times` ends at once with LOW |
| LedBlinker.OneBlinkCycle | src/main.cpp:322-354 | repeated `blinkLed(1, d)` from rest writes HIGH, then LOW, then LOW and returns to rest |
| LedBlinker.BlinkAcrossWrap | src/main.cpp:340-346 | the elapsed time is right across the wrap of `millis()`: from 0xFFFFFF00 to 0x10 is 272 ms, and the LED toggles |
| LedBlinker.Blinker.constructor | src/main.cpp:323-326 | the statics start at 0, 0, false, 0 |
| LedBlinker.Blinker.BlinkLed | src/main.cpp:322-354 | the method changes the four fields and writes the pin exactly as `BlinkStep` says, and keeps the invariant |
| Firmware.Feedback | src/main.cpp:102-108 | `blinkLed(1,100)` exactly when WiFi is down, `blinkLed(1,500)` exactly when WiFi is up and MCP is down, and no call exactly when both are up |
| Firmware.Copies | src/main.cpp:258-263 | `n` registration passes record `n` times the three declarations |
| Firmware.CopiesAppend | src/main.cpp:258-263 | registration passes compose |
| Firmware.ReconnectRegistersTwice | src/main.cpp:258-263 | a second connection registers the same three tools again after the first set |
| Firmware.ConnectedLoopIsQuiet | src/main.cpp:102-108 | with both links up the loop makes no blink call |
| Firmware.Device.constructor | src/main.cpp:25-32 | power-on state: both flags false, nothing registered, empty buffer, blinker at rest |
| Firmware.Device.SetupWifi | src/main.cpp:121-138 | at most 20 polls fail before the loop stops; the loop stops early only on a connected poll; the flag is the answer of one further poll |
| Firmware.Device.OnMcpConnectionChange | src/main.cpp:258-267 | `mcpConnected` becomes the argument, and the three tools are registered exactly when it is true |
| Firmware.Device.Loop | src/main.cpp:96-109 | a tick applies the connection event, processes the available serial bytes as `Run` says, then makes the feedback call `Feedback` chooses, or none. `wifiConnected` never changes |

## Left out

- Serial printing is not modelled. That covers `printHelp` and `printStatus`, the usage
  banner, the "[sent]" and "Cannot connect" messages and the tool count line. The model
  records which action was chosen and the echoes, not the text printed.
- The WebSocketMCP library is outside the model. That covers `begin`, `loop`,
  `sendMessage`, `disconnect`, `getToolCount` and the registry's duplicate-or-overwrite
  policy. Its effects are inputs or recorded events only.
- The MCP dispatcher is left out. Tool lookup and the "unknown tool" case live in the library.
- `deserializeJson` and `as<String>()` are left out. A handler receives the parse flag and the
  extracted string. The calculator ignores the parse result, so its expression is taken as
  given.
- The `system-info` tool is reduced to its declaration. Every field of its result is a
  hardware or WiFi read.
- `setup()` (`src/main.cpp:69-94`) is not modelled as a whole. In particular `pinMode` and
  its initial `digitalWrite(LED_PIN, LOW)` are left out; `Firmware.Device.SetupWifi` and
  `OnMcpConnectionChange` model the parts of it that change the firmware's state.
- LED timing: `digitalWrite` and `delay` are recorded as events, not as time. The 200 ms
  blocking delays of `led_blink` are `Delay` events. The 500 ms waits of `setupWifi` are
  not recorded.
- WiFi association is not modelled. `WiFi.mode`, `WiFi.begin` and the IP/RSSI reads are
  outside the model; `WiFi.status()` is an oracle.
- LedBlinker.BlinkStep: the two `millis()` reads of one call are taken as the same instant,
  so a restart and the elapsed-time test both see `now`.
- LedBlinker.BlinkStep: `times * 2` is computed with mathematical integers. In a 32-bit
  `int` the C expression overflows when `times >= 2^30` or `times < -2^30`, and the
  firmware always passes 1.
- CalculatorTool.CalculateSplit: `toInt` and the sum and difference use unbounded
  integers. `atol`'s behaviour past the `long` range and signed overflow of `a + b` and
  `a - b`, undefined behaviour in C++, are not modelled.
- CalculatorReply.CalculatorResponse: the expression is copied into the result unescaped.
  The model states this layout, but it does not judge whether the outcome is valid JSON.
- SerialConsole.Run: `isConnected()` is one value for the whole serial pass. The effect of
  the `reconnect` action's `disconnect()` on later lines in the same pass is not modelled.
