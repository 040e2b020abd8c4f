/**
 The LED pin as seen by the model: `digitalWrite(LED_PIN, …)` calls and `delay`
 calls become events in the order they happen. Every write goes to `LED_PIN`
 (GPIO 2), so an event does not name its pin.
 */
module Gpio {

  datatype Level = Low | High

  datatype PinEvent = Write(level: Level) | Delay(ms: nat)

  /** Number of writes of `level` in an event sequence. */
  function WriteCount(events: seq<PinEvent>, level: Level): nat {
    if events == [] then 0
    else WriteCount(events[..|events| - 1], level) + (if events[|events| - 1] == Write(level) then 1 else 0)
  }

  lemma {:induction false} WriteCountAppend(a: seq<PinEvent>, b: seq<PinEvent>, level: Level)
    ensures WriteCount(a + b, level) == WriteCount(a, level) + WriteCount(b, level)
  {
    if b != [] {
      assert (a + b)[..|a + b| - 1] == a + b[..|b| - 1];
      WriteCountAppend(a, b[..|b| - 1], level);
    } else {
      assert a + b == a;
    }
  }
}
