/**
 The `blinkLed(times, delayMs)` status blinker: a non-blocking state machine kept
 in four `static` variables and advanced once per main-loop tick. The clock
 `millis()` is an `unsigned long`, 32 bits wide on the ESP32, so elapsed time is
 computed modulo 2^32 and survives the counter wrapping around.
 */
module LedBlinker {

  import opened Gpio

  const U32_MODULUS: int := 0x1_0000_0000

  /** A 32-bit `unsigned long`. */
  type u32 = x: int | 0 <= x < U32_MODULUS

  /** `now - since` in `unsigned long` arithmetic. */
  function Elapsed(now: u32, since: u32): (d: u32)
    ensures (since + d) % U32_MODULUS == now
    ensures since <= now ==> d == now - since
    ensures now < since ==> d == now - since + U32_MODULUS
  {
    (now - since) % U32_MODULUS
  }

  /** The usual arithmetic conversion of an `int` operand compared with an `unsigned long`. */
  function ToUnsigned(x: int): (u: u32)
    ensures (u - x) % U32_MODULUS == 0
    ensures 0 <= x ==> x < U32_MODULUS ==> u == x
  {
    x % U32_MODULUS
  }

  /** The four `static` variables of `blinkLed`. */
  datatype BlinkState = BlinkState(blinkCount: int, lastBlinkTime: u32, ledState: bool, lastTimes: int)

  /** Their static initial values. */
  const Initial := BlinkState(0, 0, false, 0)

  /**
   What holds between calls: the toggle count never exceeds two per requested
   blink, and while a burst is running the remembered LED level is on exactly
   after an odd number of toggles.
   */
  predicate Inv(s: BlinkState) {
    0 <= s.blinkCount <= 2 * s.lastTimes
    && (s.lastTimes != 0 ==> s.ledState == (s.blinkCount % 2 == 1))
  }

  /** The new state and the pin writes of one call. */
  datatype BlinkOutcome = BlinkOutcome(state: BlinkState, writes: seq<PinEvent>)

  function LevelOf(on: bool): Level {
    if on then High else Low
  }

  /**
   One call of `blinkLed(times, delayMs)` at clock value `now`. Both `millis()`
   reads of a call see the same `now`.
   */
  function BlinkStep(s: BlinkState, times: int, delayMs: int, now: u32): (r: BlinkOutcome)
    ensures |r.writes| <= 1
    ensures times == 0 ==> r == BlinkOutcome(s.(blinkCount := 0, lastTimes := 0), [Write(Low)])
  {
    if times == 0 then
      BlinkOutcome(s.(blinkCount := 0, lastTimes := 0), [Write(Low)])
    else
      var s1 := if s.lastTimes != times
                then BlinkState(0, now, false, times)
                else s;
      if s1.blinkCount < times * 2 then
        if Elapsed(now, s1.lastBlinkTime) > ToUnsigned(delayMs) then
          var on := !s1.ledState;
          BlinkOutcome(BlinkState(s1.blinkCount + 1, now, on, s1.lastTimes), [Write(LevelOf(on))])
        else
          BlinkOutcome(s1, [])
      else
        BlinkOutcome(s1.(blinkCount := 0, lastTimes := 0), [Write(Low)])
  }

  /** Every call keeps the invariant, whatever its arguments. */
  lemma BlinkStepKeepsInv(s: BlinkState, times: int, delayMs: int, now: u32)
    requires Inv(s)
    ensures Inv(BlinkStep(s, times, delayMs, now).state)
  {
  }

  /**
   While a burst of `times` is under way and not finished, a call toggles
   exactly when more than `delayMs` has elapsed since the last toggle; a toggle
   adds one to the count, flips the level, writes it and restarts the delay.
   Otherwise nothing changes and nothing is written.
   */
  lemma BlinkTogglesAfterDelay(s: BlinkState, times: int, delayMs: int, now: u32)
    requires Inv(s) && times > 0 && s.lastTimes == times && s.blinkCount < 2 * times
    ensures var r := BlinkStep(s, times, delayMs, now);
            if Elapsed(now, s.lastBlinkTime) > ToUnsigned(delayMs) then
              r.state == BlinkState(s.blinkCount + 1, now, !s.ledState, times)
              && r.writes == [Write(if s.blinkCount % 2 == 0 then High else Low)]
            else
              r.state == s && r.writes == []
  {
  }

  /**
   Within a burst the pin follows the toggle count: a call that writes and
   leaves the burst running writes HIGH after an odd number of toggles and LOW
   after an even one; a call that ends the burst writes LOW.
   */
  lemma BlinkWritesParity(s: BlinkState, times: int, delayMs: int, now: u32)
    requires Inv(s)
    ensures var r := BlinkStep(s, times, delayMs, now);
            r.writes != [] ==>
              r.writes == [Write(if r.state.lastTimes != 0 && r.state.blinkCount % 2 == 1 then High else Low)]
  {
  }

  /** After `2 * times` toggles the next call drives the LED LOW and clears the counters. */
  lemma BlinkBurstEnds(s: BlinkState, times: int, delayMs: int, now: u32)
    requires Inv(s) && times > 0 && s.lastTimes == times && s.blinkCount == 2 * times
    ensures BlinkStep(s, times, delayMs, now)
            == BlinkOutcome(s.(blinkCount := 0, lastTimes := 0), [Write(Low)])
  {
  }

  /**
   A call with a different `times` starts a new burst: the counters restart, the
   LED is taken as off and the delay is measured from `now`, so nothing is
   written on that call: no time has elapsed, and a negative delay converts to
   a large unsigned one. A negative `times` ends
   the burst again at once.
   */
  lemma BlinkRestarts(s: BlinkState, times: int, delayMs: int, now: u32)
    requires times != 0 && s.lastTimes != times
    ensures var r := BlinkStep(s, times, delayMs, now);
            if times > 0 then r == BlinkOutcome(BlinkState(0, now, false, times), [])
            else r == BlinkOutcome(BlinkState(0, now, false, 0), [Write(Low)])
  {
  }

  /**
   The status cadence of the main loop, `blinkLed(1, d)` called over and over:
   from rest, the first call starts the burst, the LED goes HIGH and then LOW
   once more than `d` ms each have elapsed, and the call after that writes LOW
   and returns to rest, ready for the next cycle.
   */
  lemma {:induction false} OneBlinkCycle(s: BlinkState, d: int, t0: u32, t1: u32, t2: u32, t3: u32)
    requires Inv(s) && s.lastTimes == 0 && 0 <= d
    requires Elapsed(t1, t0) > ToUnsigned(d) && Elapsed(t2, t1) > ToUnsigned(d)
    ensures var r0 := BlinkStep(s, 1, d, t0);
            var r1 := BlinkStep(r0.state, 1, d, t1);
            var r2 := BlinkStep(r1.state, 1, d, t2);
            var r3 := BlinkStep(r2.state, 1, d, t3);
            r0.writes + r1.writes + r2.writes + r3.writes == [Write(High), Write(Low), Write(Low)]
            && r3.state.blinkCount == 0 && r3.state.lastTimes == 0 && Inv(r3.state)
  {
    var r0 := BlinkStep(s, 1, d, t0);
    BlinkRestarts(s, 1, d, t0);
    assert r0.state == BlinkState(0, t0, false, 1);
    var r1 := BlinkStep(r0.state, 1, d, t1);
    BlinkTogglesAfterDelay(r0.state, 1, d, t1);
    var r2 := BlinkStep(r1.state, 1, d, t2);
    BlinkTogglesAfterDelay(r1.state, 1, d, t2);
    BlinkBurstEnds(r2.state, 1, d, t3);
  }

  /** The elapsed time is right across the 32-bit wrap of `millis()`: 0xFFFFFF00 to 0x10 is 272 ms. */
  lemma BlinkAcrossWrap()
    ensures Elapsed(0x10, 0xFFFF_FF00) == 272
    ensures BlinkStep(BlinkState(0, 0xFFFF_FF00, false, 1), 1, 100, 0x10)
            == BlinkOutcome(BlinkState(1, 0x10, true, 1), [Write(High)])
  {
  }

  /** The four static variables as fields; `now` stands for `millis()`. */
  class Blinker {
    var blinkCount: int
    var lastBlinkTime: u32
    var ledState: bool
    var lastTimes: int

    function State(): BlinkState
      reads this
    {
      BlinkState(blinkCount, lastBlinkTime, ledState, lastTimes)
    }

    predicate Valid()
      reads this
    {
      Inv(State())
    }

    constructor ()
      ensures State() == Initial && Valid()
    {
      blinkCount, lastBlinkTime, ledState, lastTimes := 0, 0, false, 0;
    }

    /** `blinkLed(times, delayMs)`; returns the `digitalWrite(LED_PIN, …)` calls it makes. */
    method BlinkLed(times: int, delayMs: int, now: u32) returns (writes: seq<PinEvent>)
      requires Valid()
      modifies this
      ensures Valid()
      ensures BlinkOutcome(State(), writes) == BlinkStep(old(State()), times, delayMs, now)
    {
      BlinkStepKeepsInv(State(), times, delayMs, now);
      if times == 0 {
        blinkCount := 0;
        lastTimes := 0;
        return [Write(Low)];
      }
      if lastTimes != times {
        blinkCount := 0;
        lastTimes := times;
        ledState := false;
        lastBlinkTime := now;
      }
      writes := [];
      if blinkCount < times * 2 {
        if Elapsed(now, lastBlinkTime) > ToUnsigned(delayMs) {
          lastBlinkTime := now;
          ledState := !ledState;
          writes := [Write(if ledState then High else Low)];
          blinkCount := blinkCount + 1;
        }
      } else {
        writes := [Write(Low)];
        blinkCount := 0;
        lastTimes := 0;
      }
    }
  }
}
