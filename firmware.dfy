/**
 The firmware's own state and its entry points: `setupWifi`, the MCP
 connection callback `onMcpConnectionChange`, and one pass of `loop()`. The
 transport is a collaborator: its connection events arrive as the callback's
 argument, its `isConnected()` answer is a parameter, and tool registration is
 recorded as the sequence of `registerTool` calls made.
 */
module Firmware {

  import opened Optional
  import opened Gpio
  import opened McpTools
  import opened SerialConsole
  import opened LedBlinker

  const WIFI_MAX_ATTEMPTS: nat := 20

  /** A `blinkLed(times, delayMs)` call. */
  datatype BlinkCall = BlinkCall(times: int, delayMs: int)

  const FAST_BLINK := BlinkCall(1, 100)
  const SLOW_BLINK := BlinkCall(1, 500)

  /**
   The status cadence chosen at the end of `loop()`: fast while WiFi is down,
   slow while WiFi is up and the MCP server is not, and no call once both are up.
   */
  function Feedback(wifiConnected: bool, mcpConnected: bool): (call: Option<BlinkCall>)
    ensures call == Some(FAST_BLINK) <==> !wifiConnected
    ensures call == Some(SLOW_BLINK) <==> wifiConnected && !mcpConnected
    ensures call == None <==> wifiConnected && mcpConnected
  {
    if !wifiConnected then Some(FAST_BLINK)
    else if !mcpConnected then Some(SLOW_BLINK)
    else None
  }

  /** `n` back-to-back copies of `s`. */
  function Copies<T>(s: seq<T>, n: nat): (r: seq<T>)
    ensures |r| == n * |s|
  {
    if n == 0 then [] else Copies(s, n - 1) + s
  }

  class Device {
    var wifiConnected: bool
    var mcpConnected: bool
    /** The `registerTool` calls made so far, in order. */
    var registered: seq<ToolDecl>
    /** How many times the transport has reported a connection. */
    ghost var connections: nat
    const console: LineAccumulator
    const blinker: Blinker

    ghost predicate Valid()
      reads this, console, console.buffer, blinker
    {
      console.Valid() && blinker.Valid()
      && registered == Copies(ToolDecls(), connections)
    }

    /** The globals and statics at power-on, before `setup()` runs. */
    constructor ()
      ensures Valid() && fresh(console) && fresh(console.buffer) && fresh(blinker)
      ensures !wifiConnected && !mcpConnected && registered == []
      ensures console.Pending() == [] && blinker.State() == Initial
    {
      wifiConnected, mcpConnected, registered := false, false, [];
      connections := 0;
      console := new LineAccumulator();
      blinker := new Blinker();
    }

    /**
     `setupWifi`: poll `WiFi.status()` until it reports a connection, at most 20
     times with a 500 ms wait after each failed poll, then poll once more to set
     the flag. `status(k)` is the answer of the k-th poll.
     */
    method SetupWifi(status: nat -> bool) returns (attempts: nat)
      modifies this
      ensures attempts <= WIFI_MAX_ATTEMPTS
      ensures forall k :: 0 <= k < attempts ==> !status(k)
      ensures attempts < WIFI_MAX_ATTEMPTS ==> status(attempts)
      ensures wifiConnected == status(attempts + 1)
      ensures mcpConnected == old(mcpConnected) && registered == old(registered)
      ensures connections == old(connections)
    {
      attempts := 0;
      while !status(attempts) && attempts < WIFI_MAX_ATTEMPTS
        invariant attempts <= WIFI_MAX_ATTEMPTS
        invariant forall k :: 0 <= k < attempts ==> !status(k)
        decreases WIFI_MAX_ATTEMPTS - attempts
      {
        attempts := attempts + 1;
      }
      wifiConnected := status(attempts + 1);
    }

    /**
     `onMcpConnectionChange`: record the new connection state, and register the
     three tools each time the server connects.
     */
    method OnMcpConnectionChange(connected: bool)
      requires Valid()
      modifies this
      ensures Valid()
      ensures mcpConnected == connected && wifiConnected == old(wifiConnected)
      ensures registered == old(registered) + if connected then ToolDecls() else []
      ensures connections == old(connections) + if connected then 1 else 0
    {
      mcpConnected := connected;
      if connected {
        registered := registered + ToolDecls();
        connections := connections + 1;
      }
    }

    /**
     One pass of `loop()`. `change` is the connection event, if any, that
     `mcpClient.loop()` reported through the callback; `input` is the bytes the
     serial port has available; `clientConnected` is `mcpClient.isConnected()`
     and `now` is `millis()`. Returns what the console emitted and the LED writes
     of the feedback step.
     */
    method Loop(change: Option<bool>, input: string, clientConnected: bool, now: u32)
      returns (events: seq<ConsoleEvent>, writes: seq<PinEvent>)
      requires Valid()
      modifies this, console, console.buffer, blinker
      ensures Valid()
      ensures wifiConnected == old(wifiConnected)
      ensures mcpConnected == if change.Some? then change.value else old(mcpConnected)
      ensures registered == old(registered) + if change == Some(true) then ToolDecls() else []
      ensures Outcome(console.Pending(), events) == Run(old(console.Pending()), input, clientConnected)
      ensures console.log == old(console.log) + events
      ensures match Feedback(wifiConnected, mcpConnected)
                case None => writes == [] && blinker.State() == old(blinker.State())
                case Some(call) =>
                  BlinkOutcome(blinker.State(), writes)
                  == BlinkStep(old(blinker.State()), call.times, call.delayMs, now)
    {
      if change.Some? {
        OnMcpConnectionChange(change.value);
      }
      events := console.ProcessSerialCommands(input, clientConnected);
      var call := Feedback(wifiConnected, mcpConnected);
      match call {
        case None =>
          writes := [];
        case Some(c) =>
          writes := blinker.BlinkLed(c.times, c.delayMs, now);
      }
    }
  }

  /**
   With WiFi and the MCP server both up, a pass of the loop leaves the LED alone.
   A named corollary of `Feedback`'s third postcondition.
   */
  lemma ConnectedLoopIsQuiet(wifi: bool, mcp: bool)
    requires wifi && mcp
    ensures Feedback(wifi, mcp) == None
  {
  }

  /** Registration runs once per connection, so a reconnect registers the tools again. */
  lemma {:induction false} CopiesAppend<T>(s: seq<T>, m: nat, n: nat)
    ensures Copies(s, m + n) == Copies(s, m) + Copies(s, n)
  {
    if n > 0 {
      CopiesAppend(s, m, n - 1);
      assert Copies(s, m + n) == Copies(s, m + (n - 1)) + s;
    }
  }

  /** After two connections every tool has been registered twice, one full set after the other. */
  lemma ReconnectRegistersTwice()
    ensures Copies(ToolDecls(), 2) == ToolDecls() + ToolDecls()
    ensures forall i :: 0 <= i < 3 ==> Copies(ToolDecls(), 2)[i] == Copies(ToolDecls(), 2)[i + 3]
  {
    CopiesAppend(ToolDecls(), 1, 1);
    assert Copies(ToolDecls(), 1) == ToolDecls();
  }
}
