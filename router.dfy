/**
 The operator command router: a completed, trimmed serial line selects exactly
 one action. The four verbs are handled locally; any other text goes to the MCP
 server as a raw message, but only while the transport reports itself connected.
 */
module CommandRouter {

  datatype Action =
    | Help           // print the usage text
    | Status         // print the WiFi / MCP status snapshot
    | Disconnect     // "reconnect": ask the transport to disconnect
    | ToolCount      // print the transport's registered tool count
    | Send(message: string)  // forward the line verbatim to the MCP server
    | Reject         // not connected: report locally and drop the line

  predicate IsVerb(command: string) {
    command == "help" || command == "status" || command == "reconnect" || command == "tools"
  }

  /** The `if/else` chain over the command text; `connected` is the transport's `isConnected()`. */
  function Route(command: string, connected: bool): (a: Action)
    ensures a == Help <==> command == "help"
    ensures a == Status <==> command == "status"
    ensures a == Disconnect <==> command == "reconnect"
    ensures a == ToolCount <==> command == "tools"
    ensures a.Send? <==> !IsVerb(command) && connected
    ensures a.Send? ==> a.message == command
    ensures a == Reject <==> !IsVerb(command) && !connected
  {
    if command == "help" then Help
    else if command == "status" then Status
    else if command == "reconnect" then Disconnect
    else if command == "tools" then ToolCount
    else if connected then Send(command)
    else Reject
  }

  /** The connection state matters only for text that is not a verb. */
  lemma VerbsIgnoreConnection(command: string)
    requires IsVerb(command)
    ensures Route(command, true) == Route(command, false)
    ensures !Route(command, true).Send? && Route(command, true) != Reject
  {
  }

  /**
   Nothing is forwarded while the transport is down: no queueing, the line is gone.
   A named corollary of `Route`'s postcondition on `Send`.
   */
  lemma NoSendWhileDisconnected(command: string)
    ensures !Route(command, false).Send?
  {
  }
}
