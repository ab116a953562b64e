/**
  The server's per-event handler (`handle_client_event` in
  src/server/handler.rs). A client's reply channel is an opaque sink id;
  sending on it is recorded as a `Sent` entry.
 */
module ServerHandler {
  import opened Wrappers
  import opened ClientCommands
  import opened ServerCommands

  type SinkId = nat

  /** A decoded command and the channel its replies go to (src/client/event.rs). */
  datatype ClientEvent = ClientEvent(command: ClientCommand, responder: SinkId)

  /** One `send` on a channel. */
  datatype Sent = Sent(sink: SinkId, reply: ServerCommand)

  /**
    `handle_client_event`: `Ping(m)` answers `Pong(m)` on the event's own
    responder. The event is taken by reference and not changed.
   */
  function HandleClientEvent(e: ClientEvent): (out: seq<Sent>)
    ensures |out| == 1
    ensures forall k :: 0 <= k < |out| ==> out[k].sink == e.responder
    ensures forall k :: 0 <= k < |out| ==> out[k].reply.Pong? && out[k].reply.reply == e.command.message
  {
    match e.command
    case Ping(message) => [Sent(e.responder, Pong(message))]
  }

  /** Events handled one after another, in the order they arrive. */
  function HandleAll(events: seq<ClientEvent>): (out: seq<Sent>)
    ensures |out| == |events|
  {
    if |events| == 0 then [] else HandleClientEvent(events[0]) + HandleAll(events[1..])
  }

  /** The replies a sink receives, in order. */
  function Received(sink: SinkId, out: seq<Sent>): seq<ServerCommand> {
    if |out| == 0 then []
    else (if out[0].sink == sink then [out[0].reply] else []) + Received(sink, out[1..])
  }

  /** What a sink should receive: one pong per event it sent, echoing that event's message, in order. */
  function PongsFor(sink: SinkId, events: seq<ClientEvent>): seq<ServerCommand> {
    if |events| == 0 then []
    else (if events[0].responder == sink then [Pong(events[0].command.message)] else []) + PongsFor(sink, events[1..])
  }

  /**
    Replies are routed to their own client: over any run of events, every
    sink receives exactly the pongs for its own pings, in order, and none
    meant for another sink.
   */
  lemma {:induction false} RoutedToResponder(sink: SinkId, events: seq<ClientEvent>)
    ensures Received(sink, HandleAll(events)) == PongsFor(sink, events)
    decreases |events|
  {
    if |events| > 0 {
      var out := HandleAll(events);
      assert out[0] == HandleClientEvent(events[0])[0];
      assert out[1..] == HandleAll(events[1..]);
      RoutedToResponder(sink, events[1..]);
    }
  }
}
