/**
  The relay server's request handling (`MQServer.HandleClient`) acting on
  the shared message queue, with the socket read and write taken away: a
  request is the text read from the connection and the response is the
  text written back.

  `Parse`, `Apply` and `Dispatch` are the specification; `MessageQueue`
  (the `ConcurrentQueue<string>`) and `MQServer.Respond` are the imperative
  model, proved to follow `Dispatch`.
*/
module Server {
  import opened Wrappers
  import opened Wire

  const PublishCommand := "PUBLISH"
  const ReceiveCommand := "RECEIVE"

  /** The reply to an accepted PUBLISH. */
  const PublishedReply := "OK|Mensaje recibido"
  /** The default reply: unknown command, or a PUBLISH with too few fields. */
  const InvalidCommandReply := "ERROR|Comando no v\U{E1}lido"
  /** The reply to a RECEIVE on an empty queue. */
  const EmptyQueueReply := "ERROR|No hay mensajes disponibles"

  /** The prefix of every successful reply. */
  const OkPrefix := "OK|"

  /** What a request asks of the queue once its fields are read. */
  datatype Command =
    | Publish(content: string)   // store `content` at the tail
    | Receive                    // take the head
    | Invalid                    // anything else: the default error reply

  /** The queue after a request, and the reply written back. */
  datatype Handled = Handled(queue: seq<string>, response: string)

  /** The queue after a series of requests, and the replies in request order. */
  datatype Run = Run(queue: seq<string>, responses: seq<string>)

  /**
    Reads a request the way the server's `switch` does: only the first field
    (the command) and, for PUBLISH, the third field are looked at.
  */
  function Parse(request: string): (cmd: Command)
    ensures cmd.Publish? ==> Delimiter !in cmd.content
  {
    var parts := Split(request, Delimiter);
    SplitFieldsFree(request, Delimiter);
    if parts[0] == PublishCommand then
      if |parts| >= 3 then Publish(parts[2]) else Invalid
    else if parts[0] == ReceiveCommand then Receive
    else Invalid
  }

  /** The effect of one command on the FIFO queue, and its reply. */
  function Apply(queue: seq<string>, cmd: Command): (h: Handled)
  {
    match cmd
    case Publish(content) => Handled(queue + [content], PublishedReply)
    case Receive =>
      if queue != [] then Handled(queue[1..], OkPrefix + queue[0])
      else Handled(queue, EmptyQueueReply)
    case Invalid => Handled(queue, InvalidCommandReply)
  }

  /** One request handled against the queue: the specification of `Respond`. */
  function Dispatch(queue: seq<string>, request: string): (h: Handled)
  {
    Apply(queue, Parse(request))
  }

  /**
    Connections handled one at a time, in arrival order: each request is
    dispatched against the queue the previous one left, and every request
    gets exactly one reply, in the same order.
  */
  function RunRequests(queue: seq<string>, requests: seq<string>): (run: Run)
    ensures |run.responses| == |requests|
    decreases |requests|
  {
    if requests == [] then Run(queue, [])
    else
      var first := Dispatch(queue, requests[0]);
      var rest := RunRequests(first.queue, requests[1..]);
      Run(rest.queue, [first.response] + rest.responses)
  }

  /** The shared in-memory FIFO of published contents (`ConcurrentQueue<string>`). */
  class MessageQueue {
    var items: seq<string>

    constructor ()
      ensures items == []
    {
      items := [];
    }

    /** Appends `content` at the tail; never fails and has no bound. */
    method Enqueue(content: string)
      modifies this
      ensures items == old(items) + [content]
    {
      items := items + [content];
    }

    /** Removes and returns the head, or returns `None` without blocking when empty. */
    method TryDequeue() returns (head: Option<string>)
      modifies this
      ensures old(items) == [] ==> head == None && items == []
      ensures old(items) != [] ==> head == Some(old(items)[0]) && items == old(items)[1..]
    {
      if items == [] {
        head := None;
      } else {
        head := Some(items[0]);
        items := items[1..];
      }
    }
  }

  /** The server: one queue owned for the lifetime of the process. */
  class MQServer {
    const messageQueue: MessageQueue

    constructor ()
      ensures fresh(messageQueue) && messageQueue.items == []
    {
      messageQueue := new MessageQueue();
    }

    /**
      Handles one connection: `read` is the request read from it, `None` when
      the read timed out or failed. A request gets the reply `Respond` builds;
      a failed read changes nothing and gets no reply before the connection
      is closed.
    */
    method HandleClient(read: Option<string>) returns (written: Option<string>)
      modifies messageQueue
      ensures read == None ==> written == None && messageQueue.items == old(messageQueue.items)
      ensures read.Some? ==>
        written.Some? && Handled(messageQueue.items, written.value) == Dispatch(old(messageQueue.items), read.value)
    {
      if read.Some? {
        var response := Respond(read.value);
        written := Some(response);
      } else {
        written := None;
      }
    }

    /**
      Builds the reply to one request, acting on the queue. The reply starts
      as the invalid-command error and is replaced only by a PUBLISH with at
      least three fields or by a RECEIVE.
    */
    method Respond(request: string) returns (response: string)
      modifies messageQueue
      ensures Handled(messageQueue.items, response) == Dispatch(old(messageQueue.items), request)
    {
      var parts := Split(request, Delimiter);
      var command := parts[0];
      response := InvalidCommandReply;
      if command == PublishCommand {
        if |parts| >= 3 {
          var content := parts[2];
          messageQueue.Enqueue(content);
          response := PublishedReply;
        }
      } else if command == ReceiveCommand {
        var msg := messageQueue.TryDequeue();
        if msg.Some? {
          response := OkPrefix + msg.value;
        } else {
          response := EmptyQueueReply;
        }
      }
    }
  }

  // ---------------------------------------------------------------------
  // Properties of the specification

  /**
    A PUBLISH with at least three fields stores exactly the third field at the
    tail and acknowledges; what follows a further `|` is dropped.
  */
  lemma PublishStoresThirdField(queue: seq<string>, id: string, content: string, extra: seq<string>)
    requires Delimiter !in id && Delimiter !in content && FieldsFree(extra, Delimiter)
    ensures var request := Join([PublishCommand, id, content] + extra, Delimiter);
      Dispatch(queue, request) == Handled(queue + [content], PublishedReply)
  {
    var fields := [PublishCommand, id, content] + extra;
    assert FieldsFree(fields, Delimiter) by {
      forall i | 0 <= i < |fields| ensures Delimiter !in fields[i] {
        if i >= 3 { assert fields[i] == extra[i - 3]; }
      }
    }
    SplitJoin(fields, Delimiter);
  }

  /** Publishing never puts a `|` into the queue: a `|`-free queue stays `|`-free. */
  lemma DispatchKeepsQueueFree(queue: seq<string>, request: string)
    requires FieldsFree(queue, Delimiter)
    ensures FieldsFree(Dispatch(queue, request).queue, Delimiter)
  {
    SplitFieldsFree(request, Delimiter);
  }

  /** Every queue built by a run of requests from a `|`-free queue (the empty one included) stays `|`-free. */
  lemma {:induction false} RunKeepsQueueFree(queue: seq<string>, requests: seq<string>)
    requires FieldsFree(queue, Delimiter)
    ensures FieldsFree(RunRequests(queue, requests).queue, Delimiter)
    decreases |requests|
  {
    if requests != [] {
      DispatchKeepsQueueFree(queue, requests[0]);
      RunKeepsQueueFree(Dispatch(queue, requests[0]).queue, requests[1..]);
    }
  }

  /** A PUBLISH with fewer than two `|` changes nothing and gets the invalid-command error. */
  lemma ShortPublishRejected(queue: seq<string>, request: string)
    requires FirstField(request) == PublishCommand
    requires multiset(request)[Delimiter] < 2
    ensures Dispatch(queue, request) == Handled(queue, InvalidCommandReply)
  {
    SplitCount(request, Delimiter);
  }

  /**
    RECEIVE takes exactly the head and replies with it, keeping the rest in
    order; on an empty queue it replies with the empty-queue error and the
    queue stays empty.
  */
  lemma ReceiveTakesHead(queue: seq<string>, request: string)
    requires FirstField(request) == ReceiveCommand
    ensures queue != [] ==> Dispatch(queue, request) == Handled(queue[1..], OkPrefix + queue[0])
    ensures queue == [] ==> Dispatch(queue, request) == Handled([], EmptyQueueReply)
  {
  }

  /**
    A request whose text before the first `|` is neither command, including the
    empty request, changes nothing and gets the invalid-command error.
  */
  lemma UnknownCommandRejected(queue: seq<string>, request: string)
    requires FirstField(request) != PublishCommand && FirstField(request) != ReceiveCommand
    ensures Dispatch(queue, request) == Handled(queue, InvalidCommandReply)
  {
  }

  /** The client-id field is never read: requests that differ only there are handled alike. */
  lemma {:induction false} ClientIdIgnored(queue: seq<string>, request1: string, request2: string)
    requires var p1, p2 := Split(request1, Delimiter), Split(request2, Delimiter);
      |p1| == |p2| && forall i :: 0 <= i < |p1| && i != 1 ==> p1[i] == p2[i]
    ensures Dispatch(queue, request1) == Dispatch(queue, request2)
  {
    var p1, p2 := Split(request1, Delimiter), Split(request2, Delimiter);
    assert p1[0] == p2[0];
    if |p1| >= 3 {
      assert p1[2] == p2[2];
    }
  }

  /**
    A reply starts with "OK|" exactly when the queue changed, and then either
    one item was appended at the tail or the head was removed and returned;
    every error reply leaves the queue as it was.
  */
  lemma ReplyReportsEffect(queue: seq<string>, request: string)
    ensures var h := Dispatch(queue, request);
      && (OkPrefix <= h.response <==> h.queue != queue)
      && (h.queue != queue ==>
            (|h.queue| == |queue| + 1 && h.queue[..|queue|] == queue && h.response == PublishedReply) ||
            (queue != [] && h.queue == queue[1..] && h.response == OkPrefix + queue[0]))
  {
    var h := Dispatch(queue, request);
    match Parse(request)
    case Publish(c) =>
      assert h.queue[..|queue|] == queue;
    case Receive =>
      if queue != [] { assert |h.queue| == |queue| - 1; }
      else { assert h.response[0] != OkPrefix[0]; }
    case Invalid =>
      assert h.response[0] != OkPrefix[0];
  }

  /** A run of requests is the first request handled, then the run of the rest. */
  lemma RunRequestsCons(queue: seq<string>, request: string, requests: seq<string>)
    ensures var first := Dispatch(queue, request);
      var rest := RunRequests(first.queue, requests);
      RunRequests(queue, [request] + requests) == Run(rest.queue, [first.response] + rest.responses)
  {
    assert ([request] + requests)[1..] == requests;
  }

  /** A run of requests is the run of its first part followed by the run of the rest. */
  lemma {:induction false} RunRequestsAppend(queue: seq<string>, a: seq<string>, b: seq<string>)
    ensures var ra := RunRequests(queue, a);
      var rb := RunRequests(ra.queue, b);
      RunRequests(queue, a + b) == Run(rb.queue, ra.responses + rb.responses)
    decreases |a|
  {
    if a != [] {
      assert (a + b)[0] == a[0] && (a + b)[1..] == a[1..] + b;
      RunRequestsAppend(Dispatch(queue, a[0]).queue, a[1..], b);
    } else {
      assert a + b == b;
    }
  }

  /** `n` copies of `reply`. */
  function Repeat(reply: string, n: nat): seq<string>
  {
    seq(n, _ => reply)
  }

  /** Every request of `requests` is a PUBLISH, the i-th one of `contents[i]`. */
  predicate AllPublish(requests: seq<string>, contents: seq<string>)
  {
    |requests| == |contents| && forall i :: 0 <= i < |requests| ==> Parse(requests[i]) == Publish(contents[i])
  }

  /** Every request of `requests` is a RECEIVE. */
  predicate AllReceive(requests: seq<string>)
  {
    forall i :: 0 <= i < |requests| ==> Parse(requests[i]) == Receive
  }

  /** Publishes append their contents at the tail in order, and each is acknowledged. */
  lemma {:induction false} PublishesAppend(queue: seq<string>, requests: seq<string>, contents: seq<string>)
    requires AllPublish(requests, contents)
    ensures RunRequests(queue, requests) == Run(queue + contents, Repeat(PublishedReply, |requests|))
    decreases |requests|
  {
    if requests != [] {
      var q1 := queue + [contents[0]];
      assert AllPublish(requests[1..], contents[1..]) by {
        forall i | 0 <= i < |requests| - 1 ensures Parse(requests[1..][i]) == Publish(contents[1..][i]) {
          assert requests[1..][i] == requests[i + 1];
        }
      }
      PublishesAppend(q1, requests[1..], contents[1..]);
      assert q1 + contents[1..] == queue + contents;
    }
  }

  /** As many receives as the queue holds return it head first, each item once, and empty it. */
  lemma {:induction false} ReceivesDrain(queue: seq<string>, requests: seq<string>)
    requires |requests| == |queue| && AllReceive(requests)
    ensures RunRequests(queue, requests)
      == Run([], seq(|queue|, i requires 0 <= i < |queue| => OkPrefix + queue[i]))
    decreases |queue|
  {
    if queue != [] {
      assert AllReceive(requests[1..]) by {
        forall i | 0 <= i < |requests| - 1 ensures Parse(requests[1..][i]) == Receive {
          assert requests[1..][i] == requests[i + 1];
        }
      }
      ReceivesDrain(queue[1..], requests[1..]);
      var n := |queue|;
      var tail := seq(n - 1, i requires 0 <= i < n - 1 => OkPrefix + queue[1..][i]);
      var all := seq(n, i requires 0 <= i < n => OkPrefix + queue[i]);
      assert [OkPrefix + queue[0]] + tail == all;
    }
  }

  /**
    FIFO: on an empty queue, N publishes followed by N receives give back the
    published contents in publish order, each exactly once, and leave the
    queue empty.
  */
  lemma PublishThenReceiveIsFifo(publishes: seq<string>, receives: seq<string>, contents: seq<string>)
    requires AllPublish(publishes, contents) && AllReceive(receives) && |receives| == |publishes|
    ensures var run := RunRequests([], publishes + receives);
      && run.queue == []
      && |run.responses| == 2 * |contents|
      && forall i :: 0 <= i < |contents| ==>
           run.responses[i] == PublishedReply &&
           run.responses[|contents| + i] == OkPrefix + contents[i]
  {
    var n := |contents|;
    RunRequestsAppend([], publishes, receives);
    PublishesAppend([], publishes, contents);
    assert [] + contents == contents;
    ReceivesDrain(contents, receives);
    var acks := Repeat(PublishedReply, n);
    var heads := seq(n, i requires 0 <= i < n => OkPrefix + contents[i]);
    assert RunRequests([], publishes + receives) == Run([], acks + heads);
    forall i | 0 <= i < n
      ensures (acks + heads)[i] == PublishedReply && (acks + heads)[n + i] == OkPrefix + contents[i]
    {
    }
  }
}
