/**
  The client and the server together: how the server reads the frames the
  client builds, and what the client makes of the server's replies.
*/
module Relay {
  import opened Wrappers
  import opened Wire
  import opened Server
  import opened Client

  /** The server reads a client's publish frame as a publish of the content's first field. */
  lemma ParsePublishFrame(appId: AppId, content: string)
    ensures Parse(PublishFrame(appId, content)) == Publish(FirstField(content))
  {
    PublishFrameFields(appId, content);
  }

  /** The server reads a client's receive frame as a receive. */
  lemma ParseReceiveFrame(appId: AppId)
    ensures Parse(ReceiveFrame(appId)) == Receive
  {
    ReceiveFrameFields(appId);
  }

  /** Which client sent a frame makes no difference to the queue or the reply. */
  lemma AppIdIgnored(queue: seq<string>, id1: AppId, id2: AppId, content: string)
    ensures Dispatch(queue, PublishFrame(id1, content)) == Dispatch(queue, PublishFrame(id2, content))
    ensures Dispatch(queue, ReceiveFrame(id1)) == Dispatch(queue, ReceiveFrame(id2))
  {
    ParsePublishFrame(id1, content);
    ParsePublishFrame(id2, content);
    ParseReceiveFrame(id1);
    ParseReceiveFrame(id2);
  }

  /**
    On a queue that holds no `|` (every queue the server builds from empty,
    by `RunKeepsQueueFree`),
    the client reads back exactly the head from the server's reply to a
    receive, or a server error carrying the empty-queue reply.
  */
  lemma ReceiveReadsHead(queue: seq<string>, appId: AppId)
    requires FieldsFree(queue, Delimiter)
    ensures var h := Dispatch(queue, ReceiveFrame(appId));
      InterpretReply(h.response)
        == if queue == [] then Failure(ServerError(EmptyQueueReply)) else Success(queue[0])
  {
    ParseReceiveFrame(appId);
    if queue != [] {
      assert Delimiter !in queue[0];
      OkReplyYieldsContent(queue[0]);
    } else {
      assert EmptyQueueReply == "ERROR" + [Delimiter] + "No hay mensajes disponibles";
      SplitCons("ERROR", Delimiter, "No hay mensajes disponibles");
    }
  }

  /** The publish frames one client sends for `contents`, in order. */
  function PublishFrames(appId: AppId, contents: seq<string>): seq<string>
  {
    seq(|contents|, i requires 0 <= i < |contents| => PublishFrame(appId, contents[i]))
  }

  /** `n` receive frames of one client. */
  function ReceiveFrames(appId: AppId, n: nat): seq<string>
  {
    seq(n, _ => ReceiveFrame(appId))
  }

  /** What the queue keeps of each published content: the text before its first `|`. */
  function StoredForms(contents: seq<string>): seq<string>
  {
    seq(|contents|, i requires 0 <= i < |contents| => FirstField(contents[i]))
  }

  /**
    FIFO from the client's side: on an empty queue, publishing N contents and
    then receiving N times hands back, in publish order and each once, the
    text of each content before its first `|` (the whole content when it has
    none), and leaves the queue empty.
  */
  lemma ClientFifo(appId: AppId, contents: seq<string>)
    ensures var n := |contents|;
      var run := RunRequests([], PublishFrames(appId, contents) + ReceiveFrames(appId, n));
      && run.queue == []
      && |run.responses| == 2 * n
      && forall i :: 0 <= i < n ==>
           InterpretReply(run.responses[n + i]) == Success(FirstField(contents[i])) &&
           (Delimiter !in contents[i] ==> InterpretReply(run.responses[n + i]) == Success(contents[i]))
  {
    var n := |contents|;
    var stored := StoredForms(contents);
    var publishes, receives := PublishFrames(appId, contents), ReceiveFrames(appId, n);
    assert AllPublish(publishes, stored) by {
      forall i | 0 <= i < n ensures Parse(publishes[i]) == Publish(stored[i]) {
        ParsePublishFrame(appId, contents[i]);
      }
    }
    assert AllReceive(receives) by {
      forall i | 0 <= i < n ensures Parse(receives[i]) == Receive {
        ParseReceiveFrame(appId);
      }
    }
    PublishThenReceiveIsFifo(publishes, receives, stored);
    var run := RunRequests([], publishes + receives);
    forall i | 0 <= i < n
      ensures InterpretReply(run.responses[n + i]) == Success(FirstField(contents[i]))
      ensures Delimiter !in contents[i] ==> InterpretReply(run.responses[n + i]) == Success(contents[i])
    {
      FirstFieldIsPrefix(contents[i]);
      OkReplyYieldsContent(stored[i]);
      SplitFree(stored[i], Delimiter);
      if Delimiter !in contents[i] {
        SplitFree(contents[i], Delimiter);
      }
    }
  }

  /**
    A publish whose content holds `|` comes back cut at the first `|`:
    publishing "a|b|c" and receiving gives "a".
  */
  lemma DelimiterInContentIsCut(appId: AppId)
    ensures var run := RunRequests([], [PublishFrame(appId, "a|b|c"), ReceiveFrame(appId)]);
      |run.responses| == 2 && InterpretReply(run.responses[1]) == Success("a")
  {
    var f, g := PublishFrame(appId, "a|b|c"), ReceiveFrame(appId);
    assert "a|b|c" == "a" + [Delimiter] + "b|c";
    SplitCons("a", Delimiter, "b|c");
    ParsePublishFrame(appId, "a|b|c");
    ParseReceiveFrame(appId);
    RunRequestsCons([], f, [g]);
    RunRequestsCons(["a"], g, []);
    assert [g] + [] == [g] && [f] + [g] == [f, g];
    OkReplyYieldsContent("a");
    assert OkPrefix + "a" == "OK|" + "a";
  }

  /**
    The server cannot tell a retried publish from a new one: when the reply to
    the first attempt is lost and the client sends the same frame again, the
    content is stored twice.
  */
  lemma RetriedPublishStoredTwice(queue: seq<string>, appId: AppId, content: string)
    ensures RunRequests(queue, [PublishFrame(appId, content), PublishFrame(appId, content)]).queue
      == queue + [FirstField(content), FirstField(content)]
  {
    ParsePublishFrame(appId, content);
    var f := PublishFrame(appId, content);
    var q1 := queue + [FirstField(content)];
    RunRequestsCons(queue, f, [f]);
    RunRequestsCons(q1, f, []);
    assert [f] + [f] == [f, f] && [f] + [] == [f];
  }
}
