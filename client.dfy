/**
  The relay client (`MQClient`): the request frames it builds, its bounded
  retry of one request/response exchange, and how it reads the reply to a
  RECEIVE.

  The network is a `Transport`: for the frame being sent and the attempt
  number (1, 2, ...), whether that attempt connected, wrote the frame and
  read a reply (and which), or failed on the way (connect timeout, refused
  connection, I/O error). Sleeping is counted in milliseconds instead of
  being slept.
*/
module Client {
  import opened Wrappers
  import opened Wire

  /** Attempts per exchange. */
  const MaxRetries: nat := 2
  /** Pause after a failed attempt when another one follows. */
  const RetryDelayMillis: nat := 8000

  /** The client's identity token (a GUID's text form): never contains `|`. */
  type AppId = id: string | Delimiter !in id

  /** How one attempt ended. */
  datatype Attempt =
    | Replied(reply: string)   // connected, wrote the frame and read this reply
    | Failed                   // timed out or failed before a reply was read

  /** The outcome of attempt number `k` to send `frame`. */
  type Transport = (string, nat) -> Attempt

  /** Why `Receive` produced no content. */
  datatype ReceiveError =
    | ServerError(response: string)    // the reply's first field is not "OK"
    | MissingField(response: string)   // the reply is "OK" with no second field (`parts[1]` out of range)
    | Unreachable                      // every attempt failed

  /** `PUBLISH|<appId>|<content>` */
  function PublishFrame(appId: AppId, content: string): (frame: string)
  {
    "PUBLISH" + [Delimiter] + appId + [Delimiter] + content
  }

  /** `RECEIVE|<appId>` */
  function ReceiveFrame(appId: AppId): (frame: string)
  {
    "RECEIVE" + [Delimiter] + appId
  }

  /**
    What `Receive` makes of the reply: the second field when the first is
    "OK", otherwise a server error carrying the whole reply.
  */
  function InterpretReply(reply: string): (r: Result<string, ReceiveError>)
    ensures r.Success? ==> Delimiter !in r.value
  {
    var parts := Split(reply, Delimiter);
    SplitFieldsFree(reply, Delimiter);
    if parts[0] == "OK" then
      if |parts| >= 2 then Success(parts[1]) else Failure(MissingField(reply))
    else Failure(ServerError(reply))
  }

  /** The reply of the first attempt, from number `attempt` up to `MaxRetries`, that got one. */
  function FirstReply(message: string, transport: Transport, attempt: nat := 1): (r: Option<string>)
    ensures r.Some? ==> exists k :: attempt <= k <= MaxRetries && transport(message, k) == Replied(r.value)
    decreases MaxRetries + 1 - attempt
  {
    if attempt > MaxRetries then None
    else match transport(message, attempt)
      case Replied(reply) => Some(reply)
      case Failed => FirstReply(message, transport, attempt + 1)
  }

  /** Attempts 1 up to, not including, `attempt` all failed. */
  predicate FailedBefore(message: string, transport: Transport, attempt: nat)
  {
    forall k :: 1 <= k < attempt ==> transport(message, k).Failed?
  }

  class MQClient {
    const ip: string
    const port: int
    const appId: AppId

    constructor (ip: string, port: int, appId: AppId)
      ensures this.ip == ip && this.port == port && this.appId == appId
    {
      this.ip := ip;
      this.port := port;
      this.appId := appId;
    }

    /**
      Tries the exchange up to `MaxRetries` times and stops at the first
      attempt that reads a reply. `response` stays `None` unless an attempt
      succeeds. After a failed attempt the client sleeps `RetryDelayMillis`,
      except after the last one.
    */
    method SendMessageWithRetry(message: string, transport: Transport)
      returns (ok: bool, response: Option<string>, attempts: nat, sleptMillis: nat)
      ensures 1 <= attempts <= MaxRetries
      ensures FailedBefore(message, transport, attempts)
      ensures ok <==> transport(message, attempts).Replied?
      ensures ok ==> response == Some(transport(message, attempts).reply)
      ensures !ok ==> response == None && attempts == MaxRetries
      ensures sleptMillis == (attempts - 1) * RetryDelayMillis <= (MaxRetries - 1) * RetryDelayMillis
    {
      response := None;
      ok, attempts, sleptMillis := false, 0, 0;
      for attempt := 1 to MaxRetries + 1
        invariant attempts == attempt - 1
        invariant FailedBefore(message, transport, attempt)
        invariant sleptMillis == (if attempt <= MaxRetries then attempt - 1 else MaxRetries - 1) * RetryDelayMillis
        invariant response == None && !ok
      {
        attempts := attempt;
        var outcome := transport(message, attempt);
        if outcome.Replied? {
          response := Some(outcome.reply);
          ok := true;
          return;
        }
        if attempt < MaxRetries {
          sleptMillis := sleptMillis + RetryDelayMillis;
        }
      }
    }

    /**
      The overload `SendMessageWithRetry(message)`, which discards the reply:
      only whether some attempt got one.
    */
    method SendMessage(message: string, transport: Transport) returns (ok: bool)
      ensures ok <==> FirstReply(message, transport).Some?
    {
      var response, attempts, sleptMillis;
      ok, response, attempts, sleptMillis := SendMessageWithRetry(message, transport);
      FirstReplyIsFirstSuccess(message, transport, attempts);
    }

    /**
      Sends `PUBLISH|<appId>|<content>`. True when some attempt read a reply,
      whatever that reply says: an `ERROR|...` reply also gives true.
    */
    method Publish(content: string, transport: Transport) returns (ok: bool)
      ensures ok <==> FirstReply(PublishFrame(appId, content), transport).Some?
    {
      var msg := PublishFrame(appId, content);
      ok := SendMessage(msg, transport);
    }

    /**
      Sends `RECEIVE|<appId>` and reads the first reply: its second field when
      the first is "OK", a server error carrying the reply otherwise, and a
      connectivity error when no attempt got a reply.
    */
    method Receive(transport: Transport) returns (r: Result<string, ReceiveError>)
      ensures FirstReply(ReceiveFrame(appId), transport) == None ==> r == Failure(Unreachable)
      ensures FirstReply(ReceiveFrame(appId), transport).Some? ==>
        r == InterpretReply(FirstReply(ReceiveFrame(appId), transport).value)
    {
      var message := ReceiveFrame(appId);
      var ok, response, attempts, sleptMillis := SendMessageWithRetry(message, transport);
      FirstReplyIsFirstSuccess(message, transport, attempts);
      if ok {
        var parts := Split(response.value, Delimiter);
        if parts[0] == "OK" {
          if |parts| >= 2 {
            r := Success(parts[1]);
          } else {
            r := Failure(MissingField(response.value));
          }
        } else {
          r := Failure(ServerError(response.value));
        }
      } else {
        r := Failure(Unreachable);
      }
    }
  }

  // ---------------------------------------------------------------------
  // Properties

  /**
    `FirstReply` is the reply of the first successful attempt: when attempt
    `k` replied after every earlier one failed, it is that reply; when all
    `MaxRetries` attempts failed, there is none.
  */
  lemma {:induction false} FirstReplyIsFirstSuccess(message: string, transport: Transport, k: nat)
    requires 1 <= k <= MaxRetries && FailedBefore(message, transport, k)
    ensures transport(message, k).Replied? ==> FirstReply(message, transport) == Some(transport(message, k).reply)
    ensures transport(message, k).Failed? && k == MaxRetries ==> FirstReply(message, transport) == None
  {
    FirstReplyFrom(message, transport, 1, k);
  }

  /** `FirstReply` from attempt `a` skips the failed attempts `a` .. `k - 1`. */
  lemma {:induction false} FirstReplyFrom(message: string, transport: Transport, a: nat, k: nat)
    requires 1 <= a <= k <= MaxRetries && FailedBefore(message, transport, k)
    ensures FirstReply(message, transport, a) == FirstReply(message, transport, k)
    decreases k - a
  {
    if a < k {
      assert transport(message, a).Failed?;
      FirstReplyFrom(message, transport, a + 1, k);
    }
  }

  /** Some attempt within the bound replies exactly when `FirstReply` has a reply. */
  lemma {:induction false} FirstReplyExists(message: string, transport: Transport)
    ensures FirstReply(message, transport).Some? <==>
      exists k :: 1 <= k <= MaxRetries && transport(message, k).Replied?
  {
    if transport(message, 1).Replied? {
      FirstReplyIsFirstSuccess(message, transport, 1);
    } else if transport(message, 2).Replied? {
      FirstReplyIsFirstSuccess(message, transport, 2);
    } else {
      FirstReplyIsFirstSuccess(message, transport, 2);
      forall k | 1 <= k <= MaxRetries ensures transport(message, k).Failed? {
      }
    }
  }

  /** A publish frame's fields are the command, the id, then the content's own fields. */
  lemma PublishFrameFields(appId: AppId, content: string)
    ensures Split(PublishFrame(appId, content), Delimiter) == ["PUBLISH", appId] + Split(content, Delimiter)
    ensures Join(Split(PublishFrame(appId, content), Delimiter), Delimiter) == PublishFrame(appId, content)
  {
    var rest := appId + [Delimiter] + content;
    assert PublishFrame(appId, content) == "PUBLISH" + [Delimiter] + rest;
    SplitCons("PUBLISH", Delimiter, rest);
    SplitCons(appId, Delimiter, content);
    JoinSplit(PublishFrame(appId, content), Delimiter);
  }

  /** A receive frame has exactly two fields, the command and the id: no content. */
  lemma ReceiveFrameFields(appId: AppId)
    ensures Split(ReceiveFrame(appId), Delimiter) == ["RECEIVE", appId]
  {
    SplitCons("RECEIVE", Delimiter, appId);
    SplitFree(appId, Delimiter);
  }

  /**
    An "OK|" reply yields the text after "OK|" up to its next `|`: all of it
    when it has none.
  */
  lemma OkReplyYieldsContent(m: string)
    ensures InterpretReply("OK|" + m) == Success(FirstField(m))
    ensures Delimiter !in m ==> InterpretReply("OK|" + m) == Success(m)
  {
    assert "OK|" + m == "OK" + [Delimiter] + m;
    SplitCons("OK", Delimiter, m);
    if Delimiter !in m {
      SplitFree(m, Delimiter);
    }
  }

  /**
    The three outcomes of reading a reply: content exactly when the text
    before the first `|` is "OK" and a `|` follows it; a missing second field,
    with the whole reply, exactly when the reply is "OK" with no `|`; a server
    error, with the whole reply, exactly when that text is anything else.
  */
  lemma InterpretReplyCases(reply: string)
    ensures InterpretReply(reply).Success? <==> FirstField(reply) == "OK" && Delimiter in reply
    ensures InterpretReply(reply) == Failure(MissingField(reply)) <==> FirstField(reply) == "OK" && Delimiter !in reply
    ensures InterpretReply(reply) == Failure(ServerError(reply)) <==> FirstField(reply) != "OK"
  {
    SplitCount(reply, Delimiter);
    SplitFieldsFree(reply, Delimiter);
  }
}
