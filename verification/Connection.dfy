/**
 * One connection from its first byte to its last: read a record, handle it,
 * write the reply, until the peer, an error or the stop flag ends it.
 */
module Connection {
  import opened Wrappers
  import opened Xdr
  import opened ReadOnlyFs
  import opened FileHandle
  import opened NfsAnswers
  import opened RpcCall
  import opened Rpc
  import opened Server

  class Output {
    var sent: bytes

    constructor ()
      ensures sent == []
    {
      sent := [];
    }

    /** All of `b`, or an error once some part of it is sent. */
    method WriteAll(b: bytes) returns (ok: bool)
      modifies this
      ensures ok ==> sent == old(sent) + b
      ensures !ok ==> exists k: nat | k <= |b| :: sent == old(sent) + b[..k]
    {
      var k: nat :| k <= |b|;
      sent := sent + b[..k];
      assert b[..|b|] == b;
      return k == |b|;
    }
  }

  method WriteMessage(out: Output, body: bytes) returns (ok: bool)
    modifies out
    ensures ok ==> out.sent == old(out.sent) + Frame(body)
    ensures !ok ==> exists k: nat | k <= |Frame(body)| :: out.sent == old(out.sent) + Frame(body)[..k]
  {
    ghost var before := out.sent;
    ghost var mark := Be32(RecordMark(|body|));
    ok := out.WriteAll(Be32(RecordMark(|body|)));
    if !ok {
      ghost var k: nat :| k <= |mark| && out.sent == before + mark[..k];
      assert Frame(body)[..k] == mark[..k];
      return false;
    }
    ok := out.WriteAll(body);
    if ok {
      Assoc(before, mark, body);
    } else {
      ghost var k: nat :| k <= |body| && out.sent == before + mark + body[..k];
      assert Frame(body)[..4 + k] == mark + body[..k];
      Assoc(before, mark, body[..k]);
    }
  }

  function Frames(replies: seq<bytes>): bytes {
    if replies == [] then [] else Frame(replies[0]) + Frames(replies[1..])
  }

  lemma {:induction false} FramesSnoc(replies: seq<bytes>, reply: bytes)
    ensures Frames(replies + [reply]) == Frames(replies) + Frame(reply)
  {
    var all := replies + [reply];
    if replies == [] {
      assert all[1..] == [];
    } else {
      assert all[1..] == replies[1..] + [reply];
      FramesSnoc(replies[1..], reply);
      Assoc(Frame(replies[0]), Frames(replies[1..]), Frame(reply));
    }
  }

  // ---------------------------------------------------------------- the service

  /** What stays the same while a server runs. */
  datatype Service = Service(secret: Secret, config: Config)

  /** What the server meets while it handles one message: the files as they are then, and its two loads of the serving flag. */
  datatype Moment = Moment(fs: Fs, first: bool, second: bool)

  const FSID: u64 := 1

  /** The message handled in this moment may get this reply. */
  ghost predicate Replied(service: Service, m: Moment, body: bytes, reply: Option<bytes>) {
    Handled(body, Ctx(m.fs, service.secret, FSID), service.config, m.first, m.second, reply)
  }

  /** One reply for each of the first requests, each in its place. */
  ghost predicate InOrder(service: Service, history: nat -> Moment, bodies: seq<bytes>, replies: seq<bytes>) {
    && |replies| <= |bodies|
    && forall k | 0 <= k < |replies| :: Replied(service, history(k), bodies[k], Some(replies[k]))
  }

  /** What ended a connection. */
  datatype Close = ByStop | ByPeer | ByReadError(error: IoError) | ByRequest | ByWriteError

  /** A reply was cut short by a failing write. */
  ghost predicate CutShort(service: Service, m: Moment, body: bytes, part: bytes) {
    exists reply: bytes :: Replied(service, m, body, Some(reply)) && part <= Frame(reply)
  }

  /**
   * What a connection that received `got` may have sent when it closed: the
   * replies to all its requests if the peer or a read ended it, to those before
   * the malformed one if a request did, and nothing else but the part of one
   * more reply that a failing write let through.
   */
  ghost predicate Closed(service: Service, history: nat -> Moment, got: (seq<bytes>, End), replies: seq<bytes>,
                         part: bytes, close: Close)
  {
    && InOrder(service, history, got.0, replies)
    && (close != ByWriteError ==> part == [])
    && match close
       case ByPeer => got.1 == CleanEnd && |replies| == |got.0|
       case ByReadError(e) => got.1 == Died(e) && |replies| == |got.0|
       case ByRequest => |replies| < |got.0| && HeaderOf(got.0[|replies|]) == Malformed
       case ByWriteError => |replies| < |got.0| && CutShort(service, history(|replies|), got.0[|replies|], part)
       case ByStop => true
  }

  method HandleAt(service: Service, m: Moment, body: bytes) returns (reply: Option<bytes>)
    ensures Replied(service, m, body, reply)
    ensures reply == None <==> HeaderOf(body) == Malformed
  {
    reply := HandleMessage(body, Ctx(m.fs, service.secret, FSID), service.config, m.first, m.second);
    TotalRouting(body, Ctx(m.fs, service.secret, FSID), service.config, m.first, m.second, reply);
  }

  /** Handle one message and send its reply, if it has one. */
  method AnswerOne(out: Output, service: Service, m: Moment, body: bytes)
    returns (close: Option<Close>, ghost reply: bytes, ghost part: bytes)
    modifies out
    ensures
      match close
      case None => Replied(service, m, body, Some(reply)) && out.sent == old(out.sent) + Frame(reply)
      case Some(c) =>
        && (c == ByRequest || c == ByWriteError)
        && (c == ByRequest ==> HeaderOf(body) == Malformed && part == [])
        && (c == ByWriteError ==> CutShort(service, m, body, part))
        && out.sent == old(out.sent) + part
  {
    reply, part := [], [];
    var answer := HandleAt(service, m, body);
    if answer.None? {
      assert out.sent + [] == out.sent;
      return Some(ByRequest), [], [];
    }
    ghost var before := out.sent;
    var ok := WriteMessage(out, answer.value);
    if ok {
      return None, answer.value, [];
    }
    ghost var k: nat :| k <= |Frame(answer.value)| && out.sent == before + Frame(answer.value)[..k];
    return Some(ByWriteError), [], Frame(answer.value)[..k];
  }

  /** The first `n` loads of the stop flag saw it clear. */
  ghost predicate Unstopped(stops: nat -> bool, n: nat) {
    forall m: nat | m < n :: !stops(m)
  }

  lemma UnstoppedNext(stops: nat -> bool, n: nat)
    requires Unstopped(stops, n) && !stops(n)
    ensures Unstopped(stops, n + 1)
  {
  }

  lemma InOrderNext(service: Service, history: nat -> Moment, bodies: seq<bytes>, replies: seq<bytes>, body: bytes, reply: bytes)
    requires InOrder(service, history, bodies, replies)
    requires |replies| < |bodies| && bodies[|replies|] == body
    requires Replied(service, history(|replies|), body, Some(reply))
    ensures InOrder(service, history, bodies, replies + [reply])
  {
  }

  /** What the rest of the stream holds is what has not been handled yet. */
  ghost predicate Remains(got: (seq<bytes>, End), i: nat, pending: seq<Sym>) {
    i <= |got.0| && Received(pending) == (got.0[i..], got.1)
  }

  lemma RemainsNext(got: (seq<bytes>, End), i: nat, pending: seq<Sym>, rest: seq<Sym>, r: Message)
    requires Remains(got, i, pending) && ReadOne(pending) == (r, rest)
    ensures r == CleanEof ==> i == |got.0| && got.1 == CleanEnd
    ensures r.Broken? && r.error != Timeout ==> i == |got.0| && got.1 == Died(r.error)
    ensures r == Broken(Timeout) ==> Remains(got, i, rest)
    ensures r.Body? ==> i < |got.0| && got.0[i] == r.body && Remains(got, i + 1, rest)
    ensures r.Body? || r == Broken(Timeout) ==> |rest| < |pending|
  {
    ReadShrinks(pending);
    if r.Body? {
      assert got.0[i..][1..] == got.0[i + 1..];
    }
  }

  lemma SentNext(before: bytes, replies: seq<bytes>, reply: bytes)
    ensures before + Frames(replies) + Frame(reply) == before + Frames(replies + [reply])
  {
    FramesSnoc(replies, reply);
    Assoc(before, Frames(replies), Frame(reply));
  }

  /**
   * Over any byte stream, cut into reads in any way: every request is answered
   * once, in order, through `HandleMessage`, and what is sent is exactly the
   * frames of those replies. `stops` is what each load of the stop flag sees;
   * a message is handled only after one more of them has seen it clear.
   */
  method ServeConnection(stream: Stream, out: Output, service: Service, history: nat -> Moment, stops: nat -> bool)
    returns (close: Close, ghost replies: seq<bytes>, ghost part: bytes)
    modifies stream, out
    ensures Closed(service, history, Received(old(stream.pending)), replies, part, close)
    ensures out.sent == old(out.sent) + Frames(replies) + part
    ensures close == ByStop ==> exists n: nat :: stops(n)
    ensures Unstopped(stops, |replies|)
  {
    ghost var got := Received(stream.pending);
    ghost var before := out.sent;
    replies, part := [], [];
    var n, i := 0, 0;
    assert got.0[0..] == got.0;
    assert before + Frames([]) + [] == before;
    while true
      invariant part == []
      invariant i <= n && Unstopped(stops, n)
      invariant i == |replies| && InOrder(service, history, got.0, replies)
      invariant Remains(got, i, stream.pending)
      invariant out.sent == before + Frames(replies)
      decreases |stream.pending|
    {
      assert out.sent + [] == out.sent;
      if stops(n) {
        return ByStop, replies, part;
      }
      UnstoppedNext(stops, n);
      n := n + 1;
      ghost var unread := stream.pending;
      var r := ReadMessage(stream);
      RemainsNext(got, i, unread, stream.pending, r);
      if r == CleanEof {
        return ByPeer, replies, part;
      }
      if r.Broken? && r.error != Timeout {
        return ByReadError(r.error), replies, part;
      }
      if r.Body? {
        var closed; ghost var reply;
        closed, reply, part := AnswerOne(out, service, history(i), r.body);
        if closed.Some? {
          return closed.value, replies, part;
        }
        InOrderNext(service, history, got.0, replies, r.body, reply);
        SentNext(before, replies, reply);
        replies, part := replies + [reply], [];
        i := i + 1;
      }
    }
  }

  /**
   * On a whole connection, the `k`th reply is a complete RPC reply that echoes
   * the `k`th request's xid; a connection that is not cut off answers every
   * request before the first malformed one.
   */
  lemma ConnectionReplies(service: Service, history: nat -> Moment, got: (seq<bytes>, End), replies: seq<bytes>,
                          part: bytes, close: Close, k: nat)
    requires Closed(service, history, got, replies, part, close)
    requires k < |got.0|
    ensures
      k < |replies| ==>
        && |got.0[k]| >= 12 && DecodeReply(replies[k]).Some? && DecodeReply(replies[k]).value.xid == De32(got.0[k])
        && HeaderOf(got.0[k]) != Malformed
    ensures
      k >= |replies| ==>
        || close == ByStop || close == ByWriteError
        || exists j | |replies| <= j <= k :: HeaderOf(got.0[j]) == Malformed
  {
    if k < |replies| {
      var m := history(k);
      assert Replied(service, m, got.0[k], Some(replies[k]));
      TotalRouting(got.0[k], Ctx(m.fs, service.secret, FSID), service.config, m.first, m.second, Some(replies[k]));
    }
  }
}
