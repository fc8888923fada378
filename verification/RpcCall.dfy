/** The call and reply envelopes of ONC RPC (RFC 5531 section 9). */
module RpcCall {
  import opened Wrappers
  import opened Xdr
  import opened XdrCursor
  import opened XdrWire

  const SUCCESS: u32 := 0
  const PROG_UNAVAIL: u32 := 1
  const PROG_MISMATCH: u32 := 2
  const PROC_UNAVAIL: u32 := 3
  const GARBAGE_ARGS: u32 := 4

  /** What routing a call to a program's procedure table produced. */
  datatype ProcOutcome = Success(body: bytes) | ProcUnavail | GarbageArgs

  // ---------------------------------------------------------------- calls

  datatype CallHeader = CallHeader(xid: u32, prog: u32, vers: u32, proc: u32)
  datatype HeaderOutcome = Call(header: CallHeader) | BadRpcvers(xid: u32) | Malformed

  const OPENING := [TU32, TU32, TU32]                                    // xid, message type, RPC version
  const HEADER := [TU32, TU32, TU32, TU32, TU32, TU32, TU32, TOpaque(400), TU32, TOpaque(400)]

  /** How a message body is understood as a call. */
  function HeaderOf(b: bytes): HeaderOutcome {
    match ParseAll(OPENING, b)
    case None => Malformed
    case Some((open, _)) =>
      AllTyped(OPENING, b);
      assert HasType(TU32, open[0]) && HasType(TU32, open[1]) && HasType(TU32, open[2]);
      if open[1].n != 0 then Malformed
      else if open[2].n != 2 then BadRpcvers(open[0].n)
      else
        match ParseAll(HEADER, b)
        case None => Malformed
        case Some((vs, _)) =>
          HeaderShape(b);
          Call(CallHeader(vs[0].n, vs[3].n, vs[4].n, vs[5].n))
  }

  lemma HeaderShape(b: bytes)
    requires ParseAll(HEADER, b).Some?
    ensures
      var vs := ParseAll(HEADER, b).value.0;
      vs[0].VU32? && vs[3].VU32? && vs[4].VU32? && vs[5].VU32?
  {
    AllTyped(HEADER, b);
    var vs := ParseAll(HEADER, b).value.0;
    assert HasType(HEADER[0], vs[0]) && HasType(HEADER[3], vs[3]) && HasType(HEADER[4], vs[4]) && HasType(HEADER[5], vs[5]);
  }

  /** Where the arguments of a call start. */
  function ArgsOf(b: bytes): bytes {
    match ParseAll(HEADER, b)
    case None => []
    case Some((_, rest)) => rest
  }

  method ReadCallHeader(r: Reader) returns (h: HeaderOutcome)
    requires r.Valid() && r.seen == []
    modifies r
    ensures h == HeaderOf(old(r.Input()))
    ensures h.Call? ==> r.Valid() && r.buf[r.pos..] == ArgsOf(old(r.Input()))
  {
    ghost var b := r.Input();
    h := ReadOpening(r);
    if h.Malformed? || h.BadRpcvers? {
      return;
    }
    h := ReadIdentity(r, h.header.xid);
    if ParseAll(HEADER, b).Some? {
      ParseAllConcat(OPENING, HEADER[3..], b);
      assert OPENING + HEADER[3..] == HEADER;
    }
  }

  /** Program, version and procedure, then both authenticators. */
  method ReadIdentity(r: Reader, xid: u32) returns (h: HeaderOutcome)
    requires r.Valid() && r.seen == OPENING && r.got == [VU32(xid), VU32(0), VU32(2)]
    modifies r
    ensures
      match ParseAll(HEADER, old(r.Input()))
      case None => h == Malformed
      case Some((vs, rest)) =>
        && h.Call? && h.header.xid == xid && r.Valid() && r.buf[r.pos..] == rest
        && vs[0] == VU32(xid) && vs[3] == VU32(h.header.prog) && vs[4] == VU32(h.header.vers)
        && vs[5] == VU32(h.header.proc)
  {
    ghost var b := r.Input();
    var prog := r.ReadU32();
    assert HEADER[..4] == OPENING + [TU32];
    if prog.None? {
      Stuck(HEADER, 4, b);
      return Malformed;
    }
    var vers := r.ReadU32();
    assert HEADER[..5] == OPENING + [TU32] + [TU32];
    if vers.None? {
      Stuck(HEADER, 5, b);
      return Malformed;
    }
    var proc := r.ReadU32();
    assert HEADER[..6] == OPENING + [TU32] + [TU32] + [TU32];
    if proc.None? {
      Stuck(HEADER, 6, b);
      return Malformed;
    }
    var ok := SkipAuths(r);
    if !ok {
      return Malformed;
    }
    return Call(CallHeader(xid, prog.value, vers.value, proc.value));
  }

  method SkipAuths(r: Reader) returns (ok: bool)
    requires r.Valid() && r.seen == HEADER[..6]
    modifies r
    ensures r.base == old(r.base) <= |r.buf|
    ensures !ok ==> ParseAll(HEADER, r.Input()) == None
    ensures ok ==> r.Valid() && r.seen == HEADER && old(r.got) <= r.got
  {
    ghost var b := r.Input();
    var cred := r.SkipOpaqueAuth();
    assert HEADER[..8] == HEADER[..6] + [TU32, TOpaque(400)];
    if !cred {
      Stuck(HEADER, 8, b);
      return false;
    }
    var verf := r.SkipOpaqueAuth();
    assert HEADER == HEADER[..8] + [TU32, TOpaque(400)];
    return verf;
  }

  /** The first three words; a provisional call when they announce one. */
  method ReadOpening(r: Reader) returns (h: HeaderOutcome)
    requires r.Valid() && r.seen == []
    modifies r
    ensures r.base == old(r.base) <= |r.buf|
    ensures !h.Call? ==> h == HeaderOf(r.Input())
    ensures h.Call? ==> r.Valid() && r.seen == OPENING && r.got == [VU32(h.header.xid), VU32(0), VU32(2)]
  {
    ghost var b := r.Input();
    var xid := r.ReadU32();
    assert OPENING[..1] == [] + [TU32];
    if xid.None? {
      Stuck(OPENING, 1, b);
      return Malformed;
    }
    var mtype := r.ReadU32();
    assert OPENING[..2] == [] + [TU32] + [TU32];
    if mtype.None? {
      Stuck(OPENING, 2, b);
      return Malformed;
    }
    if mtype.value != 0 {
      ParseAllConcat(OPENING[..2], OPENING[2..], b);
      assert OPENING[..2] + OPENING[2..] == OPENING;
      return Malformed;
    }
    var rpcvers := r.ReadU32();
    assert OPENING == [] + [TU32] + [TU32] + [TU32];
    if rpcvers.None? {
      return Malformed;
    }
    assert ParseAll(OPENING, b) == Some((r.got, r.buf[r.pos..]));
    if rpcvers.value != 2 {
      return BadRpcvers(xid.value);
    }
    return Call(CallHeader(xid.value, 0, 0, 0));
  }

  /** A call as a client writes it. */
  function HeaderVals(h: CallHeader, flavors: (u32, u32), auth: (bytes, bytes)): seq<Val> {
    [VU32(h.xid), VU32(0), VU32(2), VU32(h.prog), VU32(h.vers), VU32(h.proc),
     VU32(flavors.0), VOpaque(auth.0), VU32(flavors.1), VOpaque(auth.1)]
  }

  /** Words one after another. */
  lemma {:induction false} WordFields(vs: seq<Val>, ws: seq<u32>)
    requires |vs| == |ws| && forall i | 0 <= i < |vs| :: vs[i] == VU32(ws[i])
    ensures EncAll(vs) == EncWords(ws)
  {
    if vs != [] {
      WordFields(vs[1..], ws[1..]);
    }
  }

  /** The words of a call (RFC 5531 section 9): its identity, then both authenticators. */
  lemma CallForm(h: CallHeader, flavors: (u32, u32), auth: (bytes, bytes))
    ensures
      EncAll(HeaderVals(h, flavors, auth)) ==
      EncWords([h.xid, 0, 2, h.prog, h.vers, h.proc, flavors.0]) + Enc(VOpaque(auth.0))
      + EncWords([flavors.1]) + Enc(VOpaque(auth.1))
  {
    var vs := HeaderVals(h, flavors, auth);
    var head, cred, verf, last := vs[..7], [VOpaque(auth.0)], [VU32(flavors.1)], [VOpaque(auth.1)];
    assert vs == head + cred + verf + last;
    EncAllConcat(head + cred + verf, last);
    EncAllConcat(head + cred, verf);
    EncAllConcat(head, cred);
    WordFields(head, [h.xid, 0, 2, h.prog, h.vers, h.proc, flavors.0]);
    WordFields(verf, [flavors.1]);
    OneField(VOpaque(auth.0));
    OneField(VOpaque(auth.1));
  }

  lemma HeaderTyped(h: CallHeader, flavors: (u32, u32), auth: (bytes, bytes))
    requires |auth.0| <= 400 && |auth.1| <= 400
    ensures HaveTypes(HEADER, HeaderVals(h, flavors, auth))
  {
  }

  lemma OpeningOf(h: CallHeader, flavors: (u32, u32), auth: (bytes, bytes))
    ensures
      var vs := HeaderVals(h, flavors, auth);
      vs[..3] == [VU32(h.xid), VU32(0), VU32(2)] && EncAll(vs) == EncAll(vs[..3]) + EncAll(vs[3..])
  {
    var vs := HeaderVals(h, flavors, auth);
    EncAllConcat(vs[..3], vs[3..]);
    assert vs[..3] + vs[3..] == vs;
  }

  lemma OpeningRead(h: CallHeader, flavors: (u32, u32), auth: (bytes, bytes), args: bytes)
    ensures
      var vs := HeaderVals(h, flavors, auth);
      ParseAll(OPENING, EncAll(vs) + args) == Some(([VU32(h.xid), VU32(0), VU32(2)], EncAll(vs[3..]) + args))
  {
    var vs := HeaderVals(h, flavors, auth);
    OpeningOf(h, flavors, auth);
    var opening := [VU32(h.xid), VU32(0), VU32(2)];
    assert HaveTypes(OPENING, opening);
    AllRoundTrip(OPENING, opening, EncAll(vs[3..]) + args);
    Assoc(EncAll(opening), EncAll(vs[3..]), args);
  }

  /** Parsing an encoded header gives its fields back, with the cursor exactly at the arguments. */
  lemma HeaderRoundTrip(h: CallHeader, flavors: (u32, u32), auth: (bytes, bytes), args: bytes)
    requires |auth.0| <= 400 && |auth.1| <= 400
    ensures
      var b := EncAll(HeaderVals(h, flavors, auth)) + args;
      HeaderOf(b) == Call(h) && ArgsOf(b) == args
  {
    var vs := HeaderVals(h, flavors, auth);
    HeaderTyped(h, flavors, auth);
    AllRoundTrip(HEADER, vs, args);
    OpeningRead(h, flavors, auth, args);
  }

  /** Every strict prefix of an encoded header is malformed. */
  lemma HeaderPrefixMalformed(h: CallHeader, flavors: (u32, u32), auth: (bytes, bytes), k: nat)
    requires |auth.0| <= 400 && |auth.1| <= 400
    requires k < |EncAll(HeaderVals(h, flavors, auth))|
    ensures HeaderOf(EncAll(HeaderVals(h, flavors, auth))[..k]) == Malformed
  {
    var vs := HeaderVals(h, flavors, auth);
    var full := EncAll(vs);
    HeaderTyped(h, flavors, auth);
    PrefixRejected(HEADER, vs, k);
    if ParseAll(OPENING, full[..k]).Some? {
      AllExtend(OPENING, full[..k], full[k..]);
      assert full[..k] + full[k..] == full;
      OpeningOf(h, flavors, auth);
      var opening := [VU32(h.xid), VU32(0), VU32(2)];
      assert HaveTypes(OPENING, opening);
      AllRoundTrip(OPENING, opening, EncAll(vs[3..]));
      assert full == EncAll(opening) + EncAll(vs[3..]);
    }
  }

  /** An authenticator of more than 400 bytes makes the call malformed. */
  lemma LongAuthMalformed(h: CallHeader, flavors: (u32, u32), auth: (bytes, bytes), args: bytes)
    requires |auth.0| <= 0xFFFF_FFFF && |auth.1| <= 0xFFFF_FFFF
    requires |auth.0| > 400 || |auth.1| > 400
    ensures HeaderOf(EncAll(HeaderVals(h, flavors, auth)) + args) == Malformed
  {
    var vs := HeaderVals(h, flavors, auth);
    OpeningRead(h, flavors, auth, args);
    if |auth.0| > 400 {
      assert HaveTypes(HEADER[..7], vs[..7]);
      FieldOverLimit(HEADER, vs, 7, 400, args);
    } else {
      assert HaveTypes(HEADER[..9], vs[..9]);
      FieldOverLimit(HEADER, vs, 9, 400, args);
    }
  }

  // ---------------------------------------------------------------- replies

  datatype Accepted = Results(bytes: bytes) | NoProgram | VersionMismatch(low: u32, high: u32) | NoProcedure | Garbage
  datatype Verdict = Accept(stat: Accepted) | RpcMismatch(low: u32, high: u32)
  datatype Reply = Reply(xid: u32, verdict: Verdict)

  const REPLY_OPENING := [TU32, TU32, TU32]           // xid, message type, reply status
  const ACCEPT_HEAD := [TU32, TOpaque(400), TU32]     // verifier, accept status

  /** A reply as a client decodes it; nothing may follow a body of known length. */
  function DecodeReply(b: bytes): Option<Reply> {
    match ParseAll(REPLY_OPENING, b)
    case None => None
    case Some((open, rest)) =>
      AllTyped(REPLY_OPENING, b);
      assert HasType(TU32, open[0]) && HasType(TU32, open[1]) && HasType(TU32, open[2]);
      if open[1].n != 1 then None
      else
        var verdict := if open[2].n == 0 then DecodeAccepted(rest) else if open[2].n == 1 then DecodeDenied(rest) else None;
        if verdict.None? then None else Some(Reply(open[0].n, verdict.value))
  }

  function DecodePair(b: bytes): Option<(u32, u32)> {
    match ParseAll([TU32, TU32], b)
    case None => None
    case Some((vs, rest)) =>
      AllTyped([TU32, TU32], b);
      assert HasType(TU32, vs[0]) && HasType(TU32, vs[1]);
      if rest != [] then None else Some((vs[0].n, vs[1].n))
  }

  function DecodeAccepted(b: bytes): Option<Verdict> {
    match ParseAll(ACCEPT_HEAD, b)
    case None => None
    case Some((vs, rest)) =>
      AllTyped(ACCEPT_HEAD, b);
      assert HasType(TU32, vs[2]);
      var stat := vs[2].n;
      if stat == 0 then Some(Accept(Results(rest)))
      else if stat == 2 then
        var range := DecodePair(rest);
        if range.None? then None else Some(Accept(VersionMismatch(range.value.0, range.value.1)))
      else if rest != [] then None
      else if stat == 1 then Some(Accept(NoProgram))
      else if stat == 3 then Some(Accept(NoProcedure))
      else if stat == 4 then Some(Accept(Garbage))
      else None
  }

  function DecodeDenied(b: bytes): Option<Verdict> {
    match Parse(TU32, b)
    case None => None
    case Some((v, rest)) =>
      var range := DecodePair(rest);
      if v.n != 0 || range.None? then None else Some(RpcMismatch(range.value.0, range.value.1))
  }

  lemma DecodePairOf(a: u32, c: u32)
    ensures DecodePair(EncAll([VU32(a), VU32(c)])) == Some((a, c))
  {
    AllRoundTrip([TU32, TU32], [VU32(a), VU32(c)], []);
    assert EncAll([VU32(a), VU32(c)]) + [] == EncAll([VU32(a), VU32(c)]);
  }

  lemma DecodeOpening(xid: u32, stat: u32, rest: bytes)
    requires stat <= 1
    ensures
      var b := EncAll([VU32(xid), VU32(1), VU32(stat)]) + rest;
      var verdict := if stat == 0 then DecodeAccepted(rest) else DecodeDenied(rest);
      DecodeReply(b) == if verdict.None? then None else Some(Reply(xid, verdict.value))
  {
    var vs := [VU32(xid), VU32(1), VU32(stat)];
    assert HaveTypes(REPLY_OPENING, vs);
    AllRoundTrip(REPLY_OPENING, vs, rest);
  }

  method RpcMismatchReply(xid: u32) returns (reply: bytes)
    ensures DecodeReply(reply) == Some(Reply(xid, RpcMismatch(2, 2)))
    ensures reply == EncWords([xid, 1, 1, 0, 2, 2])
  {
    var w := new Writer();
    w.WriteU32(xid);
    w.WriteU32(1); // REPLY
    w.WriteU32(1); // MSG_DENIED
    ghost var open := w.fields;
    w.WriteU32(0); // RPC_MISMATCH
    w.WriteU32(2); // low
    w.WriteU32(2); // high
    reply := w.buf;
    WordFields(w.fields, [xid, 1, 1, 0, 2, 2]);
    ghost var body := [VU32(0), VU32(2), VU32(2)];
    assert w.fields == open + body;
    EncAllConcat(open, body);
    DecodeOpening(xid, 1, EncAll(body));
    assert body[1..] == [VU32(2), VU32(2)];
    De32Be32(0, EncAll(body[1..]));
    DecodePairOf(2, 2);
  }

  /** The accepted-reply header: an AUTH_NONE verifier, then the status. */
  function AcceptVals(xid: u32, stat: u32): seq<Val> {
    [VU32(xid), VU32(1), VU32(0)] + [VU32(0), VOpaque([]), VU32(stat)]
  }

  lemma AcceptWords(xid: u32, stat: u32)
    ensures EncAll(AcceptVals(xid, stat)) == EncWords([xid, 1, 0, 0, 0, stat])
  {
    var open, last := [VU32(xid), VU32(1), VU32(0), VU32(0)], [VU32(stat)];
    var empty := [VOpaque([])];
    assert AcceptVals(xid, stat) == open + empty + last;
    EncAllConcat(open + empty, last);
    EncAllConcat(open, empty);
    EmptyOpaque();
    OneField(VOpaque([]));
    var words := open + [VU32(0)] + last;
    EncAllConcat(open + [VU32(0)], last);
    EncAllConcat(open, [VU32(0)]);
    WordFields(words, [xid, 1, 0, 0, 0, stat]);
  }

  method WriteReplyHeader(w: Writer, xid: u32, stat: u32)
    requires w.Valid() && w.fields == []
    modifies w
    ensures w.Valid() && w.fields == AcceptVals(xid, stat)
  {
    w.WriteU32(xid);
    w.WriteU32(1); // REPLY
    w.WriteU32(0); // MSG_ACCEPTED
    w.WriteU32(0); // verifier flavor: AUTH_NONE
    ghost var before := w.fields;
    w.WriteU32(0); // verifier length
    EmptyOpaque();
    w.Group(before, [VU32(0)], VOpaque([]));
    w.WriteU32(stat);
  }

  lemma EmptyOpaque()
    ensures EncAll([VU32(0)]) == Enc(VOpaque([]))
  {
    assert EncAll([VU32(0)]) == Be32(0) + [];
    assert Padded([]) == [];
  }

  lemma DecodeAcceptedReply(xid: u32, stat: u32, rest: bytes)
    ensures
      var verdict := DecodeAccepted(EncAll([VU32(0), VOpaque([]), VU32(stat)]) + rest);
      DecodeReply(EncAll(AcceptVals(xid, stat)) + rest)
      == if verdict.None? then None else Some(Reply(xid, verdict.value))
    ensures
      ParseAll(ACCEPT_HEAD, EncAll([VU32(0), VOpaque([]), VU32(stat)]) + rest)
      == Some(([VU32(0), VOpaque([]), VU32(stat)], rest))
  {
    var open, head := [VU32(xid), VU32(1), VU32(0)], [VU32(0), VOpaque([]), VU32(stat)];
    EncAllConcat(open, head);
    Assoc(EncAll(open), EncAll(head), rest);
    DecodeOpening(xid, 0, EncAll(head) + rest);
    assert HaveTypes(ACCEPT_HEAD, head);
    AllRoundTrip(ACCEPT_HEAD, head, rest);
  }

  function OutcomeOf(out: ProcOutcome): Accepted {
    match out
    case Success(body) => Results(body)
    case ProcUnavail => NoProcedure
    case GarbageArgs => Garbage
  }

  /** The reply to a dispatched call carries its outcome. */
  method BuildReply(xid: u32, out: ProcOutcome) returns (reply: bytes)
    ensures DecodeReply(reply) == Some(Reply(xid, Accept(OutcomeOf(out))))
    ensures
      match out
      case Success(body) => reply == EncWords([xid, 1, 0, 0, 0, 0]) + body
      case ProcUnavail => reply == EncWords([xid, 1, 0, 0, 0, 3])
      case GarbageArgs => reply == EncWords([xid, 1, 0, 0, 0, 4])
  {
    var w := new Writer();
    match out
    case Success(body) =>
      WriteReplyHeader(w, xid, SUCCESS);
      ghost var head := w.fields;
      w.ExtendFrom(body);
      PushField(head, VRaw(body));
      DecodeAcceptedReply(xid, SUCCESS, body);
      AcceptWords(xid, SUCCESS);
      return w.buf;
    case ProcUnavail =>
      reply := BareReply(xid, PROC_UNAVAIL);
    case GarbageArgs =>
      reply := BareReply(xid, GARBAGE_ARGS);
  }

  /** An accepted reply with no body after the status. */
  method BareReply(xid: u32, stat: u32) returns (reply: bytes)
    requires stat == PROC_UNAVAIL || stat == GARBAGE_ARGS || stat == PROG_UNAVAIL
    ensures DecodeReply(reply) ==
            Some(Reply(xid, Accept(if stat == PROC_UNAVAIL then NoProcedure else if stat == GARBAGE_ARGS then Garbage else NoProgram)))
    ensures reply == EncWords([xid, 1, 0, 0, 0, stat])
  {
    var w := new Writer();
    WriteReplyHeader(w, xid, stat);
    DecodeAcceptedReply(xid, stat, []);
    AcceptWords(xid, stat);
    assert w.buf + [] == w.buf;
    return w.buf;
  }

  method ProgUnavailReply(xid: u32) returns (reply: bytes)
    ensures DecodeReply(reply) == Some(Reply(xid, Accept(NoProgram)))
    ensures reply == EncWords([xid, 1, 0, 0, 0, 1])
  {
    reply := BareReply(xid, PROG_UNAVAIL);
  }

  method ProgMismatchReply(xid: u32) returns (reply: bytes)
    ensures DecodeReply(reply) == Some(Reply(xid, Accept(VersionMismatch(3, 3))))
    ensures reply == EncWords([xid, 1, 0, 0, 0, 2]) + EncWords([3, 3])
  {
    var w := new Writer();
    WriteReplyHeader(w, xid, PROG_MISMATCH);
    ghost var head := w.fields;
    w.WriteU32(3);
    w.WriteU32(3);
    assert w.fields == head + [VU32(3), VU32(3)];
    EncAllConcat(head, [VU32(3), VU32(3)]);
    DecodeAcceptedReply(xid, PROG_MISMATCH, EncAll([VU32(3), VU32(3)]));
    DecodePairOf(3, 3);
    AcceptWords(xid, PROG_MISMATCH);
    WordFields([VU32(3), VU32(3)], [3, 3]);
    return w.buf;
  }
}
