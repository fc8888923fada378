/** Per-message routing by program and version, and the one-way window in which MOUNT is answered. */
module Server {
  import opened Wrappers
  import opened Xdr
  import opened XdrCursor
  import opened FileHandle
  import opened RpcCall
  import opened NfsAnswers
  import NfsProto
  import MountProto

  const MOUNT_PROG: u32 := 100005
  const NFS_PROG: u32 := 100003

  /** `mountProgram` is whether the MOUNT program is compiled in at all. */
  datatype Config = Config(mountProgram: bool, exportId: Secret)

  datatype Route = ToMount | ToNfs | WrongVersion | NoSuchProgram

  /**
   * The arm a call takes. The MOUNT arms load the serving flag once each, the
   * second only if the first did not match: `first` and `second` are what they saw.
   */
  function RouteOf(h: CallHeader, config: Config, first: bool, second: bool): Route {
    if config.mountProgram && h.prog == MOUNT_PROG && h.vers == 3 && first then ToMount
    else if config.mountProgram && h.prog == MOUNT_PROG && second then WrongVersion
    else if h.prog == MOUNT_PROG then NoSuchProgram
    else if h.prog == NFS_PROG && h.vers == 3 then ToNfs
    else if h.prog == NFS_PROG then WrongVersion
    else NoSuchProgram
  }

  /** What a client may find in the reply to a call that took `route`. */
  ghost predicate Carries(route: Route, h: CallHeader, args: bytes, ctx: Ctx, config: Config, stat: Accepted)
  {
    match route
    case NoSuchProgram => stat == NoProgram
    case WrongVersion => stat == VersionMismatch(3, 3)
    case ToMount => exists out :: MountProto.MountDispatched(h.proc, args, config.exportId, ctx.secret, out) && stat == OutcomeOf(out)
    case ToNfs => exists out :: NfsProto.Dispatched(h.proc, args, ctx, out) && stat == OutcomeOf(out)
  }

  ghost predicate Handled(body: bytes, ctx: Ctx, config: Config, first: bool, second: bool, reply: Option<bytes>)
  {
    match HeaderOf(body)
    case Malformed => reply == None
    case BadRpcvers(xid) => reply.Some? && DecodeReply(reply.value) == Some(Reply(xid, RpcMismatch(2, 2)))
    case Call(h) =>
      && reply.Some?
      && exists stat :: DecodeReply(reply.value) == Some(Reply(h.xid, Accept(stat)))
                        && Carries(RouteOf(h, config, first, second), h, ArgsOf(body), ctx, config, stat)
  }

  method HandleMessage(body: bytes, ctx: Ctx, config: Config, first: bool, second: bool)
    returns (reply: Option<bytes>)
    ensures Handled(body, ctx, config, first, second, reply)
  {
    var r := new Reader(body);
    assert r.Input() == body;
    var h := ReadCallHeader(r);
    match h
    case Malformed => return None;
    case BadRpcvers(xid) =>
      var bytes := RpcMismatchReply(xid);
      return Some(bytes);
    case Call(call) =>
      var bytes := RouteCall(call, r, ctx, config, first, second);
      return Some(bytes);
  }

  method RouteCall(call: CallHeader, r: Reader, ctx: Ctx, config: Config, first: bool, second: bool)
    returns (reply: bytes)
    requires r.Valid()
    modifies r
    ensures exists stat :: DecodeReply(reply) == Some(Reply(call.xid, Accept(stat)))
                           && Carries(RouteOf(call, config, first, second), call, old(r.buf[r.pos..]), ctx, config, stat)
  {
    if config.mountProgram && call.prog == MOUNT_PROG && call.vers == 3 && first {
      var out := MountProto.Dispatch(call.proc, r, config.exportId, ctx.secret);
      reply := BuildReply(call.xid, out);
      assert Carries(ToMount, call, old(r.buf[r.pos..]), ctx, config, OutcomeOf(out));
    } else if config.mountProgram && call.prog == MOUNT_PROG && second {
      reply := ProgMismatchReply(call.xid);
      assert Carries(WrongVersion, call, old(r.buf[r.pos..]), ctx, config, VersionMismatch(3, 3));
    } else if call.prog == NFS_PROG && call.vers == 3 {
      var out, calls := NfsProto.Dispatch(call.proc, r, ctx);
      reply := BuildReply(call.xid, out);
      assert Carries(ToNfs, call, old(r.buf[r.pos..]), ctx, config, OutcomeOf(out));
    } else if call.prog == NFS_PROG {
      reply := ProgMismatchReply(call.xid);
      assert Carries(WrongVersion, call, old(r.buf[r.pos..]), ctx, config, VersionMismatch(3, 3));
    } else {
      reply := ProgUnavailReply(call.xid);
      assert Carries(NoSuchProgram, call, old(r.buf[r.pos..]), ctx, config, NoProgram);
    }
  }

  /** No reply exactly for a malformed header; otherwise a complete reply that echoes the request's xid. */
  lemma TotalRouting(body: bytes, ctx: Ctx, config: Config, first: bool, second: bool, reply: Option<bytes>)
    requires Handled(body, ctx, config, first, second, reply)
    ensures reply == None <==> HeaderOf(body) == Malformed
    ensures reply.Some? ==> |body| >= 12 && DecodeReply(reply.value).Some? && DecodeReply(reply.value).value.xid == De32(body)
  {
    if reply.Some? {
      XidFirst(body);
    }
  }

  /**
   * A call as a client writes it reaches its procedure with exactly its own
   * arguments, and the reply carries that procedure's outcome back to it.
   */
  lemma CallReaches(h: CallHeader, flavors: (u32, u32), auth: (bytes, bytes), args: bytes,
                    ctx: Ctx, config: Config, first: bool, second: bool, reply: Option<bytes>)
    requires |auth.0| <= 400 && |auth.1| <= 400
    requires Handled(EncAll(HeaderVals(h, flavors, auth)) + args, ctx, config, first, second, reply)
    ensures reply.Some? && DecodeReply(reply.value).Some? && DecodeReply(reply.value).value.xid == h.xid
    ensures h.prog == 100003 && h.vers == 3 ==>
              exists out :: NfsProto.Dispatched(h.proc, args, ctx, out)
                            && DecodeReply(reply.value) == Some(Reply(h.xid, Accept(OutcomeOf(out))))
    ensures h.prog == 100005 && h.vers == 3 && config.mountProgram && first ==>
              exists out :: MountProto.MountDispatched(h.proc, args, config.exportId, ctx.secret, out)
                            && DecodeReply(reply.value) == Some(Reply(h.xid, Accept(OutcomeOf(out))))
  {
    HeaderRoundTrip(h, flavors, auth, args);
    var stat :| DecodeReply(reply.value) == Some(Reply(h.xid, Accept(stat)))
                && Carries(RouteOf(h, config, first, second), h, args, ctx, config, stat);
  }

  /**
   * A call that reaches no procedure is told why: the NFS program in another
   * version, a program that is not here, or MOUNT, by what its flag loads saw.
   */
  lemma CallRefused(h: CallHeader, flavors: (u32, u32), auth: (bytes, bytes), args: bytes,
                    ctx: Ctx, config: Config, first: bool, second: bool, reply: Option<bytes>)
    requires |auth.0| <= 400 && |auth.1| <= 400
    requires Handled(EncAll(HeaderVals(h, flavors, auth)) + args, ctx, config, first, second, reply)
    requires !(h.prog == 100003 && h.vers == 3) && !(h.prog == 100005 && h.vers == 3 && config.mountProgram && first)
    ensures
      reply.Some? && DecodeReply(reply.value) ==
      Some(Reply(h.xid, Accept(
        if h.prog == 100003 || (h.prog == 100005 && config.mountProgram && second) then VersionMismatch(3, 3) else NoProgram)))
  {
    HeaderRoundTrip(h, flavors, auth, args);
  }

  /** What starts as a call of another RPC version is denied, and what is not a call is not answered. */
  lemma OtherMessages(xid: u32, mtype: u32, vers: u32, rest: bytes,
                      ctx: Ctx, config: Config, first: bool, second: bool, reply: Option<bytes>)
    requires Handled(EncWords([xid, mtype, vers]) + rest, ctx, config, first, second, reply)
    ensures mtype == 0 && vers != 2 ==> reply.Some? && DecodeReply(reply.value) == Some(Reply(xid, RpcMismatch(2, 2)))
    ensures mtype != 0 ==> reply == None
  {
    var open := [VU32(xid), VU32(mtype), VU32(vers)];
    WordFields(open, [xid, mtype, vers]);
    assert HaveTypes(OPENING, open);
    AllRoundTrip(OPENING, open, rest);
  }

  lemma FirstWord(ts: seq<Ty>, b: bytes)
    requires ts != [] && ts[0] == TU32 && ParseAll(ts, b).Some?
    ensures |b| >= 4 && ParseAll(ts, b).value.0[0] == VU32(De32(b)) && ParseAll(ts[1..], b[4..]).Some?
  {
  }

  lemma XidFirst(body: bytes)
    requires HeaderOf(body) != Malformed
    ensures |body| >= 12
    ensures HeaderOf(body).BadRpcvers? ==> HeaderOf(body).xid == De32(body)
    ensures HeaderOf(body).Call? ==> HeaderOf(body).header.xid == De32(body)
  {
    FirstWord(OPENING, body);
    FirstWord(OPENING[1..], body[4..]);
    FirstWord(OPENING[1..][1..], body[4..][4..]);
    if HeaderOf(body).Call? {
      FirstWord(HEADER, body);
    }
  }

  // ---------------------------------------------------------------- the MOUNT window

  /** A MOUNT call in flight: when it started, and what its flag loads saw. */
  datatype InFlight = InFlight(vers: u32, afterStore: bool, first: Option<bool>, second: Option<bool>)

  /** The serving flag, whether it has been cleared, and every call so far. */
  datatype Window = Window(flag: bool, stored: bool, calls: seq<InFlight>)

  datatype WindowStep = Clear | Start(vers: u32) | LoadFirst(i: nat) | LoadSecond(i: nat)

  predicate StepAllowed(w: Window, step: WindowStep) {
    match step
    case Clear => true
    case Start(_) => true
    case LoadFirst(i) => i < |w.calls| && w.calls[i].vers == 3 && w.calls[i].first == None
    case LoadSecond(i) =>
      i < |w.calls| && w.calls[i].second == None && (w.calls[i].vers != 3 || w.calls[i].first == Some(false))
  }

  function TakeStep(w: Window, step: WindowStep): Window
    requires StepAllowed(w, step)
  {
    match step
    case Clear => w.(flag := false, stored := true)
    case Start(vers) => w.(calls := w.calls + [InFlight(vers, w.stored, None, None)])
    case LoadFirst(i) => w.(calls := w.calls[i := w.calls[i].(first := Some(w.flag))])
    case LoadSecond(i) => w.(calls := w.calls[i := w.calls[i].(second := Some(w.flag))])
  }

  /** How the call is answered, once its loads have decided. */
  function Decision(c: InFlight): Option<Route> {
    if c.vers == 3 && c.first == Some(true) then Some(ToMount)
    else if c.second.None? then None
    else Some(if c.second.value then WrongVersion else NoSuchProgram)
  }

  /** The decision is the route `HandleMessage` takes for those two loads. */
  lemma DecisionIsRoute(c: InFlight, h: CallHeader, config: Config)
    requires h.prog == MOUNT_PROG && h.vers == c.vers && config.mountProgram
    requires Decision(c).Some?
    requires c.vers == 3 ==> c.first.Some?
    ensures RouteOf(h, config, c.first == Some(true), c.second == Some(true)) == Decision(c).value
  {
  }

  predicate CallOk(c: InFlight, w: Window, initially: bool) {
    && (c.first == Some(false) ==> !w.flag)
    && (c.vers == 3 ==> c.second != Some(true))
    && (c.afterStore ==> w.stored && c.first != Some(true) && c.second != Some(true))
    && (!initially ==> c.first != Some(true) && c.second != Some(true))
    && (c.second.Some? && c.vers == 3 ==> c.first == Some(false))
  }

  predicate WindowInv(w: Window, initially: bool) {
    && (w.stored ==> !w.flag)
    && (!initially ==> !w.flag)
    && forall i | 0 <= i < |w.calls| :: CallOk(w.calls[i], w, initially)
  }

  /** A run of the window from its start, with the flag initially as given. */
  ghost predicate WindowRun(run: seq<Window>, steps: seq<WindowStep>, initially: bool) {
    && |run| == |steps| + 1
    && run[0] == Window(initially, false, [])
    && forall i | 0 <= i < |steps| :: StepAllowed(run[i], steps[i]) && run[i + 1] == TakeStep(run[i], steps[i])
  }

  lemma {:induction false} WindowInvHolds(run: seq<Window>, steps: seq<WindowStep>, initially: bool, n: nat)
    requires WindowRun(run, steps, initially) && n < |run|
    ensures WindowInv(run[n], initially)
  {
    if n > 0 {
      WindowInvHolds(run, steps, initially, n - 1);
      assert StepAllowed(run[n - 1], steps[n - 1]) && run[n] == TakeStep(run[n - 1], steps[n - 1]);
    }
  }

  /**
   * In every interleaving of the clearing store with the two loads: a version 3
   * MOUNT call is served or told the program is unavailable, never that another
   * version might work; a call that starts after the store is told the program
   * is unavailable; and a server that starts with the flag clear serves none.
   */
  lemma OneWayWindow(run: seq<Window>, steps: seq<WindowStep>, initially: bool, n: nat, i: nat)
    requires WindowRun(run, steps, initially) && n < |run| && i < |run[n].calls|
    ensures
      var c := run[n].calls[i];
      && (c.vers == 3 ==> Decision(c) != Some(WrongVersion))
      && (c.afterStore ==> Decision(c) == None || Decision(c) == Some(NoSuchProgram))
      && (!initially ==> Decision(c) == None || Decision(c) == Some(NoSuchProgram))
  {
    WindowInvHolds(run, steps, initially, n);
    assert CallOk(run[n].calls[i], run[n], initially);
  }

  /** Without one-way clearing it fails: a flag that may be set again lets a version 3 call see a mismatch. */
  lemma TwoWayFlagMismatches(h: CallHeader, config: Config)
    requires h.prog == MOUNT_PROG && h.vers == 3 && config.mountProgram
    ensures RouteOf(h, config, false, true) == WrongVersion
  {
  }
}
