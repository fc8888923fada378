/**
 * Every answer is a well-formed value of its procedure's RFC 1813 result type,
 * so a client that parses the body gets the answer back and nothing is left.
 */
module ReplyGrammar {
  import opened Wrappers
  import opened Xdr
  import opened ReadOnlyFs
  import opened FileHandle
  import opened Listing
  import opened NfsTypes
  import opened NfsAnswers
  import opened Packing
  import Bits

  lemma RefusalTyped(proc: u32)
    requires Refused(proc)
    ensures HasType(ResTy(proc), Refusal(proc))
  {
    NoWccTyped();
  }

  lemma GetattrTyped(ctx: Ctx, fh: bytes)
    ensures HasType(GETATTR_RES, GetattrAnswer(ctx, fh))
  {
    match Resolve(ctx.secret, fh)
    case None =>
    case Some(ino) =>
      match ctx.fs.getattr(ino)
      case Ok(a) => FattrTyped(a, ctx.fsid);
      case Err(_) =>
  }

  lemma FailTyped(ok: seq<Ty>, code: u32, attr: Option<FileAttr>, fsid: u64)
    requires code != 0
    ensures HasType(Res(ok, [POST_OP_ATTR]), Fail(code, PostOpVal(attr, fsid)))
  {
    PostOpTyped(attr, fsid);
  }

  lemma LookupTyped(ctx: Ctx, fh: bytes, name: bytes)
    ensures HasType(LOOKUP_RES, LookupAnswer(ctx, fh, name))
  {
    var ok := [FHANDLE3, POST_OP_ATTR, POST_OP_ATTR];
    match Resolve(ctx.secret, fh)
    case None => FailTyped(ok, NFS3ERR_NOENT, None, ctx.fsid);
    case Some(dir) =>
      match ctx.fs.lookup(dir, name)
      case Ok(a) =>
        PostOpTyped(Some(a), ctx.fsid);
        PostOpTyped(AttrOf(ctx, dir), ctx.fsid);
      case Err(e) => FailTyped(ok, ToNfsStat3(e), AttrOf(ctx, dir), ctx.fsid);
  }

  lemma AccessTyped(ctx: Ctx, fh: bytes, requested: u32)
    ensures HasType(ACCESS_RES, AccessAnswer(ctx, fh, requested))
  {
    var ok := [POST_OP_ATTR, TU32];
    match Resolve(ctx.secret, fh)
    case None => FailTyped(ok, NFS3ERR_NOENT, None, ctx.fsid);
    case Some(ino) =>
      match ctx.fs.getattr(ino)
      case Ok(a) => PostOpTyped(Some(a), ctx.fsid);
      case Err(e) => FailTyped(ok, ToNfsStat3(e), None, ctx.fsid);
  }

  lemma ReadTyped(ctx: Ctx, fh: bytes, offset: u64, count: u32)
    ensures HasType(READ_RES, ReadAnswer(ctx, fh, offset, count))
  {
    var ok := [POST_OP_ATTR, TU32, TBool, TOpaque(U32_MAX)];
    match Resolve(ctx.secret, fh)
    case None => FailTyped(ok, NFS3ERR_NOENT, None, ctx.fsid);
    case Some(ino) =>
      var attr := AttrOf(ctx, ino);
      match ctx.fs.open(ino)
      case Err(e) => FailTyped(ok, ToNfsStat3(e), attr, ctx.fsid);
      case Ok(h) =>
        match ctx.fs.readAt(h, offset, Min(count, RTMAX))
        case Err(e) => FailTyped(ok, ToNfsStat3(e), attr, ctx.fsid);
        case Ok(_) => PostOpTyped(attr, ctx.fsid);
  }

  lemma ObjectOkTyped(tys: seq<Ty>, attr: Option<FileAttr>, fsid: u64, fields: seq<Val>)
    requires HaveTypes(tys, fields)
    ensures HasType(Res([POST_OP_ATTR] + tys, [POST_OP_ATTR]), StatusVal(0, [PostOpVal(attr, fsid)] + fields))
  {
    PostOpTyped(attr, fsid);
    TypedConcat([POST_OP_ATTR], tys, [PostOpVal(attr, fsid)], fields);
  }

  lemma FsstatTyped(ctx: Ctx, fh: bytes)
    ensures HasType(FSSTAT_RES, FsstatAnswer(ctx, fh))
  {
    match Resolve(ctx.secret, fh)
    case None => FailTyped([POST_OP_ATTR] + STAT_TYS, NFS3ERR_NOENT, None, ctx.fsid);
    case Some(ino) =>
      match ctx.fs.statfs
      case Ok(s) =>
        StatTyped(s);
        ObjectOkTyped(STAT_TYS, AttrOf(ctx, ino), ctx.fsid, StatFields(s));
      case Err(e) => FailTyped([POST_OP_ATTR] + STAT_TYS, ToNfsStat3(e), AttrOf(ctx, ino), ctx.fsid);
  }

  lemma FsinfoTyped(ctx: Ctx, fh: bytes)
    ensures HasType(FSINFO_RES, FsinfoAnswer(ctx, fh))
  {
    match Resolve(ctx.secret, fh)
    case None => FailTyped([POST_OP_ATTR] + (SIZE_TYS + INFO_TYS), NFS3ERR_NOENT, None, ctx.fsid);
    case Some(ino) =>
      InfoTyped();
      ObjectOkTyped(SIZE_TYS + INFO_TYS, AttrOf(ctx, ino), ctx.fsid, INFO_SIZES + INFO_REST);
  }

  lemma PathconfTyped(ctx: Ctx, fh: bytes)
    ensures HasType(PATHCONF_RES, PathconfAnswer(ctx, fh))
  {
    match Resolve(ctx.secret, fh)
    case None => FailTyped([POST_OP_ATTR] + LIMIT_TYS, NFS3ERR_NOENT, None, ctx.fsid);
    case Some(ino) =>
      LimitsTyped();
      ObjectOkTyped(LIMIT_TYS, AttrOf(ctx, ino), ctx.fsid, PATH_LIMITS);
  }

  lemma LimitsTyped()
    ensures HaveTypes(LIMIT_TYS, PATH_LIMITS)
  {
  }

  lemma StatTyped(s: StatFs)
    ensures HaveTypes(STAT_TYS, StatFields(s))
  {
  }

  lemma InfoTyped()
    ensures HaveTypes(SIZE_TYS + INFO_TYS, INFO_SIZES + INFO_REST)
  {
    assert HaveTypes(SIZE_TYS, INFO_SIZES);
    assert HasType(NFSTIME3, INFO_REST[2]);
    assert HaveTypes(INFO_TYS, INFO_REST);
    TypedConcat(SIZE_TYS, INFO_TYS, INFO_SIZES, INFO_REST);
  }

  // ---------------------------------------------------------------- listings

  lemma DirentTyped(ctx: Ctx, e: Entry, plus: bool)
    requires |e.name| <= U32_MAX
    ensures HasType(EntryTy(plus), DirentVal(ctx, e, plus))
  {
    if plus {
      var attr := AttrOf(ctx, e.ino);
      PostOpTyped(attr, ctx.fsid);
      var fields := DirentVal(ctx, e, plus).fields;
      assert HasType(TOpt(FHANDLE3), fields[4]);
    }
  }

  lemma {:induction false} PackedFits(vs: seq<Val>, budget: nat, i: nat)
    requires i < Fit(vs, budget)
    ensures LinkSize(vs[i]) <= budget
  {
    if i > 0 {
      PackedFits(vs[1..], budget - LinkSize(vs[0]), i - 1);
    }
  }

  lemma ListingFailTyped(plus: bool, code: u32, attr: Option<FileAttr>, fsid: u64)
    requires code != 0
    ensures HasType(ListingTy(plus), Fail(code, PostOpVal(attr, fsid)))
  {
    PostOpTyped(attr, fsid);
  }

  lemma ListingOkTyped(plus: bool, attr: Val, vs: seq<Val>, eof: bool)
    requires HasType(POST_OP_ATTR, attr)
    requires HasType(TList(EntryTy(plus)), VList(vs))
    ensures HasType(ListingTy(plus), StatusVal(0, [attr, VFixed(COOKIEVERF), VList(vs), VBool(eof)]))
  {
  }

  /** No length condition on names is needed: a name too long for its length word never fits a budget. */
  lemma ReaddirTyped(ctx: Ctx, dir: u64, es: seq<Entry>, count: u32, plus: bool)
    ensures HasType(ListingTy(plus), ReaddirAnswer(ctx, dir, es, count, plus))
  {
    var vs := DirentVals(ctx, es, plus);
    var budget := SatSub(count, DIRLIST_OVERHEAD);
    var n := Fit(vs, budget);
    if n == 0 && vs != [] {
      ListingFailTyped(plus, NFS3ERR_TOOSMALL, AttrOf(ctx, dir), ctx.fsid);
    } else {
      PostOpTyped(AttrOf(ctx, dir), ctx.fsid);
      forall i | 0 <= i < n
        ensures HasType(EntryTy(plus), vs[..n][i])
      {
        PackedFits(vs, budget, i);
        DirentSize(ctx, es[i], plus);
        DirentTyped(ctx, es[i], plus);
      }
      ListingOkTyped(plus, PostOp(ctx, dir), vs[..n], n == |vs|);
    }
  }

  lemma ListingTyped(ctx: Ctx, fh: bytes, cookie: u64, count: u32, plus: bool, v: Val)
    requires IsReaddirAnswer(ctx, fh, cookie, count, plus, v)
    ensures HasType(ListingTy(plus), v)
  {
    match Resolve(ctx.secret, fh)
    case None => ListingFailTyped(plus, NFS3ERR_NOENT, None, ctx.fsid);
    case Some(dir) =>
      var stop :| MayStop(ctx, dir, cookie, SatSub(count, DIRLIST_OVERHEAD), plus, stop)
                  && v == ListingAnswer(ctx, dir, cookie, count, plus, stop);
      if stop.PageFailed? {
        ListingFailTyped(plus, ToNfsStat3(stop.error), AttrOf(ctx, dir), ctx.fsid);
      } else {
        ReaddirTyped(ctx, dir, Handed(ctx, dir, cookie, stop), count, plus);
      }
  }

  lemma QueryTyped(proc: u32, args: seq<Val>, ctx: Ctx)
    requires proc == 1 || proc == 3 || proc == 4 || proc == 6
    requires HaveTypes(ArgTys(proc), args)
    ensures HasType(ResTy(proc), Answer(proc, args, ctx))
  {
    assert HasType(ArgTys(proc)[0], args[0]);
    if proc == 1 {
      GetattrTyped(ctx, args[0].data);
    } else {
      assert HasType(ArgTys(proc)[1], args[1]);
      if proc == 3 {
        LookupTyped(ctx, args[0].data, args[1].data);
      } else if proc == 4 {
        AccessTyped(ctx, args[0].data, args[1].n);
      } else {
        assert HasType(ArgTys(proc)[2], args[2]);
        ReadTyped(ctx, args[0].data, args[1].d, args[2].n);
      }
    }
  }

  lemma ObjectTyped(proc: u32, args: seq<Val>, ctx: Ctx)
    requires 18 <= proc <= 20
    requires HaveTypes(ArgTys(proc), args)
    ensures HasType(ResTy(proc), Answer(proc, args, ctx))
  {
    assert HasType(ArgTys(proc)[0], args[0]);
    if proc == 18 {
      FsstatTyped(ctx, args[0].data);
    } else if proc == 19 {
      FsinfoTyped(ctx, args[0].data);
    } else {
      PathconfTyped(ctx, args[0].data);
    }
  }

  lemma FixedTyped(proc: u32, args: seq<Val>, ctx: Ctx)
    requires proc < PROC_COUNT && proc != 16 && proc != 17
    requires HaveTypes(ArgTys(proc), args)
    ensures HasType(ResTy(proc), Answer(proc, args, ctx))
  {
    if Refused(proc) {
      RefusalTyped(proc);
    } else if proc >= 18 {
      ObjectTyped(proc, args, ctx);
    } else if proc != 0 {
      QueryTyped(proc, args, ctx);
    }
  }

  /** A body that is an encoded value of its type parses to it completely, and no shorter body does. */
  ghost predicate IsBody(t: Ty, v: Val) {
    && Parse(t, Enc(v)) == Some((v, []))
    && |Enc(v)| % 4 == 0
    && forall k: nat | k < |Enc(v)| :: Parse(t, Enc(v)[..k]) == None
  }

  lemma TypedIsBody(t: Ty, v: Val)
    requires HasType(t, v)
    ensures IsBody(t, v)
  {
    RoundTrip(t, v, []);
    assert Enc(v) + [] == Enc(v);
    Aligned(t, v);
    forall k: nat | k < |Enc(v)|
      ensures Parse(t, Enc(v)[..k]) == None
    {
      if Parse(t, Enc(v)[..k]).Some? {
        assert Enc(v)[..k] + Enc(v)[k..] == Enc(v);
        ParseExtend(t, Enc(v)[..k], Enc(v)[k..]);
        assert false;
      }
    }
  }

  lemma ListingIsBody(args: seq<Val>, limit: nat, ctx: Ctx, plus: bool, v: Val)
    requires ListsFrom(args, limit, ctx, plus, v)
    ensures IsBody(ListingTy(plus), v)
  {
    ListingTyped(ctx, args[0].data, args[1].d, args[limit].n, plus, v);
    TypedIsBody(ListingTy(plus), v);
  }

  lemma ListingResult(proc: u32, plus: bool, v: Val)
    requires proc == (if plus then 17 else 16) && IsBody(ListingTy(plus), v)
    ensures IsBody(ResTy(proc), v)
  {
    assert ResTy(proc) == ListingTy(plus);
  }

  lemma FixedIsBody(proc: u32, args: seq<Val>, ctx: Ctx, v: Val)
    requires proc < PROC_COUNT && proc != 16 && proc != 17
    requires HaveTypes(ArgTys(proc), args) && v == Answer(proc, args, ctx)
    ensures IsBody(ResTy(proc), v)
  {
    FixedTyped(proc, args, ctx);
    TypedIsBody(ResTy(proc), v);
  }

  /**
   * The reply grammar, for any implementation whatever: a successful body parses
   * under the procedure's result type to exactly the answer, with no bytes left
   * over, and no shorter body does.
   */
  lemma BodyParses(proc: u32, args: seq<Val>, ctx: Ctx, v: Val)
    requires proc < PROC_COUNT
    requires HaveTypes(ArgTys(proc), args)
    requires IsAnswer(proc, args, ctx, v)
    ensures IsBody(ResTy(proc), v)
  {
    if proc == 16 {
      ListingIsBody(args, 3, ctx, false, v);
      ListingResult(proc, false, v);
    } else if proc == 17 {
      ListingIsBody(args, 4, ctx, true, v);
      ListingResult(proc, true, v);
    } else {
      FixedIsBody(proc, args, ctx, v);
    }
  }

  /** Every handle issued in a LOOKUP or READDIRPLUS reply resolves to the inode it was issued for. */
  lemma IssuedHandlesResolve(ctx: Ctx, e: Entry, fh: bytes, name: bytes)
    ensures
      var h := PlusFields(ctx, e)[1];
      (h.VSome? <==> ctx.fs.getattr(e.ino).Ok?) && (h.VSome? ==> Resolve(ctx.secret, h.body.data) == Some(e.ino))
    ensures
      var v := LookupAnswer(ctx, fh, name);
      v.code == 0 ==>
        && Resolve(ctx.secret, fh).Some? && ctx.fs.lookup(Resolve(ctx.secret, fh).value, name).Ok?
        && Resolve(ctx.secret, v.res.fields[0].data)
           == Some(ctx.fs.lookup(Resolve(ctx.secret, fh).value, name).value.ino)
  {
    ResolveInvertsEncode(ctx.secret, EncodeHandle(ctx.secret, e.ino), e.ino);
    if LookupAnswer(ctx, fh, name).code == 0 {
      var ino := ctx.fs.lookup(Resolve(ctx.secret, fh).value, name).value.ino;
      ResolveInvertsEncode(ctx.secret, EncodeHandle(ctx.secret, ino), ino);
    }
  }

  /** ACCESS grants exactly the requested bits among read, lookup and execute. */
  lemma GrantedBits(requested: u32, i: nat)
    requires i < 32
    ensures Bits.TestBit(Granted(requested), i) <==> Bits.TestBit(requested, i) && (i == 0 || i == 1 || i == 5)
  {
    Bits.TestBitwise((a, b) => a && b, requested, GRANTABLE, 32, i);
    assert i >= 1 ==> Bits.TestBit(35, i) == Bits.TestBit(17, i - 1);
    assert i >= 2 ==> Bits.TestBit(17, i - 1) == Bits.TestBit(8, i - 2);
    assert i >= 3 ==> Bits.TestBit(8, i - 2) == Bits.TestBit(4, i - 3);
    assert i >= 4 ==> Bits.TestBit(4, i - 3) == Bits.TestBit(2, i - 4);
    assert i >= 5 ==> Bits.TestBit(2, i - 4) == Bits.TestBit(1, i - 5);
    if i >= 6 {
      Bits.TestZero(i - 6);
    }
  }
}
