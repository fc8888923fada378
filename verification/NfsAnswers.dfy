/** What each NFS procedure answers, as values of the RFC 1813 result types. */
module NfsAnswers {
  import opened Wrappers
  import opened Xdr
  import opened ReadOnlyFs
  import opened FileHandle
  import opened NfsTypes
  import opened Listing
  import opened Paging
  import Bits

  const RTMAX: u32 := 0x10_0000
  const DIRLIST_OVERHEAD: u32 := 128

  const NFS3ERR_NOENT: u32 := 2
  const NFS3ERR_ROFS: u32 := 30
  const NFS3ERR_NOTSUPP: u32 := 10004
  const NFS3ERR_TOOSMALL: u32 := 10005

  datatype Ctx = Ctx(fs: Fs, secret: Secret, fsid: u64)

  function AttrOf(ctx: Ctx, ino: u64): Option<FileAttr> {
    var a := ctx.fs.getattr(ino);
    if a.Ok? then Some(a.value) else None
  }

  function PostOp(ctx: Ctx, ino: u64): Val {
    PostOpVal(AttrOf(ctx, ino), ctx.fsid)
  }

  function Fail(code: u32, attr: Val): Val {
    StatusVal(code, [attr])
  }

  function Min(a: nat, b: nat): nat {
    if a <= b then a else b
  }

  function SatSub(a: u32, b: u32): u32 {
    if a <= b then 0 else a - b
  }

  function SatMul(a: u64, b: u64): u64 {
    Min(a * b, U64_MAX)
  }

  function SatAdd(a: u64, b: u64): u64 {
    Min(a + b, U64_MAX)
  }

  // ---------------------------------------------------------------- refusals

  predicate Refused(proc: u32) {
    proc == 2 || proc == 5 || 7 <= proc <= 15 || proc == 21
  }

  function Refusal(proc: u32): Val
    requires Refused(proc)
  {
    if proc == 5 then Fail(NFS3ERR_NOTSUPP, VNone)
    else if proc == 10 then Fail(NFS3ERR_NOTSUPP, NO_WCC)
    else if proc == 14 then StatusVal(NFS3ERR_ROFS, [NO_WCC, NO_WCC])
    else if proc == 15 then StatusVal(NFS3ERR_ROFS, [VNone, NO_WCC])
    else Fail(NFS3ERR_ROFS, NO_WCC)
  }

  // ---------------------------------------------------------------- queries

  function GetattrAnswer(ctx: Ctx, fh: bytes): Val {
    match Resolve(ctx.secret, fh)
    case None => StatusVal(NFS3ERR_NOENT, [])
    case Some(ino) =>
      match ctx.fs.getattr(ino)
      case Ok(a) => StatusVal(0, FattrFields(a, ctx.fsid))
      case Err(e) => StatusVal(ToNfsStat3(e), [])
  }

  function LookupAnswer(ctx: Ctx, fh: bytes, name: bytes): Val {
    match Resolve(ctx.secret, fh)
    case None => Fail(NFS3ERR_NOENT, VNone)
    case Some(dir) =>
      match ctx.fs.lookup(dir, name)
      case Ok(a) =>
        StatusVal(0, [VOpaque(EncodeHandle(ctx.secret, a.ino)), PostOpVal(Some(a), ctx.fsid), PostOp(ctx, dir)])
      case Err(e) => Fail(ToNfsStat3(e), PostOp(ctx, dir))
  }

  /** ACCESS3_READ, ACCESS3_LOOKUP and ACCESS3_EXECUTE. */
  const GRANTABLE: u32 := 35

  function Granted(requested: u32): u32 {
    Bits.Pow2Word();
    Bits.And(requested, GRANTABLE, 32)
  }

  function AccessAnswer(ctx: Ctx, fh: bytes, requested: u32): Val {
    match Resolve(ctx.secret, fh)
    case None => Fail(NFS3ERR_NOENT, VNone)
    case Some(ino) =>
      match ctx.fs.getattr(ino)
      case Ok(a) => StatusVal(0, [PostOpVal(Some(a), ctx.fsid), VU32(Granted(requested))])
      case Err(e) => Fail(ToNfsStat3(e), VNone)
  }

  /** The bytes a READ returns: never more than were asked for, whatever count was reported. */
  function ReadData(out: ReadOut, count: nat): (d: bytes)
    ensures |d| == Min(out.reported, count)
  {
    Overlay(Zeros(count), out.stored)[..Min(out.reported, count)]
  }

  /** The answer to a READ of an inode of this mount, `count` already capped. */
  function FileAnswer(ctx: Ctx, ino: u64, offset: u64, count: u32): Val {
    match ctx.fs.open(ino)
    case Err(e) => Fail(ToNfsStat3(e), PostOp(ctx, ino))
    case Ok(h) =>
      match ctx.fs.readAt(h, offset, count)
      case Err(e) => Fail(ToNfsStat3(e), PostOp(ctx, ino))
      case Ok(out) =>
        var data := ReadData(out, count);
        var attr := AttrOf(ctx, ino);
        StatusVal(0, [PostOpVal(attr, ctx.fsid), VU32(|data|),
                      VBool(attr.Some? && offset + |data| >= attr.value.size), VOpaque(data)])
  }

  function ReadAnswer(ctx: Ctx, fh: bytes, offset: u64, count: u32): Val {
    match Resolve(ctx.secret, fh)
    case None => Fail(NFS3ERR_NOENT, VNone)
    case Some(ino) => FileAnswer(ctx, ino, offset, Min(count, RTMAX))
  }

  function StatFields(s: StatFs): seq<Val> {
    [VU64(SatMul(s.blocks, s.frsize)), VU64(SatMul(s.bfree, s.frsize)), VU64(SatMul(s.bavail, s.frsize)),
     VU64(s.files), VU64(s.ffree), VU64(s.ffree), VU32(U32_MAX)]
  }

  const INFO_SIZES := [VU32(RTMAX), VU32(RTMAX), VU32(4096), VU32(RTMAX), VU32(RTMAX), VU32(4096)]
  const PATH_LIMITS := [VU32(1), VU32(255), VBool(true), VBool(true), VBool(false), VBool(true)]
  const INFO_REST := [VU32(32768), VU64(U64_MAX), VStruct([VU32(1), VU32(0)]), VU32(8)]

  function FsstatAnswer(ctx: Ctx, fh: bytes): Val {
    match Resolve(ctx.secret, fh)
    case None => Fail(NFS3ERR_NOENT, VNone)
    case Some(ino) =>
      match ctx.fs.statfs
      case Err(e) => Fail(ToNfsStat3(e), PostOp(ctx, ino))
      case Ok(s) =>
        StatusVal(0, [PostOp(ctx, ino)] + StatFields(s))
  }

  function FsinfoAnswer(ctx: Ctx, fh: bytes): Val {
    match Resolve(ctx.secret, fh)
    case None => Fail(NFS3ERR_NOENT, VNone)
    case Some(ino) =>
      StatusVal(0, [PostOp(ctx, ino)] + (INFO_SIZES + INFO_REST))
  }

  function PathconfAnswer(ctx: Ctx, fh: bytes): Val {
    match Resolve(ctx.secret, fh)
    case None => Fail(NFS3ERR_NOENT, VNone)
    case Some(ino) =>
      StatusVal(0, [PostOp(ctx, ino)] + PATH_LIMITS)
  }

  // ---------------------------------------------------------------- listings

  function BaseFields(e: Entry): seq<Val> {
    [VU64(e.ino), VOpaque(e.name), VU64(e.cookie)]
  }

  /** Attributes and handle of an entry, both absent if its attributes cannot be read. */
  function PlusFields(ctx: Ctx, e: Entry): seq<Val> {
    var attr := AttrOf(ctx, e.ino);
    [PostOpVal(attr, ctx.fsid),
     if attr.Some? then VSome(VOpaque(EncodeHandle(ctx.secret, e.ino))) else VNone]
  }

  function DirentVal(ctx: Ctx, e: Entry, plus: bool): Val {
    VStruct(if plus then BaseFields(e) + PlusFields(ctx, e) else BaseFields(e))
  }

  function DirentVals(ctx: Ctx, es: seq<Entry>, plus: bool): (vs: seq<Val>)
    ensures |vs| == |es|
  {
    seq(|es|, i requires 0 <= i < |es| => DirentVal(ctx, es[i], plus))
  }

  /** Bytes one entry takes in a reply, its link word included. */
  function LinkSize(v: Val): nat {
    |EncLinks([v])|
  }

  /** How many leading entries fit `budget` bytes, taken greedily. */
  function Fit(vs: seq<Val>, budget: nat): (n: nat)
    ensures n <= |vs|
  {
    if vs == [] || LinkSize(vs[0]) > budget then 0
    else 1 + Fit(vs[1..], budget - LinkSize(vs[0]))
  }

  /** The answer to a READDIR(PLUS) whose remaining entries are `es`. */
  function ReaddirAnswer(ctx: Ctx, dir: u64, es: seq<Entry>, count: u32, plus: bool): Val {
    var vs := DirentVals(ctx, es, plus);
    var n := Fit(vs, SatSub(count, DIRLIST_OVERHEAD));
    if n == 0 && vs != [] then Fail(NFS3ERR_TOOSMALL, PostOp(ctx, dir))
    else StatusVal(0, [PostOp(ctx, dir), VFixed(COOKIEVERF), VList(vs[..n]), VBool(n == |vs|)])
  }

  /** The first `n` entries the implementation hands out to a READDIR(PLUS) that resumes after `cookie`. */
  function HandedOut(ctx: Ctx, dir: u64, cookie: u64, n: nat): seq<Entry> {
    Offered(TailAfter(ctx.fs, dir, Synthesize, cookie), n)
  }

  /** Where a listing stopped, `n` entries packed: at one that did not fit, at the end, or at a page that failed. */
  datatype Stop = Overfull(n: nat) | Exhausted(n: nat) | PageFailed(n: nat, error: FsError)

  /** The entries a listing that stopped there was handed, one that did not fit included. */
  function Handed(ctx: Ctx, dir: u64, cookie: u64, stop: Stop): seq<Entry> {
    HandedOut(ctx, dir, cookie, if stop.Overfull? then stop.n + 1 else stop.n)
  }

  /** Packing into `budget` bytes may stop there, over any implementation whatever. */
  predicate MayStop(ctx: Ctx, dir: u64, cookie: u64, budget: nat, plus: bool, stop: Stop) {
    var t := TailAfter(ctx.fs, dir, Synthesize, cookie);
    && Fit(DirentVals(ctx, Handed(ctx, dir, cookie, stop), plus), budget) == stop.n
    && match stop
       case Overfull(n) => |Handed(ctx, dir, cookie, stop)| == n + 1
       case Exhausted(n) => PageAnswered(ctx.fs, dir, t, n, Ok([]))
       case PageFailed(n, e) => PageAnswered(ctx.fs, dir, t, n, Err(e))
  }

  /** The answer to a listing that stopped there. */
  function ListingAnswer(ctx: Ctx, dir: u64, cookie: u64, count: u32, plus: bool, stop: Stop): Val {
    if stop.PageFailed? then Fail(ToNfsStat3(stop.error), PostOp(ctx, dir))
    else ReaddirAnswer(ctx, dir, Handed(ctx, dir, cookie, stop), count, plus)
  }

  /** One of the answers a listing may come to. */
  ghost predicate IsListing(ctx: Ctx, dir: u64, cookie: u64, count: u32, plus: bool, v: Val) {
    exists stop ::
      MayStop(ctx, dir, cookie, SatSub(count, DIRLIST_OVERHEAD), plus, stop) && v == ListingAnswer(ctx, dir, cookie, count, plus, stop)
  }

  ghost predicate IsReaddirAnswer(ctx: Ctx, fh: bytes, cookie: u64, count: u32, plus: bool, v: Val) {
    match Resolve(ctx.secret, fh)
    case None => v == Fail(NFS3ERR_NOENT, VNone)
    case Some(dir) => IsListing(ctx, dir, cookie, count, plus, v)
  }

  // ---------------------------------------------------------------- the procedure table

  function Answer(proc: u32, args: seq<Val>, ctx: Ctx): Val
    requires proc < PROC_COUNT && proc != 16 && proc != 17
    requires HaveTypes(ArgTys(proc), args)
  {
    if proc == 0 then UNIT
    else if Refused(proc) then Refusal(proc)
    else
      assert HasType(ArgTys(proc)[0], args[0]);
      if proc == 1 then GetattrAnswer(ctx, args[0].data)
      else if proc == 3 then
        assert HasType(ArgTys(proc)[1], args[1]);
        LookupAnswer(ctx, args[0].data, args[1].data)
      else if proc == 4 then
        assert HasType(ArgTys(proc)[1], args[1]);
        AccessAnswer(ctx, args[0].data, args[1].n)
      else if proc == 6 then
        assert HasType(ArgTys(proc)[1], args[1]) && HasType(ArgTys(proc)[2], args[2]);
        ReadAnswer(ctx, args[0].data, args[1].d, args[2].n)
      else if proc == 18 then FsstatAnswer(ctx, args[0].data)
      else if proc == 19 then FsinfoAnswer(ctx, args[0].data)
      else PathconfAnswer(ctx, args[0].data)
  }

  /** What a READDIR(PLUS) with these arguments may answer; `limit` is where its limit stands. */
  ghost predicate ListsFrom(args: seq<Val>, limit: nat, ctx: Ctx, plus: bool, v: Val) {
    && 1 < limit < |args| && args[0].VOpaque? && args[1].VU64? && args[limit].VU32?
    && IsReaddirAnswer(ctx, args[0].data, args[1].d, args[limit].n, plus, v)
  }

  /** What a procedure may answer, whatever the implementation does. */
  ghost predicate IsAnswer(proc: u32, args: seq<Val>, ctx: Ctx, v: Val)
    requires proc < PROC_COUNT
    requires HaveTypes(ArgTys(proc), args)
  {
    if proc == 16 then ListsFrom(args, 3, ctx, false, v)
    else if proc == 17 then ListsFrom(args, 4, ctx, true, v)
    else v == Answer(proc, args, ctx)
  }
}
