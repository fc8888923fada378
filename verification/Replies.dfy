/**
 * What a client reads in the replies of this server: each RFC 1813 result
 * decoded field by field, under the names of its section 2.5 and 3.3, and how
 * every field follows from what the implementation answered.
 */
module Replies {
  import opened Wrappers
  import opened Xdr
  import opened XdrWire
  import opened ReadOnlyFs
  import opened FileHandle
  import opened Listing
  import opened Paging
  import opened NfsTypes
  import opened NfsAnswers
  import opened NfsProto
  import opened RpcCall
  import opened ReplyGrammar

  // ---------------------------------------------------------------- status codes

  /** `nfsstat3` (RFC 1813 section 2.6), as far as this server uses it. */
  datatype Nfsstat3 =
    | StatOk | StatNoent | StatIo | StatAcces | StatNotdir | StatIsdir | StatInval | StatRofs
    | StatNotsupp | StatToosmall | StatServerfault | StatOther

  function StatusOf(code: u32): Nfsstat3 {
    if code == 0 then StatOk
    else if code == 2 then StatNoent
    else if code == 5 then StatIo
    else if code == 13 then StatAcces
    else if code == 20 then StatNotdir
    else if code == 21 then StatIsdir
    else if code == 22 then StatInval
    else if code == 30 then StatRofs
    else if code == 10004 then StatNotsupp
    else if code == 10005 then StatToosmall
    else if code == 10006 then StatServerfault
    else StatOther
  }

  /** The status each error of an implementation stands for. */
  function ErrorStatus(e: FsError): Nfsstat3 {
    match e
    case NotFound => StatNoent
    case PermissionDenied => StatAcces
    case NotADirectory => StatNotdir
    case IsADirectory => StatIsdir
    case InvalidArgument => StatInval
    case NoXattr => StatNotsupp
    case ReadOnly => StatRofs
    case Unsupported => StatNotsupp
    case Io => StatIo
    case Other => StatServerfault
    case Context(inner) => ErrorStatus(inner)
  }

  /** Each error travels as the code of its status. */
  lemma {:induction false} ErrorTravels(e: FsError)
    ensures StatusOf(ToNfsStat3(e)) == ErrorStatus(e) != StatOk
  {
    if e.Context? {
      ErrorTravels(e.errnoAs);
    }
  }

  // ---------------------------------------------------------------- attributes

  datatype Time3 = Time3(seconds: u32, nseconds: u32)

  datatype Fattr3 = Fattr3(
    ftype: u32, mode: u32, nlink: u32, uid: u32, gid: u32, size: u64, used: u64, rdev: (u32, u32),
    fsid: u64, fileid: u64, atime: Time3, mtime: Time3, ctime: Time3)

  /** The attributes a client is to see: 1 is a regular file, 2 a directory. */
  function AsFattr3(a: FileAttr, fsid: u64): Fattr3 {
    Fattr3(if a.kind.File? then 1 else 2, a.perm, a.nlink, a.uid, a.gid, a.size, a.size, (0, 0),
           fsid, a.ino, AsTime3(a.atime), AsTime3(a.mtime), AsTime3(a.ctime))
  }

  /** Times before the epoch become the epoch; seconds keep their low 32 bits. */
  function AsTime3(t: SystemTime): Time3 {
    if t.secs < 0 then Time3(0, 0) else Time3(t.secs % 0x1_0000_0000, t.nanos)
  }

  /** The attributes of an inode, absent if they cannot be read. */
  function Attributes(ctx: Ctx, ino: u64): Option<Fattr3> {
    match ctx.fs.getattr(ino)
    case Ok(a) => Some(AsFattr3(a, ctx.fsid))
    case Err(_) => None
  }

  // ---------------------------------------------------------------- decoding

  function Item(vs: seq<Val>, i: nat): Val {
    if i < |vs| then vs[i] else VNone
  }

  function Fields(v: Val): seq<Val> {
    if v.VStruct? then v.fields else []
  }

  function Word(v: Val): u32 {
    if v.VU32? then v.n else 0
  }

  function Hyper(v: Val): u64 {
    if v.VU64? then v.d else 0
  }

  function Truth(v: Val): bool {
    v.VBool? && v.b
  }

  function Text(v: Val): bytes {
    if v.VOpaque? then v.data else if v.VFixed? then v.raw else []
  }

  function ReadTime(v: Val): Time3 {
    Time3(Word(Item(Fields(v), 0)), Word(Item(Fields(v), 1)))
  }

  function ReadFattr3(fs: seq<Val>): Fattr3 {
    Fattr3(Word(Item(fs, 0)), Word(Item(fs, 1)), Word(Item(fs, 2)), Word(Item(fs, 3)), Word(Item(fs, 4)),
           Hyper(Item(fs, 5)), Hyper(Item(fs, 6)), (Word(Item(fs, 7)), Word(Item(fs, 8))),
           Hyper(Item(fs, 9)), Hyper(Item(fs, 10)),
           ReadTime(Item(fs, 11)), ReadTime(Item(fs, 12)), ReadTime(Item(fs, 13)))
  }

  /** `post_op_attr` */
  function ReadAttributes(v: Val): Option<Fattr3> {
    if v.VSome? then Some(ReadFattr3(Fields(v.body))) else None
  }

  /** What a client makes of a result body. A failed result starts with attributes, if it has anything. */
  datatype Seen<+T> = Good(value: T) | Bad(status: Nfsstat3, attributes: Option<Fattr3>) | Unreadable

  /** A result value as a client takes it, given what it makes of the fields of a result that is ok. */
  function Take<T>(ok: seq<Val> -> T, v: Val): Seen<T> {
    if !v.VStatus? then Unreadable
    else if v.code == 0 then Good(ok(Fields(v.res)))
    else Bad(StatusOf(v.code), ReadAttributes(Item(Fields(v.res), 0)))
  }

  function Decode<T>(t: Ty, ok: seq<Val> -> T, body: bytes): Seen<T> {
    match Parse(t, body)
    case None => Unreadable
    case Some((v, rest)) => if rest == [] then Take(ok, v) else Unreadable
  }

  function DecodeGetattr(body: bytes): Seen<Fattr3> {
    Decode(GETATTR_RES, ReadFattr3, body)
  }

  datatype LookupOk = LookupOk(object: bytes, objAttributes: Option<Fattr3>, dirAttributes: Option<Fattr3>)

  function LookupOf(fs: seq<Val>): LookupOk {
    LookupOk(Text(Item(fs, 0)), ReadAttributes(Item(fs, 1)), ReadAttributes(Item(fs, 2)))
  }

  function DecodeLookup(body: bytes): Seen<LookupOk> {
    Decode(LOOKUP_RES, LookupOf, body)
  }

  datatype AccessOk = AccessOk(objAttributes: Option<Fattr3>, access: u32)

  function AccessOf(fs: seq<Val>): AccessOk {
    AccessOk(ReadAttributes(Item(fs, 0)), Word(Item(fs, 1)))
  }

  function DecodeAccess(body: bytes): Seen<AccessOk> {
    Decode(ACCESS_RES, AccessOf, body)
  }

  datatype ReadOk = ReadOk(fileAttributes: Option<Fattr3>, count: u32, eof: bool, data: bytes)

  function ReadOf(fs: seq<Val>): ReadOk {
    ReadOk(ReadAttributes(Item(fs, 0)), Word(Item(fs, 1)), Truth(Item(fs, 2)), Text(Item(fs, 3)))
  }

  function DecodeRead(body: bytes): Seen<ReadOk> {
    Decode(READ_RES, ReadOf, body)
  }

  datatype FsstatOk = FsstatOk(
    objAttributes: Option<Fattr3>, tbytes: u64, fbytes: u64, abytes: u64, tfiles: u64, ffiles: u64, afiles: u64, invarsec: u32)

  function FsstatOf(fs: seq<Val>): FsstatOk {
    FsstatOk(ReadAttributes(Item(fs, 0)), Hyper(Item(fs, 1)), Hyper(Item(fs, 2)), Hyper(Item(fs, 3)),
             Hyper(Item(fs, 4)), Hyper(Item(fs, 5)), Hyper(Item(fs, 6)), Word(Item(fs, 7)))
  }

  function DecodeFsstat(body: bytes): Seen<FsstatOk> {
    Decode(FSSTAT_RES, FsstatOf, body)
  }

  datatype FsinfoOk = FsinfoOk(
    objAttributes: Option<Fattr3>, rtmax: u32, rtpref: u32, rtmult: u32, wtmax: u32, wtpref: u32, wtmult: u32, dtpref: u32,
    maxfilesize: u64, timeDelta: Time3, properties: u32)

  function FsinfoOf(fs: seq<Val>): FsinfoOk {
    FsinfoOk(ReadAttributes(Item(fs, 0)), Word(Item(fs, 1)), Word(Item(fs, 2)), Word(Item(fs, 3)),
             Word(Item(fs, 4)), Word(Item(fs, 5)), Word(Item(fs, 6)), Word(Item(fs, 7)),
             Hyper(Item(fs, 8)), ReadTime(Item(fs, 9)), Word(Item(fs, 10)))
  }

  function DecodeFsinfo(body: bytes): Seen<FsinfoOk> {
    Decode(FSINFO_RES, FsinfoOf, body)
  }

  datatype PathconfOk = PathconfOk(
    objAttributes: Option<Fattr3>, linkmax: u32, nameMax: u32,
    noTrunc: bool, chownRestricted: bool, caseInsensitive: bool, casePreserving: bool)

  function PathconfOf(fs: seq<Val>): PathconfOk {
    PathconfOk(ReadAttributes(Item(fs, 0)), Word(Item(fs, 1)), Word(Item(fs, 2)),
               Truth(Item(fs, 3)), Truth(Item(fs, 4)), Truth(Item(fs, 5)), Truth(Item(fs, 6)))
  }

  function DecodePathconf(body: bytes): Seen<PathconfOk> {
    Decode(PATHCONF_RES, PathconfOf, body)
  }

  /** An entry of a listing; READDIR brings neither attributes nor handle. */
  datatype Entry3 = Entry3(fileid: u64, name: bytes, cookie: u64, nameAttributes: Option<Fattr3>, nameHandle: Option<bytes>)

  datatype ListingOk = ListingOk(dirAttributes: Option<Fattr3>, cookieverf: bytes, entries: seq<Entry3>, eof: bool)

  function ReadEntry3(v: Val): Entry3 {
    var fs := Fields(v);
    var h := Item(fs, 4);
    Entry3(Hyper(Item(fs, 0)), Text(Item(fs, 1)), Hyper(Item(fs, 2)), ReadAttributes(Item(fs, 3)),
           if h.VSome? then Some(Text(h.body)) else None)
  }

  function ReadEntries(v: Val): (es: seq<Entry3>) {
    if v.VList? then seq(|v.items|, i requires 0 <= i < |v.items| => ReadEntry3(v.items[i])) else []
  }

  function ListingOf(fs: seq<Val>): ListingOk {
    ListingOk(ReadAttributes(Item(fs, 0)), Text(Item(fs, 1)), ReadEntries(Item(fs, 2)), Truth(Item(fs, 3)))
  }

  function DecodeListing(plus: bool, body: bytes): Seen<ListingOk> {
    Decode(ListingTy(plus), ListingOf, body)
  }

  // ---------------------------------------------------------------- values

  lemma TimeRead(t: SystemTime)
    ensures ReadTime(TimeVal(t)) == AsTime3(t)
  {
  }

  lemma FattrRead(a: FileAttr, fsid: u64)
    ensures ReadFattr3(FattrFields(a, fsid)) == AsFattr3(a, fsid)
  {
    TimeRead(a.atime);
    TimeRead(a.mtime);
    TimeRead(a.ctime);
  }

  lemma AttributesRead(ctx: Ctx, ino: u64)
    ensures ReadAttributes(PostOp(ctx, ino)) == Attributes(ctx, ino)
  {
    var a := ctx.fs.getattr(ino);
    if a.Ok? {
      FattrRead(a.value, ctx.fsid);
    }
  }

  /** A typed answer arrives as it was sent. */
  lemma Decoded<T>(t: Ty, ok: seq<Val> -> T, v: Val)
    requires HasType(t, v)
    ensures Decode(t, ok, Enc(v)) == Take(ok, v)
  {
    TypedIsBody(t, v);
  }

  lemma FailTaken<T>(ok: seq<Val> -> T, code: u32, attr: Val)
    requires code != 0
    ensures Take(ok, Fail(code, attr)) == Bad(StatusOf(code), ReadAttributes(attr))
  {
  }

  /** A failure of the implementation arrives with its status. */
  lemma ErrorTaken<T>(ok: seq<Val> -> T, e: FsError, attr: Val)
    ensures Take(ok, Fail(ToNfsStat3(e), attr)) == Bad(ErrorStatus(e), ReadAttributes(attr))
  {
    ErrorTravels(e);
  }

  /** A handle that was not issued is answered without attributes. */
  lemma StaleTaken<T>(ok: seq<Val> -> T)
    ensures Take(ok, Fail(NFS3ERR_NOENT, VNone)) == Bad(StatNoent, None)
  {
  }

  // ---------------------------------------------------------------- what each procedure shows

  /** The outcome of procedure `proc` called with these arguments. */
  ghost predicate Replied(proc: u32, args: seq<Val>, ctx: Ctx, out: ProcOutcome) {
    Dispatched(proc, EncAll(args), ctx, out)
  }

  /** A procedure with one possible answer replies with it. */
  lemma AnswerArrives(proc: u32, args: seq<Val>, ctx: Ctx, out: ProcOutcome)
    requires proc < PROC_COUNT && proc != 16 && proc != 17
    requires HaveTypes(ArgTys(proc), args)
    requires Replied(proc, args, ctx, out)
    ensures out == Success(Enc(Answer(proc, args, ctx)))
  {
    AllRoundTrip(ArgTys(proc), args, []);
    assert EncAll(args) + [] == EncAll(args);
  }

  lemma ObjectArgs(proc: u32, fh: bytes)
    requires proc in {1, 18, 19, 20} && |fh| <= 64
    ensures HaveTypes(ArgTys(proc), [VOpaque(fh)])
  {
  }

  lemma LookupArgs(fh: bytes, name: bytes)
    requires |fh| <= 64 && |name| <= 1024
    ensures HaveTypes(ArgTys(3), [VOpaque(fh), VOpaque(name)])
  {
  }

  lemma AccessArgs(fh: bytes, requested: u32)
    requires |fh| <= 64
    ensures HaveTypes(ArgTys(4), [VOpaque(fh), VU32(requested)])
  {
  }

  lemma ReadArgs(fh: bytes, offset: u64, count: u32)
    requires |fh| <= 64
    ensures HaveTypes(ArgTys(6), [VOpaque(fh), VU64(offset), VU32(count)])
  {
  }

  lemma ReaddirArgTypes(fh: bytes, cookie: u64, verf: bytes, dircount: u32, limit: u32)
    requires |fh| <= 64 && |verf| == 8
    ensures HaveTypes(ArgTys(16), [VOpaque(fh), VU64(cookie), VFixed(verf), VU32(limit)])
    ensures HaveTypes(ArgTys(17), [VOpaque(fh), VU64(cookie), VFixed(verf), VU32(dircount), VU32(limit)])
  {
  }

  /** What GETATTR is to show: the attributes `getattr` gave, or its error. */
  function GetattrShown(ctx: Ctx, fh: bytes): Seen<Fattr3> {
    match Resolve(ctx.secret, fh)
    case None => Bad(StatNoent, None)
    case Some(ino) =>
      match ctx.fs.getattr(ino)
      case Ok(a) => Good(AsFattr3(a, ctx.fsid))
      case Err(e) => Bad(ErrorStatus(e), None)
  }

  lemma GetattrDecodes(ctx: Ctx, fh: bytes)
    ensures DecodeGetattr(Enc(GetattrAnswer(ctx, fh))) == GetattrShown(ctx, fh)
  {
    GetattrTyped(ctx, fh);
    Decoded(GETATTR_RES, ReadFattr3, GetattrAnswer(ctx, fh));
    match Resolve(ctx.secret, fh)
    case None =>
    case Some(ino) =>
      match ctx.fs.getattr(ino)
      case Ok(a) => FattrRead(a, ctx.fsid);
      case Err(e) => ErrorTravels(e);
  }

  lemma GetattrSeen(ctx: Ctx, fh: bytes, out: ProcOutcome)
    requires |fh| <= 64 && Replied(1, [VOpaque(fh)], ctx, out)
    ensures out.Success? && DecodeGetattr(out.body) == GetattrShown(ctx, fh)
  {
    ObjectArgs(1, fh);
    AnswerArrives(1, [VOpaque(fh)], ctx, out);
    GetattrDecodes(ctx, fh);
  }

  /** LOOKUP shows the object's handle and attributes, then the directory's; a failure shows the directory's. */
  function LookupShown(ctx: Ctx, fh: bytes, name: bytes): Seen<LookupOk> {
    match Resolve(ctx.secret, fh)
    case None => Bad(StatNoent, None)
    case Some(dir) =>
      match ctx.fs.lookup(dir, name)
      case Ok(a) => Good(LookupOk(EncodeHandle(ctx.secret, a.ino), Some(AsFattr3(a, ctx.fsid)), Attributes(ctx, dir)))
      case Err(e) => Bad(ErrorStatus(e), Attributes(ctx, dir))
  }

  lemma LookupDecodes(ctx: Ctx, fh: bytes, name: bytes)
    ensures DecodeLookup(Enc(LookupAnswer(ctx, fh, name))) == LookupShown(ctx, fh, name)
  {
    LookupTyped(ctx, fh, name);
    Decoded(LOOKUP_RES, LookupOf, LookupAnswer(ctx, fh, name));
    match Resolve(ctx.secret, fh)
    case None => StaleTaken(LookupOf);
    case Some(dir) =>
      AttributesRead(ctx, dir);
      match ctx.fs.lookup(dir, name)
      case Ok(a) => FattrRead(a, ctx.fsid);
      case Err(e) => ErrorTaken(LookupOf, e, PostOp(ctx, dir));
  }

  lemma LookupSeen(ctx: Ctx, fh: bytes, name: bytes, out: ProcOutcome)
    requires |fh| <= 64 && |name| <= 1024 && Replied(3, [VOpaque(fh), VOpaque(name)], ctx, out)
    ensures out.Success? && DecodeLookup(out.body) == LookupShown(ctx, fh, name)
  {
    LookupArgs(fh, name);
    AnswerArrives(3, [VOpaque(fh), VOpaque(name)], ctx, out);
    LookupDecodes(ctx, fh, name);
  }

  /** ACCESS shows the attributes and the granted bits; see `GrantedBits` for which. */
  function AccessShown(ctx: Ctx, fh: bytes, requested: u32): Seen<AccessOk> {
    match Resolve(ctx.secret, fh)
    case None => Bad(StatNoent, None)
    case Some(ino) =>
      match ctx.fs.getattr(ino)
      case Ok(a) => Good(AccessOk(Some(AsFattr3(a, ctx.fsid)), Granted(requested)))
      case Err(e) => Bad(ErrorStatus(e), None)
  }

  lemma AccessDecodes(ctx: Ctx, fh: bytes, requested: u32)
    ensures DecodeAccess(Enc(AccessAnswer(ctx, fh, requested))) == AccessShown(ctx, fh, requested)
  {
    AccessTyped(ctx, fh, requested);
    Decoded(ACCESS_RES, AccessOf, AccessAnswer(ctx, fh, requested));
    match Resolve(ctx.secret, fh)
    case None => StaleTaken(AccessOf);
    case Some(ino) =>
      match ctx.fs.getattr(ino)
      case Ok(a) => FattrRead(a, ctx.fsid);
      case Err(e) => ErrorTaken(AccessOf, e, VNone);
  }

  lemma AccessSeen(ctx: Ctx, fh: bytes, requested: u32, out: ProcOutcome)
    requires |fh| <= 64 && Replied(4, [VOpaque(fh), VU32(requested)], ctx, out)
    ensures out.Success? && DecodeAccess(out.body) == AccessShown(ctx, fh, requested)
  {
    AccessArgs(fh, requested);
    AnswerArrives(4, [VOpaque(fh), VU32(requested)], ctx, out);
    AccessDecodes(ctx, fh, requested);
  }

  /** The bytes `read_at` left in a buffer of zeros, as many as it reported and no more than the buffer holds. */
  predicate IsData(out: ReadOut, want: nat, data: bytes) {
    && |data| == (if out.reported <= want then out.reported else want)
    && forall i | 0 <= i < |data| :: data[i] == if i < |out.stored| then out.stored[i] else 0
  }

  /** READ shows the file's attributes with its data, at most 1 MiB of it; a failure to open or read shows them too. */
  predicate ReadShown(ctx: Ctx, fh: bytes, offset: u64, count: u32, seen: Seen<ReadOk>) {
    var want := if count <= 0x10_0000 then count else 0x10_0000;
    match Resolve(ctx.secret, fh)
    case None => seen == Bad(StatNoent, None)
    case Some(ino) =>
      match ctx.fs.open(ino)
      case Err(e) => seen == Bad(ErrorStatus(e), Attributes(ctx, ino))
      case Ok(h) =>
        match ctx.fs.readAt(h, offset, want)
        case Err(e) => seen == Bad(ErrorStatus(e), Attributes(ctx, ino))
        case Ok(out) =>
          && seen.Good?
          && var r := seen.value;
          && r.fileAttributes == Attributes(ctx, ino)
          && r.count == |r.data| && IsData(out, want, r.data)
          && (r.eof <==> ctx.fs.getattr(ino).Ok? && offset + |r.data| >= ctx.fs.getattr(ino).value.size)
  }

  lemma DataIs(out: ReadOut, want: nat)
    ensures IsData(out, want, ReadData(out, want))
  {
  }

  lemma ReadDecodes(ctx: Ctx, fh: bytes, offset: u64, count: u32)
    ensures ReadShown(ctx, fh, offset, count, DecodeRead(Enc(ReadAnswer(ctx, fh, offset, count))))
  {
    ReadTyped(ctx, fh, offset, count);
    Decoded(READ_RES, ReadOf, ReadAnswer(ctx, fh, offset, count));
    match Resolve(ctx.secret, fh)
    case None => StaleTaken(ReadOf);
    case Some(ino) =>
      AttributesRead(ctx, ino);
      match ctx.fs.open(ino)
      case Err(e) => ErrorTaken(ReadOf, e, PostOp(ctx, ino));
      case Ok(h) =>
        match ctx.fs.readAt(h, offset, Min(count, RTMAX))
        case Err(e) => ErrorTaken(ReadOf, e, PostOp(ctx, ino));
        case Ok(out) => DataIs(out, Min(count, RTMAX));
  }

  lemma ReadSeen(ctx: Ctx, fh: bytes, offset: u64, count: u32, out: ProcOutcome)
    requires |fh| <= 64 && Replied(6, [VOpaque(fh), VU64(offset), VU32(count)], ctx, out)
    ensures out.Success? && ReadShown(ctx, fh, offset, count, DecodeRead(out.body))
  {
    ReadArgs(fh, offset, count);
    AnswerArrives(6, [VOpaque(fh), VU64(offset), VU32(count)], ctx, out);
    ReadDecodes(ctx, fh, offset, count);
  }

  /** A size in bytes, or the largest 64-bit number if it is larger. */
  function Sized(blocks: u64, unit: u64): u64 {
    if blocks * unit <= 0xFFFF_FFFF_FFFF_FFFF then blocks * unit else 0xFFFF_FFFF_FFFF_FFFF
  }

  /** FSSTAT shows sizes in bytes, saturated, and the free files twice. */
  function FsstatShown(ctx: Ctx, fh: bytes): Seen<FsstatOk> {
    match Resolve(ctx.secret, fh)
    case None => Bad(StatNoent, None)
    case Some(ino) =>
      match ctx.fs.statfs
      case Err(e) => Bad(ErrorStatus(e), Attributes(ctx, ino))
      case Ok(s) =>
        Good(FsstatOk(Attributes(ctx, ino), Sized(s.blocks, s.frsize), Sized(s.bfree, s.frsize), Sized(s.bavail, s.frsize),
                      s.files, s.ffree, s.ffree, 0xFFFF_FFFF))
  }

  lemma SizedIs(a: u64, b: u64)
    ensures SatMul(a, b) == Sized(a, b)
  {
  }

  lemma StatRead(attr: Val, s: StatFs)
    ensures FsstatOf([attr] + StatFields(s)) ==
            FsstatOk(ReadAttributes(attr), Sized(s.blocks, s.frsize), Sized(s.bfree, s.frsize), Sized(s.bavail, s.frsize),
                     s.files, s.ffree, s.ffree, 0xFFFF_FFFF)
  {
    SizedIs(s.blocks, s.frsize);
    SizedIs(s.bfree, s.frsize);
    SizedIs(s.bavail, s.frsize);
  }

  lemma FsstatDecodes(ctx: Ctx, fh: bytes)
    ensures DecodeFsstat(Enc(FsstatAnswer(ctx, fh))) == FsstatShown(ctx, fh)
  {
    FsstatTyped(ctx, fh);
    Decoded(FSSTAT_RES, FsstatOf, FsstatAnswer(ctx, fh));
    match Resolve(ctx.secret, fh)
    case None => StaleTaken(FsstatOf);
    case Some(ino) =>
      AttributesRead(ctx, ino);
      match ctx.fs.statfs
      case Ok(s) => StatRead(PostOp(ctx, ino), s);
      case Err(e) => ErrorTaken(FsstatOf, e, PostOp(ctx, ino));
  }

  lemma FsstatSeen(ctx: Ctx, fh: bytes, out: ProcOutcome)
    requires |fh| <= 64 && Replied(18, [VOpaque(fh)], ctx, out)
    ensures out.Success? && DecodeFsstat(out.body) == FsstatShown(ctx, fh)
  {
    ObjectArgs(18, fh);
    AnswerArrives(18, [VOpaque(fh)], ctx, out);
    FsstatDecodes(ctx, fh);
  }

  /** FSINFO: reads and writes of at most 1 MiB, a granularity of one second, FSF3_HOMOGENEOUS. */
  function FsinfoShown(ctx: Ctx, fh: bytes): Seen<FsinfoOk> {
    match Resolve(ctx.secret, fh)
    case None => Bad(StatNoent, None)
    case Some(ino) =>
      Good(FsinfoOk(Attributes(ctx, ino), 0x10_0000, 0x10_0000, 4096, 0x10_0000, 0x10_0000, 4096, 32768,
                    0xFFFF_FFFF_FFFF_FFFF, Time3(1, 0), 8))
  }

  lemma InfoRead(attr: Val)
    ensures FsinfoOf([attr] + (INFO_SIZES + INFO_REST)) ==
            FsinfoOk(ReadAttributes(attr), 0x10_0000, 0x10_0000, 4096, 0x10_0000, 0x10_0000, 4096, 32768,
                     0xFFFF_FFFF_FFFF_FFFF, Time3(1, 0), 8)
  {
  }

  lemma FsinfoDecodes(ctx: Ctx, fh: bytes)
    ensures DecodeFsinfo(Enc(FsinfoAnswer(ctx, fh))) == FsinfoShown(ctx, fh)
  {
    FsinfoTyped(ctx, fh);
    Decoded(FSINFO_RES, FsinfoOf, FsinfoAnswer(ctx, fh));
    match Resolve(ctx.secret, fh)
    case None => StaleTaken(FsinfoOf);
    case Some(ino) =>
      AttributesRead(ctx, ino);
      InfoRead(PostOp(ctx, ino));
  }

  lemma FsinfoSeen(ctx: Ctx, fh: bytes, out: ProcOutcome)
    requires |fh| <= 64 && Replied(19, [VOpaque(fh)], ctx, out)
    ensures out.Success? && DecodeFsinfo(out.body) == FsinfoShown(ctx, fh)
  {
    ObjectArgs(19, fh);
    AnswerArrives(19, [VOpaque(fh)], ctx, out);
    FsinfoDecodes(ctx, fh);
  }

  /** PATHCONF: one link, names of 255 bytes, kept as they are and told apart by case. */
  function PathconfShown(ctx: Ctx, fh: bytes): Seen<PathconfOk> {
    match Resolve(ctx.secret, fh)
    case None => Bad(StatNoent, None)
    case Some(ino) => Good(PathconfOk(Attributes(ctx, ino), 1, 255, true, true, false, true))
  }

  lemma PathconfDecodes(ctx: Ctx, fh: bytes)
    ensures DecodePathconf(Enc(PathconfAnswer(ctx, fh))) == PathconfShown(ctx, fh)
  {
    PathconfTyped(ctx, fh);
    Decoded(PATHCONF_RES, PathconfOf, PathconfAnswer(ctx, fh));
    match Resolve(ctx.secret, fh)
    case None => StaleTaken(PathconfOf);
    case Some(ino) => AttributesRead(ctx, ino);
  }

  lemma PathconfSeen(ctx: Ctx, fh: bytes, out: ProcOutcome)
    requires |fh| <= 64 && Replied(20, [VOpaque(fh)], ctx, out)
    ensures out.Success? && DecodePathconf(out.body) == PathconfShown(ctx, fh)
  {
    ObjectArgs(20, fh);
    AnswerArrives(20, [VOpaque(fh)], ctx, out);
    PathconfDecodes(ctx, fh);
  }

  function FieldsOf(fs: seq<Val>): seq<Val> {
    fs
  }

  lemma RefusalTaken(proc: u32)
    requires Refused(proc)
    ensures Take(FieldsOf, Refusal(proc)) == Bad(if proc in {5, 10} then StatNotsupp else StatRofs, None)
  {
  }

  lemma RefusalDecodes(proc: u32)
    requires proc in {2, 5, 7, 8, 9, 10, 11, 12, 13, 14, 15, 21}
    ensures Decode(ResTy(proc), FieldsOf, Enc(Refusal(proc))) == Bad(if proc in {5, 10} then StatNotsupp else StatRofs, None)
  {
    RefusalTyped(proc);
    RefusalTaken(proc);
    Decoded(ResTy(proc), FieldsOf, Refusal(proc));
  }

  /** READLINK and SYMLINK are not supported, everything else that would write meets a read-only file system, whatever the arguments. */
  lemma RefusalSeen(proc: u32, input: bytes, ctx: Ctx, out: ProcOutcome)
    requires proc in {2, 5, 7, 8, 9, 10, 11, 12, 13, 14, 15, 21}
    requires Dispatched(proc, input, ctx, out)
    ensures out.Success? && Decode(ResTy(proc), FieldsOf, out.body) == Bad(if proc in {5, 10} then StatNotsupp else StatRofs, None)
  {
    assert ArgTys(proc) == [];
    assert out == Success(Enc(Refusal(proc)));
    RefusalDecodes(proc);
  }

  /** NULL answers nothing, and exactly the procedures past COMMIT are unavailable. */
  lemma OthersSeen(proc: u32, input: bytes, ctx: Ctx, out: ProcOutcome)
    requires Dispatched(proc, input, ctx, out)
    ensures proc == 0 ==> out == Success([])
    ensures proc > 21 <==> out == ProcUnavail
  {
  }

  /** A handle of more than 64 bytes is garbage. */
  lemma LongHandleGarbage(proc: u32, fh: bytes, rest: bytes, ctx: Ctx, out: ProcOutcome)
    requires proc in {1, 3, 4, 6, 16, 17, 18, 19, 20} && 64 < |fh| <= 0xFFFF_FFFF
    requires Dispatched(proc, Enc(VOpaque(fh)) + rest, ctx, out)
    ensures out == GarbageArgs
  {
    var ts := ArgTys(proc);
    assert ts[0] == TOpaque(64);
    OverLimit([], [], 64, ts[1..], fh, rest);
    assert [] + [TOpaque(64)] + ts[1..] == ts;
    assert EncAll([]) + (Enc(VOpaque(fh)) + rest) == Enc(VOpaque(fh)) + rest;
  }

  /** So is a name of more than 1024 bytes. */
  lemma LongNameGarbage(fh: bytes, name: bytes, rest: bytes, ctx: Ctx, out: ProcOutcome)
    requires |fh| <= 64 && 1024 < |name| <= 0xFFFF_FFFF
    requires Dispatched(3, EncAll([VOpaque(fh), VOpaque(name)]) + rest, ctx, out)
    ensures out == GarbageArgs
  {
    var ts, vs := [TOpaque(64), TOpaque(1024)], [VOpaque(fh), VOpaque(name)];
    assert HaveTypes(ts[..1], vs[..1]);
    FieldOverLimit(ts, vs, 1, 1024, rest);
  }

  // ---------------------------------------------------------------- listings

  /** An entry as a client is to see it: with `plus`, its own attributes and handle, or neither. */
  function AsEntry3(ctx: Ctx, e: Entry, plus: bool): Entry3 {
    var attributes := if plus then Attributes(ctx, e.ino) else None;
    Entry3(e.ino, e.name, e.cookie, attributes, if attributes.Some? then Some(EncodeHandle(ctx.secret, e.ino)) else None)
  }

  function AsEntries(ctx: Ctx, es: seq<Entry>, plus: bool): (r: seq<Entry3>)
    ensures |r| == |es|
  {
    seq(|es|, i requires 0 <= i < |es| => AsEntry3(ctx, es[i], plus))
  }

  lemma EntryRead(ctx: Ctx, e: Entry, plus: bool)
    ensures ReadEntry3(DirentVal(ctx, e, plus)) == AsEntry3(ctx, e, plus)
  {
    if plus {
      AttributesRead(ctx, e.ino);
    }
  }

  lemma EntriesRead(ctx: Ctx, es: seq<Entry>, plus: bool, n: nat)
    requires n <= |es|
    ensures ReadEntries(VList(DirentVals(ctx, es, plus)[..n])) == AsEntries(ctx, es[..n], plus)
  {
    forall i | 0 <= i < n
      ensures ReadEntry3(DirentVals(ctx, es, plus)[i]) == AsEntry3(ctx, es[i], plus)
    {
      EntryRead(ctx, es[i], plus);
    }
  }

  /** What a listing that stopped there is to show. */
  function StoppedShown(ctx: Ctx, dir: u64, cookie: u64, plus: bool, stop: Stop): Seen<ListingOk> {
    match stop
    case PageFailed(_, e) => Bad(ErrorStatus(e), Attributes(ctx, dir))
    case Overfull(0) => Bad(StatToosmall, Attributes(ctx, dir))
    case _ =>
      Good(ListingOk(Attributes(ctx, dir), [0, 0, 0, 0, 0, 0, 0, 0],
                     AsEntries(ctx, HandedOut(ctx, dir, cookie, stop.n), plus), stop.Exhausted?))
  }

  /** READDIR and READDIRPLUS show the entries handed out up to where the listing stopped, and whether that was the end. */
  ghost predicate ListingShown(ctx: Ctx, fh: bytes, cookie: u64, limit: u32, plus: bool, seen: Seen<ListingOk>) {
    match Resolve(ctx.secret, fh)
    case None => seen == Bad(StatNoent, None)
    case Some(dir) =>
      exists stop ::
        MayStop(ctx, dir, cookie, if limit <= 128 then 0 else limit - 128, plus, stop)
        && seen == StoppedShown(ctx, dir, cookie, plus, stop)
  }

  lemma PageTaken(ctx: Ctx, dir: u64, es: seq<Entry>, plus: bool, n: nat, eof: bool)
    requires n <= |es|
    ensures
      Take(ListingOf, StatusVal(0, [PostOp(ctx, dir), VFixed(COOKIEVERF), VList(DirentVals(ctx, es, plus)[..n]), VBool(eof)]))
      == Good(ListingOk(Attributes(ctx, dir), [0, 0, 0, 0, 0, 0, 0, 0], AsEntries(ctx, es[..n], plus), eof))
  {
    AttributesRead(ctx, dir);
    EntriesRead(ctx, es, plus, n);
  }

  lemma HandedFront(ctx: Ctx, dir: u64, cookie: u64, stop: Stop)
    requires stop.n <= |Handed(ctx, dir, cookie, stop)|
    ensures Handed(ctx, dir, cookie, stop)[..stop.n] == HandedOut(ctx, dir, cookie, stop.n)
  {
    OfferedPrefix(TailAfter(ctx.fs, dir, Synthesize, cookie), stop.n, if stop.Overfull? then stop.n + 1 else stop.n);
  }

  lemma StopTaken(ctx: Ctx, dir: u64, cookie: u64, limit: u32, plus: bool, stop: Stop)
    requires MayStop(ctx, dir, cookie, SatSub(limit, DIRLIST_OVERHEAD), plus, stop)
    ensures Take(ListingOf, ListingAnswer(ctx, dir, cookie, limit, plus, stop)) == StoppedShown(ctx, dir, cookie, plus, stop)
  {
    AttributesRead(ctx, dir);
    if stop.PageFailed? {
      ErrorTaken(ListingOf, stop.error, PostOp(ctx, dir));
    } else {
      BuiltAnswer(ctx, dir, cookie, limit, plus, stop);
      HandedFront(ctx, dir, cookie, stop);
      if stop.n > 0 || stop.Exhausted? {
        PageTaken(ctx, dir, Handed(ctx, dir, cookie, stop), plus, stop.n, stop.Exhausted?);
      } else {
        FailTaken(ListingOf, NFS3ERR_TOOSMALL, PostOp(ctx, dir));
      }
    }
  }

  lemma ListingDecodes(ctx: Ctx, fh: bytes, cookie: u64, limit: u32, plus: bool, v: Val)
    requires IsReaddirAnswer(ctx, fh, cookie, limit, plus, v)
    ensures ListingShown(ctx, fh, cookie, limit, plus, DecodeListing(plus, Enc(v)))
  {
    ListingTyped(ctx, fh, cookie, limit, plus, v);
    Decoded(ListingTy(plus), ListingOf, v);
    match Resolve(ctx.secret, fh)
    case None => StaleTaken(ListingOf);
    case Some(dir) =>
      var stop :| MayStop(ctx, dir, cookie, SatSub(limit, DIRLIST_OVERHEAD), plus, stop)
                  && v == ListingAnswer(ctx, dir, cookie, limit, plus, stop);
      StopTaken(ctx, dir, cookie, limit, plus, stop);
  }

  /** READDIR(PLUS) replies with one of the answers it may come to. */
  lemma ListingArrives(plus: bool, args: seq<Val>, ctx: Ctx, out: ProcOutcome)
    requires HaveTypes(ArgTys(if plus then 17 else 16), args) && Replied(if plus then 17 else 16, args, ctx, out)
    ensures exists v :: ListsFrom(args, if plus then 4 else 3, ctx, plus, v) && out == Success(Enc(v))
  {
    var proc := if plus then 17 else 16;
    AllRoundTrip(ArgTys(proc), args, []);
    assert EncAll(args) + [] == EncAll(args);
    var v :| IsAnswer(proc, args, ctx, v) && out == Success(Enc(v));
  }

  lemma ReaddirSeen(ctx: Ctx, fh: bytes, cookie: u64, verf: bytes, limit: u32, out: ProcOutcome)
    requires |fh| <= 64 && |verf| == 8 && Replied(16, [VOpaque(fh), VU64(cookie), VFixed(verf), VU32(limit)], ctx, out)
    ensures out.Success? && ListingShown(ctx, fh, cookie, limit, false, DecodeListing(false, out.body))
  {
    var args := [VOpaque(fh), VU64(cookie), VFixed(verf), VU32(limit)];
    ReaddirArgTypes(fh, cookie, verf, 0, limit);
    ListingArrives(false, args, ctx, out);
    var v :| ListsFrom(args, 3, ctx, false, v) && out == Success(Enc(v));
    ListingDecodes(ctx, fh, cookie, limit, false, v);
  }

  lemma ReaddirplusSeen(ctx: Ctx, fh: bytes, cookie: u64, verf: bytes, dircount: u32, limit: u32, out: ProcOutcome)
    requires |fh| <= 64 && |verf| == 8
    requires Replied(17, [VOpaque(fh), VU64(cookie), VFixed(verf), VU32(dircount), VU32(limit)], ctx, out)
    ensures out.Success? && ListingShown(ctx, fh, cookie, limit, true, DecodeListing(true, out.body))
  {
    var args := [VOpaque(fh), VU64(cookie), VFixed(verf), VU32(dircount), VU32(limit)];
    ReaddirArgTypes(fh, cookie, verf, dircount, limit);
    ListingArrives(true, args, ctx, out);
    var v :| ListsFrom(args, 4, ctx, true, v) && out == Success(Enc(v));
    ListingDecodes(ctx, fh, cookie, limit, true, v);
  }
}
