/**
 * The NFS program (100003, version 3; RFC 1813 section 3.3): every procedure
 * decodes its arguments from a `Reader` and builds its result in a `Writer`.
 */
module NfsProto {
  import opened Wrappers
  import opened Xdr
  import opened XdrCursor
  import opened ReadOnlyFs
  import opened FileHandle
  import opened Listing
  import opened Paging
  import opened NfsTypes
  import opened NfsAnswers
  import opened Packing
  import opened RpcCall

  // ---------------------------------------------------------------- result pieces

  method WriteNfsTime3(w: Writer, t: SystemTime)
    requires w.Valid()
    modifies w
    ensures w.Valid() && w.fields == old(w.fields) + [TimeVal(t)]
  {
    ghost var before := w.fields;
    if t.secs < 0 {
      w.WriteU32(0);
      w.WriteU32(0);
    } else {
      w.WriteU32(Low32(t.secs));
      w.WriteU32(t.nanos);
    }
    w.Group(before, TimeVal(t).fields, TimeVal(t));
  }

  method WriteFattrHead(w: Writer, a: FileAttr)
    requires w.Valid()
    modifies w
    ensures w.Valid() && w.fields == old(w.fields) + FattrHead(a)
  {
    w.WriteU32(FileType(a.kind));
    w.WriteU32(a.perm);
    w.WriteU32(a.nlink);
    w.WriteU32(a.uid);
    w.WriteU32(a.gid);
    w.WriteU64(a.size);
    w.WriteU64(a.size);
  }

  method WriteFattrTail(w: Writer, a: FileAttr, fsid: u64)
    requires w.Valid()
    modifies w
    ensures w.Valid() && w.fields == old(w.fields) + FattrTail(a, fsid)
  {
    w.WriteU32(0);
    w.WriteU32(0);
    w.WriteU64(fsid);
    w.WriteU64(a.ino);
    WriteNfsTime3(w, a.atime);
    WriteNfsTime3(w, a.mtime);
    WriteNfsTime3(w, a.ctime);
  }

  method WriteFattr3(w: Writer, a: FileAttr, fsid: u64)
    requires w.Valid()
    modifies w
    ensures w.Valid() && w.fields == old(w.fields) + FattrFields(a, fsid)
  {
    WriteFattrHead(w, a);
    WriteFattrTail(w, a, fsid);
  }

  method WritePostOp(w: Writer, a: Option<FileAttr>, fsid: u64)
    requires w.Valid()
    modifies w
    ensures w.Valid() && w.fields == old(w.fields) + [PostOpVal(a, fsid)]
  {
    ghost var before := w.fields;
    match a
    case Some(attr) =>
      w.WriteBool(true);
      WriteFattr3(w, attr, fsid);
      ghost var parts := [VBool(true)] + FattrFields(attr, fsid);
      assert w.fields == before + parts;
      assert parts[1..] == FattrFields(attr, fsid);
      w.Group(before, parts, PostOpVal(a, fsid));
    case None =>
      w.WriteBool(false);
      OneField(VBool(false));
      w.Group(before, [VBool(false)], VNone);
  }

  method WritePostOpBestEffort(w: Writer, ctx: Ctx, ino: u64)
    requires w.Valid()
    modifies w
    ensures w.Valid() && w.fields == old(w.fields) + [PostOp(ctx, ino)]
  {
    var a := ctx.fs.getattr(ino);
    match a
    case Ok(attr) => WritePostOp(w, Some(attr), ctx.fsid);
    case Err(_) => WritePostOp(w, None, ctx.fsid);
  }

  method WriteWccDataZero(w: Writer)
    requires w.Valid()
    modifies w
    ensures w.Valid() && w.fields == old(w.fields) + [NO_WCC]
  {
    w.WriteBool(false);
    w.WriteBool(false);
    assert [VNone, VNone][1..] == [VNone];
    w.Group(old(w.fields), [VBool(false), VBool(false)], NO_WCC);
  }

  /** The finished body of a result: the status word, then the fields of its arm. */
  method Finish(w: Writer, ghost code: u32, ghost fields: seq<Val>) returns (out: ProcOutcome)
    requires w.Valid() && w.fields == [VU32(code)] + fields
    ensures out == Success(Enc(StatusVal(code, fields)))
  {
    StatusBody(code, fields);
    return Success(w.buf);
  }

  method FailWith(code: u32, attr: Option<FileAttr>, fsid: u64) returns (out: ProcOutcome)
    ensures out == Success(Enc(Fail(code, PostOpVal(attr, fsid))))
  {
    var w := new Writer();
    w.WriteU32(code);
    WritePostOp(w, attr, fsid);
    out := Finish(w, code, [PostOpVal(attr, fsid)]);
  }

  // ---------------------------------------------------------------- refusals

  method Reject(proc: u32) returns (out: ProcOutcome)
    requires Refused(proc)
    ensures out == Success(Enc(Refusal(proc)))
  {
    var w := new Writer();
    w.WriteU32(if proc == 5 || proc == 10 then NFS3ERR_NOTSUPP else NFS3ERR_ROFS);
    if proc == 5 {
      WritePostOp(w, None, 0);
    } else if proc == 14 {
      WriteWccDataZero(w);
      WriteWccDataZero(w);
    } else if proc == 15 {
      WritePostOp(w, None, 0);
      WriteWccDataZero(w);
    } else {
      WriteWccDataZero(w);
    }
    out := Finish(w, Refusal(proc).code, Refusal(proc).res.fields);
  }

  // ---------------------------------------------------------------- queries

  method Getattr(r: Reader, ctx: Ctx) returns (out: ProcOutcome)
    requires r.Valid() && r.seen == []
    modifies r
    ensures
      match ParseAll([FHANDLE3], old(r.Input()))
      case None => out == GarbageArgs
      case Some((args, _)) => args[0].VOpaque? && out == Success(Enc(GetattrAnswer(ctx, args[0].data)))
  {
    assert old(r.seen) + [FHANDLE3] == [FHANDLE3];
    var fh := r.ReadOpaqueVar(64);
    if fh.None? {
      return GarbageArgs;
    }
    var w := new Writer();
    var ino := ResolveHandle(ctx.secret, fh.value);
    match ino
    case Some(i) =>
      var a := ctx.fs.getattr(i);
      match a {
        case Ok(attr) =>
          w.WriteU32(0);
          WriteFattr3(w, attr, ctx.fsid);
          out := Finish(w, 0, FattrFields(attr, ctx.fsid));
        case Err(e) =>
          w.WriteU32(ToNfsStat3(e));
          out := Finish(w, ToNfsStat3(e), []);
      }
    case None =>
      w.WriteU32(NFS3ERR_NOENT);
      out := Finish(w, NFS3ERR_NOENT, []);
  }

  const LOOKUP_ARGS := [FHANDLE3, TOpaque(1024)]
  const ACCESS_ARGS := [FHANDLE3, TU32]
  const READ_ARGS := [FHANDLE3, TU64, TU32]

  method LookupFound(ctx: Ctx, dir: u64, attr: FileAttr) returns (out: ProcOutcome)
    ensures out == Success(Enc(StatusVal(0, [VOpaque(EncodeHandle(ctx.secret, attr.ino)),
                                             PostOpVal(Some(attr), ctx.fsid), PostOp(ctx, dir)])))
  {
    var w := new Writer();
    w.WriteU32(0);
    w.WriteOpaqueVar(EncodeHandle(ctx.secret, attr.ino));
    WritePostOp(w, Some(attr), ctx.fsid);
    WritePostOpBestEffort(w, ctx, dir);
    out := Finish(w, 0, [VOpaque(EncodeHandle(ctx.secret, attr.ino)), PostOpVal(Some(attr), ctx.fsid), PostOp(ctx, dir)]);
  }

  method Lookup(r: Reader, ctx: Ctx) returns (out: ProcOutcome)
    requires r.Valid() && r.seen == []
    modifies r
    ensures
      match ParseAll(LOOKUP_ARGS, old(r.Input()))
      case None => out == GarbageArgs
      case Some((args, _)) =>
        && args[0].VOpaque? && args[1].VOpaque?
        && out == Success(Enc(LookupAnswer(ctx, args[0].data, args[1].data)))
  {
    var fh := r.ReadOpaqueVar(64);
    if fh.None? {
      assert LOOKUP_ARGS[..1] == [] + [FHANDLE3];
      Stuck(LOOKUP_ARGS, 1, r.Input());
      return GarbageArgs;
    }
    var name := r.ReadOpaqueVar(1024);
    assert [] + [FHANDLE3] + [TOpaque(1024)] == LOOKUP_ARGS;
    if name.None? {
      return GarbageArgs;
    }
    var dir := ResolveHandle(ctx.secret, fh.value);
    if dir.None? {
      out := FailWith(NFS3ERR_NOENT, None, ctx.fsid);
      return;
    }
    var found := ctx.fs.lookup(dir.value, name.value);
    match found
    case Ok(attr) => out := LookupFound(ctx, dir.value, attr);
    case Err(e) => out := FailWith(ToNfsStat3(e), AttrOf(ctx, dir.value), ctx.fsid);
  }

  method AccessFound(ctx: Ctx, attr: FileAttr, requested: u32) returns (out: ProcOutcome)
    ensures out == Success(Enc(StatusVal(0, [PostOpVal(Some(attr), ctx.fsid), VU32(Granted(requested))])))
  {
    var w := new Writer();
    w.WriteU32(0);
    WritePostOp(w, Some(attr), ctx.fsid);
    w.WriteU32(Granted(requested));
    out := Finish(w, 0, [PostOpVal(Some(attr), ctx.fsid), VU32(Granted(requested))]);
  }

  method Access(r: Reader, ctx: Ctx) returns (out: ProcOutcome)
    requires r.Valid() && r.seen == []
    modifies r
    ensures
      match ParseAll(ACCESS_ARGS, old(r.Input()))
      case None => out == GarbageArgs
      case Some((args, _)) =>
        && args[0].VOpaque? && args[1].VU32?
        && out == Success(Enc(AccessAnswer(ctx, args[0].data, args[1].n)))
  {
    var fh := r.ReadOpaqueVar(64);
    if fh.None? {
      assert ACCESS_ARGS[..1] == [] + [FHANDLE3];
      Stuck(ACCESS_ARGS, 1, r.Input());
      return GarbageArgs;
    }
    var requested := r.ReadU32();
    assert [] + [FHANDLE3] + [TU32] == ACCESS_ARGS;
    if requested.None? {
      return GarbageArgs;
    }
    var ino := ResolveHandle(ctx.secret, fh.value);
    if ino.None? {
      out := FailWith(NFS3ERR_NOENT, None, ctx.fsid);
      return;
    }
    var a := ctx.fs.getattr(ino.value);
    match a
    case Ok(attr) => out := AccessFound(ctx, attr, requested.value);
    case Err(e) => out := FailWith(ToNfsStat3(e), None, ctx.fsid);
  }

  /** The calls a READ makes on open files. */
  datatype HandleCall = Opened(ino: u64, handle: u64) | ReadAt(handle: u64, offset: u64, count: u32) | Released(handle: u64)

  /** The files an implementation has open, by handle, after these calls. */
  function AfterCalls(files: map<u64, u64>, calls: seq<HandleCall>): map<u64, u64>
    decreases |calls|
  {
    if calls == [] then files else AfterCalls(AfterCall(files, calls[0]), calls[1..])
  }

  function AfterCall(files: map<u64, u64>, call: HandleCall): map<u64, u64> {
    match call
    case Opened(ino, h) => files[h := ino]
    case ReadAt(_, _, _) => files
    case Released(h) => files - {h}
  }

  /** Calls that leave every set of open files as it was, given that an open brings a handle that is not in use. */
  ghost predicate Balanced(calls: seq<HandleCall>) {
    forall files: map<u64, u64> | Unused(files, calls) :: AfterCalls(files, calls) == files
  }

  predicate Unused(files: map<u64, u64>, calls: seq<HandleCall>) {
    forall i | 0 <= i < |calls| && calls[i].Opened? :: calls[i].handle !in files
  }

  lemma OneReadBalanced(ino: u64, h: u64, offset: u64, count: u32)
    ensures Balanced([Opened(ino, h), ReadAt(h, offset, count), Released(h)])
  {
    var calls := [Opened(ino, h), ReadAt(h, offset, count), Released(h)];
    assert calls[1..] == [ReadAt(h, offset, count), Released(h)] && calls[1..][1..] == [Released(h)] && [Released(h)][1..] == [];
    forall files: map<u64, u64> | Unused(files, calls)
      ensures AfterCalls(files, calls) == files
    {
      assert calls[0].handle !in files;
      var during := files[h := ino];
      assert AfterCalls(files, calls) == AfterCalls(during, calls[1..]) == AfterCalls(during, calls[1..][1..]);
      assert during - {h} == files;
      assert AfterCalls(during, [Released(h)]) == AfterCalls(files, [Released(h)][1..]) == files;
    }
  }

  /**
   * A READ answers from one `read_at` under a handle of its own, opened on the
   * inode it names and released whatever `read_at` does.
   */
  method ReadFile(ctx: Ctx, ino: u64, offset: u64, count: u32) returns (out: ProcOutcome, calls: seq<HandleCall>)
    ensures out == Success(Enc(FileAnswer(ctx, ino, offset, count)))
    ensures
      match ctx.fs.open(ino)
      case Ok(h) => calls == [Opened(ino, h), ReadAt(h, offset, count), Released(h)]
      case Err(_) => calls == []
    ensures Balanced(calls)
  {
    calls := [];
    var attempt := ctx.fs.open(ino);
    if attempt.Err? {
      out := FailWith(ToNfsStat3(attempt.error), AttrOf(ctx, ino), ctx.fsid);
      return;
    }
    var h := attempt.value;
    calls := [Opened(ino, h)];
    var buf := Zeros(count);
    var answer := ctx.fs.readAt(h, offset, count);
    calls := calls + [ReadAt(h, offset, count)];
    OneReadBalanced(ino, h, offset, count);
    match answer
    case Ok(o) =>
      var n := Min(o.reported, |buf|);
      buf := Overlay(buf, o.stored)[..n];
      calls := calls + [Released(h)];
      var attr := AttrOf(ctx, ino);
      var w := new Writer();
      w.WriteU32(0);
      WritePostOp(w, attr, ctx.fsid);
      w.WriteU32(n);
      var eof := attr.Some? && SatAdd(offset, n) >= attr.value.size;
      w.WriteBool(eof);
      w.WriteOpaqueVar(buf);
      out := Finish(w, 0, [PostOpVal(attr, ctx.fsid), VU32(n), VBool(eof), VOpaque(buf)]);
    case Err(e) =>
      calls := calls + [Released(h)];
      out := FailWith(ToNfsStat3(e), AttrOf(ctx, ino), ctx.fsid);
  }

  method Read(r: Reader, ctx: Ctx) returns (out: ProcOutcome, calls: seq<HandleCall>)
    requires r.Valid() && r.seen == []
    modifies r
    ensures
      match ParseAll(READ_ARGS, old(r.Input()))
      case None => out == GarbageArgs && calls == []
      case Some((args, _)) =>
        && args[0].VOpaque? && args[1].VU64? && args[2].VU32?
        && out == Success(Enc(ReadAnswer(ctx, args[0].data, args[1].d, args[2].n)))
        && match Resolve(ctx.secret, args[0].data)
           case None => calls == []
           case Some(ino) =>
             match ctx.fs.open(ino)
             case Ok(h) => calls == [Opened(ino, h), ReadAt(h, args[1].d, Min(args[2].n, 0x10_0000)), Released(h)]
             case Err(_) => calls == []
    ensures Balanced(calls)
  {
    var fh := r.ReadOpaqueVar(64);
    if fh.None? {
      assert READ_ARGS[..1] == [] + [FHANDLE3];
      Stuck(READ_ARGS, 1, r.Input());
      return GarbageArgs, [];
    }
    var offset := r.ReadU64();
    assert READ_ARGS[..2] == [] + [FHANDLE3] + [TU64];
    if offset.None? {
      Stuck(READ_ARGS, 2, r.Input());
      return GarbageArgs, [];
    }
    var count := r.ReadU32();
    assert [] + [FHANDLE3] + [TU64] + [TU32] == READ_ARGS;
    if count.None? {
      return GarbageArgs, [];
    }
    var ino := ResolveHandle(ctx.secret, fh.value);
    if ino.None? {
      out := FailWith(NFS3ERR_NOENT, None, ctx.fsid);
      return out, [];
    }
    out, calls := ReadFile(ctx, ino.value, offset.value, Min(count.value, RTMAX));
  }

  /** The one argument of FSSTAT, FSINFO and PATHCONF. */
  method ReadObject(r: Reader, ctx: Ctx) returns (ok: bool, fh: bytes, ino: Option<u64>)
    requires r.Valid() && r.seen == []
    modifies r
    ensures
      match ParseAll([FHANDLE3], old(r.Input()))
      case None => !ok
      case Some((args, _)) => ok && args[0] == VOpaque(fh) && ino == Resolve(ctx.secret, fh)
  {
    assert old(r.seen) + [FHANDLE3] == [FHANDLE3];
    var read := r.ReadOpaqueVar(64);
    if read.None? {
      return false, [], None;
    }
    ino := ResolveHandle(ctx.secret, read.value);
    return true, read.value, ino;
  }

  /** Saturating: an improbably large filesystem shows a saturated size. */
  method WriteStat(w: Writer, s: StatFs)
    requires w.Valid()
    modifies w
    ensures w.Valid() && w.fields == old(w.fields) + StatFields(s)
  {
    w.WriteU64(SatMul(s.blocks, s.frsize));
    w.WriteU64(SatMul(s.bfree, s.frsize));
    w.WriteU64(SatMul(s.bavail, s.frsize));
    w.WriteU64(s.files);
    w.WriteU64(s.ffree);
    w.WriteU64(s.ffree);
    w.WriteU32(U32_MAX); // invarsec
  }

  method Fsstat(r: Reader, ctx: Ctx) returns (out: ProcOutcome)
    requires r.Valid() && r.seen == []
    modifies r
    ensures
      match ParseAll([FHANDLE3], old(r.Input()))
      case None => out == GarbageArgs
      case Some((args, _)) => args[0].VOpaque? && out == Success(Enc(FsstatAnswer(ctx, args[0].data)))
  {
    var ok, fh, ino := ReadObject(r, ctx);
    if !ok {
      return GarbageArgs;
    }
    if ino.None? {
      out := FailWith(NFS3ERR_NOENT, None, ctx.fsid);
      return;
    }
    match ctx.fs.statfs
    case Ok(s) =>
      var w := new Writer();
      w.WriteU32(0);
      WritePostOpBestEffort(w, ctx, ino.value);
      WriteStat(w, s);
      out := Finish(w, 0, [PostOp(ctx, ino.value)] + StatFields(s));
    case Err(e) => out := FailWith(ToNfsStat3(e), AttrOf(ctx, ino.value), ctx.fsid);
  }

  method WriteInfo(w: Writer)
    requires w.Valid()
    modifies w
    ensures w.Valid() && w.fields == old(w.fields) + INFO_SIZES + INFO_REST
  {
    w.WriteU32(RTMAX);
    w.WriteU32(RTMAX);
    w.WriteU32(4096); // rtmult
    w.WriteU32(RTMAX);
    w.WriteU32(RTMAX);
    w.WriteU32(4096); // wtmult
    assert w.fields == old(w.fields) + INFO_SIZES;
    w.WriteU32(32768); // dtpref
    w.WriteU64(U64_MAX); // maxfilesize
    ghost var beforeDelta := w.fields;
    w.WriteU32(1);
    w.WriteU32(0);
    w.Group(beforeDelta, [VU32(1), VU32(0)], VStruct([VU32(1), VU32(0)]));
    w.WriteU32(8); // FSF3_HOMOGENEOUS
  }

  method Fsinfo(r: Reader, ctx: Ctx) returns (out: ProcOutcome)
    requires r.Valid() && r.seen == []
    modifies r
    ensures
      match ParseAll([FHANDLE3], old(r.Input()))
      case None => out == GarbageArgs
      case Some((args, _)) => args[0].VOpaque? && out == Success(Enc(FsinfoAnswer(ctx, args[0].data)))
  {
    var ok, fh, ino := ReadObject(r, ctx);
    if !ok {
      return GarbageArgs;
    }
    if ino.None? {
      out := FailWith(NFS3ERR_NOENT, None, ctx.fsid);
      return;
    }
    var w := new Writer();
    w.WriteU32(0);
    WritePostOpBestEffort(w, ctx, ino.value);
    WriteInfo(w);
    out := Finish(w, 0, FsinfoAnswer(ctx, fh).res.fields);
  }

  method Pathconf(r: Reader, ctx: Ctx) returns (out: ProcOutcome)
    requires r.Valid() && r.seen == []
    modifies r
    ensures
      match ParseAll([FHANDLE3], old(r.Input()))
      case None => out == GarbageArgs
      case Some((args, _)) => args[0].VOpaque? && out == Success(Enc(PathconfAnswer(ctx, args[0].data)))
  {
    var ok, fh, ino := ReadObject(r, ctx);
    if !ok {
      return GarbageArgs;
    }
    if ino.None? {
      out := FailWith(NFS3ERR_NOENT, None, ctx.fsid);
      return;
    }
    var w := new Writer();
    w.WriteU32(0);
    WritePostOpBestEffort(w, ctx, ino.value);
    w.WriteU32(1);
    w.WriteU32(255);
    w.WriteBool(true);
    w.WriteBool(true);
    w.WriteBool(false);
    w.WriteBool(true);
    out := Finish(w, 0, PathconfAnswer(ctx, fh).res.fields);
  }

  // ---------------------------------------------------------------- listings

  method WriteEntryHandle(w: Writer, h: Option<bytes>)
    requires w.Valid()
    modifies w
    ensures w.Valid()
    ensures w.fields == old(w.fields) + [if h.Some? then VSome(VOpaque(h.value)) else VNone]
  {
    ghost var before := w.fields;
    match h
    case Some(handle) =>
      w.WriteBool(true);
      w.WriteOpaqueVar(handle);
      ghost var parts := [VBool(true), VOpaque(handle)];
      TwoFields(VBool(true), VOpaque(handle));
      w.Group(before, parts, VSome(VOpaque(handle)));
    case None =>
      w.WriteBool(false);
      OneField(VBool(false));
      w.Group(before, [VBool(false)], VNone);
  }

  lemma OneLink(entry: Val)
    requires entry.VStruct?
    ensures EncAll([VBool(true)] + entry.fields) == EncLinks([entry])
  {
    assert ([VBool(true)] + entry.fields)[1..] == entry.fields;
    var es := [entry];
    assert es[1..] == [];
    assert EncLinks(es) == Be32(1) + Enc(entry) + EncLinks([]);
  }

  /** Encode one entry; these are the bytes the packing sink weighs. */
  method EncodeDirent(ctx: Ctx, e: Entry, plus: bool) returns (encoded: bytes)
    ensures encoded == DirentBytes(ctx, e, plus)
  {
    var w := new Writer();
    w.WriteBool(true); // value_follows
    w.WriteU64(e.ino);
    w.WriteOpaqueVar(e.name);
    w.WriteU64(e.cookie);
    if plus {
      var attr := AttrOf(ctx, e.ino);
      WritePostOp(w, attr, ctx.fsid);
      WriteEntryHandle(w, if attr.Some? then Some(EncodeHandle(ctx.secret, e.ino)) else None);
    }
    ghost var entry := DirentVal(ctx, e, plus);
    assert w.fields == [VBool(true)] + entry.fields;
    OneLink(entry);
    return w.buf;
  }

  datatype DirList = DirList(entries: bytes, eof: bool, packed: nat)

  /** What packing leaves when it stops there: the links of the entries that fit, and whether they were all. */
  ghost function BuiltAt(ctx: Ctx, dir: u64, cookie: u64, plus: bool, stop: Stop): FsResult<DirList>
    requires stop.n <= |Handed(ctx, dir, cookie, stop)|
  {
    if stop.PageFailed? then Err(stop.error)
    else Ok(DirList(EncLinks(DirentVals(ctx, Handed(ctx, dir, cookie, stop), plus)[..stop.n]), stop.Exhausted?, stop.n))
  }

  /** Pack as many of the entries handed out into `budget` bytes as fit. */
  method BuildDirlist(ctx: Ctx, dir: u64, startCookie: u64, budget: u32, plus: bool)
    returns (r: FsResult<DirList>)
    ensures exists stop :: MayStop(ctx, dir, startCookie, budget, plus, stop) && r == BuiltAt(ctx, dir, startCookie, plus, stop)
  {
    PackSettles(ctx, plus, TailAfter(ctx.fs, dir, Synthesize, startCookie), budget);
    var eof, pack;
    eof, pack := Emit(ctx.fs, dir, startCookie, Synthesize, PackSink(ctx, plus), Pack([], budget, 0), budget + 1);
    ghost var t := TailAfter(ctx.fs, dir, Synthesize, startCookie);
    ghost var n: nat :| Walked(ctx.fs, dir, t, PackSink(ctx, plus), Pack([], budget, 0), n, eof, pack);
    PackWalked(ctx, dir, startCookie, budget, plus, n, eof, pack);
    ghost var stop := StopOf(n, eof);
    match eof
    case Err(e) => r := Err(e);
    case Ok(all) => r := Ok(DirList(pack.entries, all, pack.packed));
    assert r == BuiltAt(ctx, dir, startCookie, plus, stop);
  }

  const LISTING_HEAD := [FHANDLE3, TU64, VERF]

  /** The arguments READDIR and READDIRPLUS start with; the verifier is not looked at. */
  method ReaddirHead(r: Reader) returns (ok: bool, fh: bytes, cookie: u64)
    requires r.Valid() && r.seen == []
    modifies r
    ensures r.base == old(r.base) <= |r.buf|
    ensures !ok ==> ParseAll(LISTING_HEAD, r.Input()) == None
    ensures ok ==> r.Valid() && r.seen == LISTING_HEAD && r.got[0] == VOpaque(fh) && r.got[1] == VU64(cookie)
  {
    var h := r.ReadOpaqueVar(64);
    if h.None? {
      assert LISTING_HEAD[..1] == [] + [FHANDLE3];
      Stuck(LISTING_HEAD, 1, r.Input());
      return false, [], 0;
    }
    var c := r.ReadU64();
    assert LISTING_HEAD[..2] == [] + [FHANDLE3] + [TU64];
    if c.None? {
      Stuck(LISTING_HEAD, 2, r.Input());
      return false, [], 0;
    }
    var verf := r.ReadOpaqueFixed(8);
    assert LISTING_HEAD == [] + [FHANDLE3] + [TU64] + [VERF];
    if verf.None? {
      return false, [], 0;
    }
    return true, h.value, c.value;
  }

  method ReaddirArgs(r: Reader, plus: bool) returns (ok: bool, fh: bytes, cookie: u64, limit: u32)
    requires r.Valid() && r.seen == []
    modifies r
    ensures
      var proc := if plus then 17 else 16;
      match ParseAll(ArgTys(proc), old(r.Input()))
      case None => !ok
      case Some((args, _)) =>
        && ok && args[0] == VOpaque(fh) && args[1] == VU64(cookie)
        && args[if plus then 4 else 3] == VU32(limit)
  {
    ghost var tys := ArgTys(if plus then 17 else 16);
    limit := 0;
    ok, fh, cookie := ReaddirHead(r);
    assert tys[..3] == LISTING_HEAD;
    if !ok {
      Stuck(tys, 3, r.Input());
      return;
    }
    if plus {
      var dircount := r.ReadU32();
      assert tys[..4] == LISTING_HEAD + [TU32];
      if dircount.None? {
        Stuck(tys, 4, r.Input());
        return false, [], 0, 0;
      }
    }
    ghost var before := r.seen;
    var n := r.ReadU32();
    assert tys == before + [TU32];
    if n.None? {
      return false, [], 0, 0;
    }
    limit := n.value;
  }

  method WriteDirlist(ctx: Ctx, dir: u64, list: DirList, ghost vs: seq<Val>) returns (out: ProcOutcome)
    requires list.entries == EncLinks(vs)
    ensures out == Success(Enc(StatusVal(0, [PostOp(ctx, dir), VFixed(COOKIEVERF), VList(vs), VBool(list.eof)])))
  {
    var w := new Writer();
    w.WriteU32(0);
    WritePostOpBestEffort(w, ctx, dir);
    w.WriteOpaqueFixed(COOKIEVERF);
    ghost var before := w.fields;
    w.ExtendFrom(list.entries);
    w.WriteBool(false); // list terminator
    ghost var parts := [VRaw(list.entries), VBool(false)];
    TwoFields(VRaw(list.entries), VBool(false));
    w.Group(before, parts, VList(vs));
    w.WriteBool(list.eof);
    out := Finish(w, 0, [PostOp(ctx, dir), VFixed(COOKIEVERF), VList(vs), VBool(list.eof)]);
  }

  method ReaddirCommon(r: Reader, ctx: Ctx, plus: bool) returns (out: ProcOutcome)
    requires r.Valid() && r.seen == []
    modifies r
    ensures
      var proc := if plus then 17 else 16;
      match ParseAll(ArgTys(proc), old(r.Input()))
      case None => out == GarbageArgs
      case Some((args, _)) =>
        && args[0].VOpaque? && args[1].VU64? && args[if plus then 4 else 3].VU32?
        && exists v :: IsReaddirAnswer(ctx, args[0].data, args[1].d, args[if plus then 4 else 3].n, plus, v)
                       && out == Success(Enc(v))
  {
    var ok, fh, cookie, limit := ReaddirArgs(r, plus);
    if !ok {
      return GarbageArgs;
    }
    out := ListDirectory(ctx, fh, cookie, limit, plus);
  }

  /** The answer in terms of what packing left. */
  lemma BuiltAnswer(ctx: Ctx, dir: u64, cookie: u64, limit: u32, plus: bool, stop: Stop)
    requires MayStop(ctx, dir, cookie, SatSub(limit, DIRLIST_OVERHEAD), plus, stop) && !stop.PageFailed?
    ensures
      var vs := DirentVals(ctx, Handed(ctx, dir, cookie, stop), plus);
      ListingAnswer(ctx, dir, cookie, limit, plus, stop) ==
      if stop.n == 0 && !stop.Exhausted? then Fail(NFS3ERR_TOOSMALL, PostOp(ctx, dir))
      else StatusVal(0, [PostOp(ctx, dir), VFixed(COOKIEVERF), VList(vs[..stop.n]), VBool(stop.Exhausted?)])
  {
    if stop.Exhausted? {
      AskedAfterAll(TailAfter(ctx.fs, dir, Synthesize, cookie), stop.n);
    }
  }

  method ListDirectory(ctx: Ctx, fh: bytes, cookie: u64, limit: u32, plus: bool) returns (out: ProcOutcome)
    ensures exists v :: IsReaddirAnswer(ctx, fh, cookie, limit, plus, v) && out == Success(Enc(v))
  {
    var found := ResolveHandle(ctx.secret, fh);
    if found.None? {
      out := FailWith(NFS3ERR_NOENT, None, ctx.fsid);
      return;
    }
    var dir := found.value;
    var answer := BuildDirlist(ctx, dir, cookie, SatSub(limit, DIRLIST_OVERHEAD), plus);
    ghost var budget := SatSub(limit, DIRLIST_OVERHEAD);
    ghost var stop :| MayStop(ctx, dir, cookie, budget, plus, stop) && answer == BuiltAt(ctx, dir, cookie, plus, stop);
    if !stop.PageFailed? {
      BuiltAnswer(ctx, dir, cookie, limit, plus, stop);
    }
    assert IsListing(ctx, dir, cookie, limit, plus, ListingAnswer(ctx, dir, cookie, limit, plus, stop));
    match answer
    case Ok(list) =>
      ghost var vs := DirentVals(ctx, Handed(ctx, dir, cookie, stop), plus);
      if list.packed == 0 && !list.eof {
        out := FailWith(NFS3ERR_TOOSMALL, AttrOf(ctx, dir), ctx.fsid);
      } else {
        out := WriteDirlist(ctx, dir, list, vs[..list.packed]);
      }
    case Err(e) =>
      out := FailWith(ToNfsStat3(e), AttrOf(ctx, dir), ctx.fsid);
  }

  // ---------------------------------------------------------------- routing

  /**
   * What a call to procedure `proc` with argument bytes `input` may answer, whatever the implementation does:
   * arguments that do not parse are garbage, unknown procedures unavailable,
   * and everything else gets an encoded answer of the procedure.
   */
  ghost predicate Dispatched(proc: u32, input: bytes, ctx: Ctx, out: ProcOutcome)
  {
    if proc >= PROC_COUNT then out == ProcUnavail
    else
      match ParseAll(ArgTys(proc), input)
      case None => out == GarbageArgs
      case Some((args, rest)) =>
        AllTyped(ArgTys(proc), input);
        exists v :: IsAnswer(proc, args, ctx, v) && out == Success(Enc(v))
  }

  /** Every answer to arguments that parse is one that may be given. */
  lemma AnswerMayBeGiven(proc: u32, input: bytes, args: seq<Val>, ctx: Ctx, v: Val)
    requires proc < PROC_COUNT
    requires ParseAll(ArgTys(proc), input) == Some((args, [])) && HaveTypes(ArgTys(proc), args)
    requires IsAnswer(proc, args, ctx, v)
    ensures Dispatched(proc, input, ctx, Success(Enc(v)))
  {
  }

  /** The procedures that ask about one file. */
  method Query(proc: u32, r: Reader, ctx: Ctx) returns (out: ProcOutcome, calls: seq<HandleCall>)
    requires proc == 1 || proc == 3 || proc == 4 || proc == 6
    requires r.Valid() && r.seen == []
    modifies r
    ensures
      match ParseAll(ArgTys(proc), old(r.Input()))
      case None => out == GarbageArgs
      case Some((args, _)) => HaveTypes(ArgTys(proc), args) && out == Success(Enc(Answer(proc, args, ctx)))
    ensures Balanced(calls)
  {
    calls := [];
    ghost var input := r.Input();
    if ParseAll(ArgTys(proc), input).Some? {
      AllTyped(ArgTys(proc), input);
    }
    if proc == 1 {
      out := Getattr(r, ctx);
    } else if proc == 3 {
      out := Lookup(r, ctx);
    } else if proc == 4 {
      out := Access(r, ctx);
    } else {
      out, calls := Read(r, ctx);
    }
  }

  /** Whatever the call, it leaves no file open that was not open before. */
  method Dispatch(proc: u32, r: Reader, ctx: Ctx) returns (out: ProcOutcome, calls: seq<HandleCall>)
    requires r.Valid()
    modifies r
    ensures Dispatched(proc, old(r.buf[r.pos..]), ctx, out)
    ensures Balanced(calls)
  {
    calls := [];
    r.Mark();
    ghost var input := r.Input();
    if proc < PROC_COUNT && ParseAll(ArgTys(proc), input).Some? {
      AllTyped(ArgTys(proc), input);
    }
    if proc == 0 {
      var w := new Writer();
      out := Success(w.buf);
      assert Enc(UNIT) == [];
    } else if proc == 1 || proc == 3 || proc == 4 || proc == 6 {
      out, calls := Query(proc, r, ctx);
    } else if proc == 16 {
      out := ReaddirCommon(r, ctx, false);
    } else if proc == 17 {
      out := ReaddirCommon(r, ctx, true);
    } else if proc == 18 {
      out := Fsstat(r, ctx);
    } else if proc == 19 {
      out := Fsinfo(r, ctx);
    } else if proc == 20 {
      out := Pathconf(r, ctx);
    } else if proc < PROC_COUNT {
      out := Reject(proc);
    } else {
      out := ProcUnavail;
    }
  }
}
