/**
 * The argument and result types of the NFS version 3 procedures (RFC 1813
 * section 3.3), and the values this server puts in them.
 */
module NfsTypes {
  import opened Wrappers
  import opened Xdr
  import opened ReadOnlyFs

  const FHANDLE3 := TOpaque(64)
  const FILENAME3 := TOpaque(U32_MAX)
  const NFSTIME3 := TStruct([TU32, TU32])
  const FATTR3_HEAD := [TU32, TU32, TU32, TU32, TU32, TU64, TU64]   // type, mode, nlink, uid, gid, size, used
  const FATTR3_TAIL := [TU32, TU32, TU64, TU64, NFSTIME3, NFSTIME3, NFSTIME3]   // rdev, fsid, fileid, times
  const FATTR3 := TStruct(FATTR3_HEAD + FATTR3_TAIL)
  const POST_OP_ATTR := TOpt(FATTR3)
  const WCC_ATTR := TStruct([TU64, NFSTIME3, NFSTIME3])
  const WCC_DATA := TStruct([TOpt(WCC_ATTR), POST_OP_ATTR])
  const VERF := TFixed(8)

  const ENTRY3 := TStruct([TU64, FILENAME3, TU64])
  const ENTRYPLUS3 := TStruct([TU64, FILENAME3, TU64, POST_OP_ATTR, TOpt(FHANDLE3)])

  const STAT_TYS := [TU64, TU64, TU64, TU64, TU64, TU64, TU32]   // tbytes .. afiles, invarsec
  const SIZE_TYS := [TU32, TU32, TU32, TU32, TU32, TU32]         // rtmax .. wtmult
  const INFO_TYS := [TU32, TU64, NFSTIME3, TU32]                 // dtpref .. properties
  const LIMIT_TYS := [TU32, TU32, TBool, TBool, TBool, TBool]    // linkmax .. case_preserving

  const PROC_COUNT: u32 := 22

  /** What a procedure reads before it answers; the refused ones read nothing. */
  function ArgTys(proc: u32): seq<Ty> {
    if proc == 1 || proc == 18 || proc == 19 || proc == 20 then [FHANDLE3]
    else if proc == 3 then [FHANDLE3, TOpaque(1024)]
    else if proc == 4 then [FHANDLE3, TU32]
    else if proc == 6 then [FHANDLE3, TU64, TU32]
    else if proc == 16 then [FHANDLE3, TU64, VERF, TU32]
    else if proc == 17 then [FHANDLE3, TU64, VERF, TU32, TU32]
    else []
  }

  function Res(ok: seq<Ty>, fail: seq<Ty>): Ty {
    TStatus(TStruct(ok), TStruct(fail))
  }

  function EntryTy(plus: bool): Ty {
    if plus then ENTRYPLUS3 else ENTRY3
  }

  function ListingTy(plus: bool): Ty {
    Res([POST_OP_ATTR, VERF, TList(EntryTy(plus)), TBool], [POST_OP_ATTR])
  }

  const GETATTR_RES := TStatus(FATTR3, VOID)
  const LOOKUP_RES := Res([FHANDLE3, POST_OP_ATTR, POST_OP_ATTR], [POST_OP_ATTR])
  const ACCESS_RES := Res([POST_OP_ATTR, TU32], [POST_OP_ATTR])
  const READ_RES := Res([POST_OP_ATTR, TU32, TBool, TOpaque(U32_MAX)], [POST_OP_ATTR])
  const FSSTAT_RES := Res([POST_OP_ATTR] + STAT_TYS, [POST_OP_ATTR])
  const FSINFO_RES := Res([POST_OP_ATTR] + (SIZE_TYS + INFO_TYS), [POST_OP_ATTR])
  const PATHCONF_RES := Res([POST_OP_ATTR] + LIMIT_TYS, [POST_OP_ATTR])

  /** The result of each procedure, 0 (NULL) to 21 (COMMIT). */
  function ResTy(proc: u32): Ty
    requires proc < PROC_COUNT
  {
    match proc
    case 0 => VOID
    case 1 => GETATTR_RES
    case 2 => Res([WCC_DATA], [WCC_DATA])
    case 3 => LOOKUP_RES
    case 4 => ACCESS_RES
    case 5 => Res([POST_OP_ATTR, TOpaque(U32_MAX)], [POST_OP_ATTR])
    case 6 => READ_RES
    case 7 => Res([WCC_DATA, TU32, TU32, VERF], [WCC_DATA])
    case 8 => Res([TOpt(FHANDLE3), POST_OP_ATTR, WCC_DATA], [WCC_DATA])
    case 9 => Res([TOpt(FHANDLE3), POST_OP_ATTR, WCC_DATA], [WCC_DATA])
    case 10 => Res([TOpt(FHANDLE3), POST_OP_ATTR, WCC_DATA], [WCC_DATA])
    case 11 => Res([TOpt(FHANDLE3), POST_OP_ATTR, WCC_DATA], [WCC_DATA])
    case 12 => Res([WCC_DATA], [WCC_DATA])
    case 13 => Res([WCC_DATA], [WCC_DATA])
    case 14 => Res([WCC_DATA, WCC_DATA], [WCC_DATA, WCC_DATA])
    case 15 => Res([POST_OP_ATTR, WCC_DATA], [POST_OP_ATTR, WCC_DATA])
    case 16 => ListingTy(false)
    case 17 => ListingTy(true)
    case 18 => FSSTAT_RES
    case 19 => FSINFO_RES
    case 20 => PATHCONF_RES
    case 21 => Res([WCC_DATA, VERF], [WCC_DATA])
  }

  // ---------------------------------------------------------------- values

  /** Times before the epoch become zero; seconds are cut to 32 bits. */
  function TimeVal(t: SystemTime): Val {
    if t.secs < 0 then VStruct([VU32(0), VU32(0)])
    else VStruct([VU32(Low32(t.secs)), VU32(t.nanos)])
  }

  function FileType(k: FileKind): u32 {
    if k.File? then 1 else 2
  }

  function FattrHead(a: FileAttr): seq<Val> {
    [VU32(FileType(a.kind)), VU32(a.perm), VU32(a.nlink), VU32(a.uid), VU32(a.gid), VU64(a.size), VU64(a.size)]
  }

  function FattrTail(a: FileAttr, fsid: u64): seq<Val> {
    [VU32(0), VU32(0), VU64(fsid), VU64(a.ino), TimeVal(a.atime), TimeVal(a.mtime), TimeVal(a.ctime)]
  }

  function FattrFields(a: FileAttr, fsid: u64): seq<Val> {
    FattrHead(a) + FattrTail(a, fsid)
  }

  function PostOpVal(a: Option<FileAttr>, fsid: u64): Val {
    if a.None? then VNone else VSome(VStruct(FattrFields(a.value, fsid)))
  }

  const NO_WCC := VStruct([VNone, VNone])

  function StatusVal(code: u32, fields: seq<Val>): Val {
    VStatus(code, VStruct(fields))
  }

  lemma TimeTyped(t: SystemTime)
    ensures HasType(NFSTIME3, TimeVal(t))
    ensures |Enc(TimeVal(t))| == 8
  {
    var vs := TimeVal(t).fields;
    assert HasType(TU32, vs[0]) && HasType(TU32, vs[1]);
    assert vs[1..] == [vs[1]] && vs[1..][1..] == [];
  }

  lemma TypedConcat(ts: seq<Ty>, us: seq<Ty>, vs: seq<Val>, ws: seq<Val>)
    requires HaveTypes(ts, vs) && HaveTypes(us, ws)
    ensures HaveTypes(ts + us, vs + ws)
  {
  }

  lemma FattrHeadTyped(a: FileAttr)
    ensures HaveTypes(FATTR3_HEAD, FattrHead(a))
  {
  }

  lemma FattrTailTyped(a: FileAttr, fsid: u64)
    ensures HaveTypes(FATTR3_TAIL, FattrTail(a, fsid))
  {
    TimeTyped(a.atime);
    TimeTyped(a.mtime);
    TimeTyped(a.ctime);
  }

  lemma FattrTyped(a: FileAttr, fsid: u64)
    ensures HasType(FATTR3, VStruct(FattrFields(a, fsid)))
  {
    FattrHeadTyped(a);
    FattrTailTyped(a, fsid);
    TypedConcat(FATTR3_HEAD, FATTR3_TAIL, FattrHead(a), FattrTail(a, fsid));
  }

  lemma PostOpTyped(a: Option<FileAttr>, fsid: u64)
    ensures HasType(POST_OP_ATTR, PostOpVal(a, fsid))
  {
    if a.Some? {
      FattrTyped(a.value, fsid);
    }
  }

  lemma NoWccTyped()
    ensures HasType(WCC_DATA, NO_WCC)
  {
  }

  /** A result body, status word first, is one value of its union type. */
  lemma StatusBody(code: u32, fields: seq<Val>)
    ensures EncAll([VU32(code)] + fields) == Enc(StatusVal(code, fields))
  {
    assert ([VU32(code)] + fields)[1..] == fields;
  }
}
