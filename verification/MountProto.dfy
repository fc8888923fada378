/**
 * The MOUNT program (100005, version 3; RFC 1813 section 5) of a server with a
 * single export, `/export/<32 hex digits>[/<label>]`.
 */
module MountProto {
  import opened Wrappers
  import opened Xdr
  import opened XdrCursor
  import opened XdrWire
  import opened FileHandle
  import opened RpcCall
  import opened ReadOnlyFs
  import Labels
  import NfsTypes

  const MNT3_OK: u32 := 0
  const MNT3ERR_NOENT: u32 := 2
  const MNT3ERR_ACCES: u32 := 13
  const MNTPATHLEN: u32 := 1024

  const SLASH: byte := 47
  const EXPORT_PREFIX: bytes := [47, 101, 120, 112, 111, 114, 116, 47]   // "/export/"

  /** `mountres3`: a root handle and the accepted authentication flavors. */
  const MOUNT_RES := TStatus(TStruct([TOpaque(64), TWords(16)]), VOID)

  /** The text before the first slash. */
  function FirstSegment(s: bytes): bytes {
    if s == [] || s[0] == SLASH then [] else [s[0]] + FirstSegment(s[1..])
  }

  predicate LooksLikeExport(segment: bytes) {
    |segment| == 32 && forall i | 0 <= i < 32 :: IsHexDigit(segment[i])
  }

  function MountStatus(path: bytes, exportId: Secret): u32 {
    if !Labels.ValidUtf8(path) || !(EXPORT_PREFIX <= path) then MNT3ERR_NOENT
    else
      var segment := FirstSegment(path[|EXPORT_PREFIX|..]);
      if !LooksLikeExport(segment) then MNT3ERR_NOENT
      else if segment != Hex(exportId) then MNT3ERR_ACCES
      else MNT3_OK
  }

  function MountAnswer(path: bytes, exportId: Secret, secret: Secret): Val {
    var status := MountStatus(path, exportId);
    if status == MNT3_OK then VStatus(MNT3_OK, VStruct([VOpaque(EncodeHandle(secret, ROOT_INO)), VWords([1])]))
    else VStatus(status, UNIT)
  }

  /** The OK arm: the root handle, and AUTH_SYS as the one flavor. */
  method GrantMount(secret: Secret) returns (body: bytes)
    ensures body == Enc(VStatus(MNT3_OK, VStruct([VOpaque(EncodeHandle(secret, ROOT_INO)), VWords([1])])))
  {
    var w := new Writer();
    w.WriteU32(MNT3_OK);
    w.WriteOpaqueVar(EncodeHandle(secret, ROOT_INO));
    ghost var before := w.fields;
    w.WriteU32(1); // auth_flavors<> length
    w.WriteU32(1); // AUTH_SYS
    OneWord(1);
    w.Group(before, [VU32(1), VU32(1)], VWords([1]));
    ghost var arm := [VOpaque(EncodeHandle(secret, ROOT_INO)), VWords([1])];
    assert w.fields == [VU32(0)] + arm;
    NfsTypes.StatusBody(MNT3_OK, arm);
    return w.buf;
  }

  method CheckPath(dirpath: bytes, exportId: Secret) returns (status: u32)
    ensures status == MountStatus(dirpath, exportId)
  {
    status := MNT3ERR_NOENT;
    if Labels.ValidUtf8(dirpath) && EXPORT_PREFIX <= dirpath {
      var segment := FirstSegment(dirpath[|EXPORT_PREFIX|..]);
      if LooksLikeExport(segment) {
        var matches := CtEq(segment, Hex(exportId));
        status := if matches then MNT3_OK else MNT3ERR_ACCES;
      }
    }
  }

  method Mnt(r: Reader, exportId: Secret, secret: Secret) returns (out: ProcOutcome)
    requires r.Valid() && r.seen == []
    modifies r
    ensures
      match ParseAll([TOpaque(MNTPATHLEN)], old(r.Input()))
      case None => out == GarbageArgs
      case Some((args, _)) => args[0].VOpaque? && out == Success(Enc(MountAnswer(args[0].data, exportId, secret)))
  {
    assert [] + [TOpaque(MNTPATHLEN)] == [TOpaque(MNTPATHLEN)];
    var path := r.ReadOpaqueVar(MNTPATHLEN);
    if path.None? {
      return GarbageArgs;
    }
    var status := CheckPath(path.value, exportId);
    if status == MNT3_OK {
      var body := GrantMount(secret);
      return Success(body);
    }
    var w := new Writer();
    w.WriteU32(status);
    assert w.fields == [VU32(status)];
    OneField(VU32(status));
    assert Enc(VStatus(status, UNIT)) == Be32(status) + [];
    return Success(w.buf);
  }

  method Umnt(r: Reader) returns (out: ProcOutcome)
    requires r.Valid() && r.seen == []
    modifies r
    ensures out == if ParseAll([TOpaque(MNTPATHLEN)], old(r.Input())).None? then GarbageArgs else Success([])
  {
    assert [] + [TOpaque(MNTPATHLEN)] == [TOpaque(MNTPATHLEN)];
    var path := r.ReadOpaqueVar(MNTPATHLEN);
    return if path.None? then GarbageArgs else Success([]);
  }

  /** What a MOUNT call may answer. */
  ghost predicate MountDispatched(proc: u32, input: bytes, exportId: Secret, secret: Secret, out: ProcOutcome) {
    if proc == 0 then out == Success([])
    else if proc == 1 then
      match ParseAll([TOpaque(MNTPATHLEN)], input)
      case None => out == GarbageArgs
      case Some((args, _)) => args[0].VOpaque? && out == Success(Enc(MountAnswer(args[0].data, exportId, secret)))
    else if proc == 3 then
      out == if ParseAll([TOpaque(MNTPATHLEN)], input).None? then GarbageArgs else Success([])
    else if proc == 5 then out == Success(Enc(VList([])))
    else out == ProcUnavail
  }

  method Dispatch(proc: u32, r: Reader, exportId: Secret, secret: Secret) returns (out: ProcOutcome)
    requires r.Valid()
    modifies r
    ensures MountDispatched(proc, old(r.buf[r.pos..]), exportId, secret, out)
  {
    r.Mark();
    if proc == 0 {
      out := Success([]);
    } else if proc == 1 {
      out := Mnt(r, exportId, secret);
    } else if proc == 3 {
      out := Umnt(r);
    } else if proc == 5 {
      var w := new Writer();
      w.WriteBool(false); // empty export list
      assert w.fields == [VBool(false)];
      OneField(VBool(false));
      assert Enc(VList([])) == [] + Be32(0);
      out := Success(w.buf);
    } else {
      out := ProcUnavail;
    }
  }

  // ---------------------------------------------------------------- the decision

  /** `segment` is what stands before the first slash of `s`. */
  lemma {:induction false} FirstSegmentIs(s: bytes, segment: bytes)
    ensures FirstSegment(s) == segment <==>
            SLASH !in segment && (s == segment || segment + [SLASH] <= s)
  {
    if s == [] {
    } else if s[0] == SLASH {
      if segment == [] { assert [] + [SLASH] == [SLASH]; }
    } else if segment != [] && segment[0] == s[0] {
      FirstSegmentIs(s[1..], segment[1..]);
      assert segment == [s[0]] + segment[1..];
      assert (segment + [SLASH])[1..] == segment[1..] + [SLASH];
      assert s == [s[0]] + s[1..];
      if segment + [SLASH] <= s { assert s[1..][..|segment|] == s[..|segment| + 1][1..]; }
      if segment[1..] + [SLASH] <= s[1..] { assert s[..|segment| + 1] == [s[0]] + s[1..][..|segment|]; }
    } else if segment == [] {
      assert [] + [SLASH] == [SLASH];
      assert FirstSegment(s) != [];
    } else {
      assert FirstSegment(s)[0] == s[0];
    }
  }

  /** `path` names the export `digits`: `/export/` and the digits, alone or followed by a slash and anything. */
  predicate Exports(path: bytes, digits: bytes) {
    var mine := [47, 101, 120, 112, 111, 114, 116, 47] + digits;
    path == mine || mine + [47] <= path
  }

  lemma ExportsFirst(path: bytes, digits: bytes)
    requires LooksLikeExport(digits)
    ensures Exports(path, digits) <==> EXPORT_PREFIX <= path && FirstSegment(path[|EXPORT_PREFIX|..]) == digits
  {
    var n, mine := |EXPORT_PREFIX|, EXPORT_PREFIX + digits;
    if EXPORT_PREFIX <= path {
      FirstSegmentIs(path[n..], digits);
      assert path == EXPORT_PREFIX + path[n..];
      assert mine + [SLASH] == EXPORT_PREFIX + (digits + [SLASH]);
      assert (mine + [SLASH])[n..] == digits + [SLASH];
      if mine + [SLASH] <= path {
        assert path[n..][..|digits| + 1] == path[..|mine| + 1][n..];
      }
      if digits + [SLASH] <= path[n..] {
        assert path[..|mine| + 1] == EXPORT_PREFIX + path[n..][..|digits| + 1];
      }
    } else {
      assert mine[..n] == EXPORT_PREFIX && (mine + [SLASH])[..n] == EXPORT_PREFIX;
    }
  }

  lemma HexHasNoSlash(exportId: Secret)
    ensures SLASH !in Hex(exportId) && LooksLikeExport(Hex(exportId))
  {
  }

  /**
   * A valid path is accepted exactly when it is the export path, alone or
   * followed by a slash and anything; access is denied exactly to paths with
   * any other 32 hex digits in its place; everything else does not exist.
   */
  lemma MountDecision(path: bytes, exportId: Secret)
    ensures
      var status := MountStatus(path, exportId);
      && (status == MNT3_OK <==> Labels.ValidUtf8(path) && Exports(path, Hex(exportId)))
      && (status == MNT3ERR_ACCES <==>
            && Labels.ValidUtf8(path)
            && exists digits :: LooksLikeExport(digits) && digits != Hex(exportId) && Exports(path, digits))
      && (status != MNT3_OK && status != MNT3ERR_ACCES ==> status == MNT3ERR_NOENT)
  {
    HexHasNoSlash(exportId);
    ExportsFirst(path, Hex(exportId));
    forall digits | LooksLikeExport(digits)
      ensures Exports(path, digits) <==> EXPORT_PREFIX <= path && FirstSegment(path[|EXPORT_PREFIX|..]) == digits
    {
      ExportsFirst(path, digits);
    }
  }

  /** Only this mount's export value is accepted in its place. */
  lemma OtherExportDenied(exportId: Secret, other: Secret)
    requires exportId != other
    ensures MountStatus(EXPORT_PREFIX + Hex(other), exportId) == MNT3ERR_ACCES
  {
    var path := EXPORT_PREFIX + Hex(other);
    HexHasNoSlash(other);
    FirstSegmentIs(Hex(other), Hex(other));
    assert path[|EXPORT_PREFIX|..] == Hex(other);
    if Hex(other) == Hex(exportId) {
      HexInjective(other, exportId);
    }
    HexAscii(other);
    Labels.AsciiPrefixValid(path, []);
    assert path + [] == path;
  }

  lemma HexAscii(secret: bytes)
    ensures forall i | 0 <= i < |Hex(secret)| :: Hex(secret)[i] <= 0x7F
  {
  }

  /** The path the mounter puts on the command line. */
  function ExportPath(exportId: Secret, fsName: string): bytes {
    EXPORT_PREFIX + Hex(exportId) + [SLASH] + Labels.EncodeUtf8(Labels.Label(fsName))
  }

  /** For every file system name, the mounter's own path fits the limit and is accepted. */
  lemma MounterAccepted(exportId: Secret, fsName: string)
    ensures |ExportPath(exportId, fsName)| <= MNTPATHLEN
    ensures MountStatus(ExportPath(exportId, fsName), exportId) == MNT3_OK
  {
    var suffix := Labels.EncodeUtf8(Labels.Label(fsName));
    var head := EXPORT_PREFIX + Hex(exportId) + [SLASH];
    Labels.LabelIsLabel(fsName);
    Labels.EncodeUtf8Valid(Labels.Label(fsName));
    HexAscii(exportId);
    Labels.AsciiPrefixValid(head, suffix);
    MountDecision(ExportPath(exportId, fsName), exportId);
  }

  /** A MNT answer is a well-formed `mountres3`, and its handle resolves to the root. */
  lemma MountAnswerParses(path: bytes, exportId: Secret, secret: Secret)
    ensures
      var v := MountAnswer(path, exportId, secret);
      && Parse(MOUNT_RES, Enc(v)) == Some((v, []))
      && (v.code == MNT3_OK ==> Resolve(secret, v.res.fields[0].data) == Some(ROOT_INO))
  {
    var v := MountAnswer(path, exportId, secret);
    ResolveInvertsEncode(secret, EncodeHandle(secret, ROOT_INO), ROOT_INO);
    assert HasType(MOUNT_RES, v);
    RoundTrip(MOUNT_RES, v, []);
    assert Enc(v) + [] == Enc(v);
  }

  // ---------------------------------------------------------------- what a client sees

  /** `mountres3` as a client decodes it. */
  datatype Mounted = Granted(handle: bytes, flavors: seq<u32>) | Denied(status: u32) | Unreadable

  function DecodeMnt(body: bytes): Mounted {
    match Parse(MOUNT_RES, body)
    case None => Unreadable
    case Some((v, rest)) =>
      if rest != [] then Unreadable
      else
        ParseTyped(MOUNT_RES, body);
        if v.code != 0 then Denied(v.code)
        else
          var ok := v.res.fields;
          assert HasType(TOpaque(64), ok[0]) && HasType(TWords(16), ok[1]);
          Granted(ok[0].data, ok[1].words)
  }

  lemma PathArrives(path: bytes)
    requires |path| <= 1024
    ensures ParseAll([TOpaque(1024)], Enc(VOpaque(path))) == Some(([VOpaque(path)], []))
  {
    AllRoundTrip([TOpaque(1024)], [VOpaque(path)], []);
    OneField(VOpaque(path));
    assert Enc(VOpaque(path)) + [] == Enc(VOpaque(path));
  }

  /** MNT shows the root handle, inode 1, and AUTH_SYS, exactly for the export's paths; it tells other exports from other paths. */
  lemma MntSeen(path: bytes, exportId: Secret, secret: Secret, reply: bytes)
    requires |path| <= 1024 && MountDispatched(1, Enc(VOpaque(path)), exportId, secret, Success(reply))
    ensures
      DecodeMnt(reply) ==
      if !Labels.ValidUtf8(path) then Denied(2)
      else if Exports(path, Hex(exportId)) then Granted(EncodeHandle(secret, 1), [1])
      else if exists digits :: LooksLikeExport(digits) && Exports(path, digits) then Denied(13)
      else Denied(2)
  {
    PathArrives(path);
    MountAnswerParses(path, exportId, secret);
    MountDecision(path, exportId);
  }

  /** The other procedures: NULL and UMNT bring nothing, EXPORT an empty list. */
  lemma OthersSeen(proc: u32, input: bytes, exportId: Secret, secret: Secret, out: ProcOutcome)
    requires MountDispatched(proc, input, exportId, secret, out)
    ensures proc == 0 ==> out == Success([])
    ensures proc == 5 ==> out == Success([0, 0, 0, 0])
    ensures proc == 3 ==> out == Success([]) || out == GarbageArgs
    ensures proc !in {0, 1, 3, 5} ==> out == ProcUnavail
  {
    SmallWords();
    assert Enc(VList([])) == [] + Be32(0);
  }

  /** A path of up to 1024 bytes can be unmounted, a longer one neither mounted nor unmounted. */
  lemma PathLimit(proc: u32, path: bytes, rest: bytes, exportId: Secret, secret: Secret, out: ProcOutcome)
    requires (proc == 1 || proc == 3) && |path| <= 0xFFFF_FFFF
    requires MountDispatched(proc, Enc(VOpaque(path)) + rest, exportId, secret, out)
    ensures out == GarbageArgs <==> |path| > 1024
    ensures proc == 3 && |path| <= 1024 ==> out == Success([])
  {
    if |path| > 1024 {
      OverLimit([], [], 1024, [], path, rest);
      assert [] + [TOpaque(1024)] + [] == [TOpaque(1024)];
      assert EncAll([]) + (Enc(VOpaque(path)) + rest) == Enc(VOpaque(path)) + rest;
    } else {
      AllRoundTrip([TOpaque(1024)], [VOpaque(path)], rest);
      OneField(VOpaque(path));
    }
  }
}
