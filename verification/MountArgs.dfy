/**
 * The `mount(2)` argument buffer for an NFS mount over a local socket: a header
 * that describes the buffer, then the attribute values in ascending order.
 */
module MountArgs {
  import opened Wrappers
  import opened Xdr
  import opened XdrCursor
  import Bits
  import NfsTypes

  const ARGSVERSION_XDR: u32 := 88
  const HEADER_LEN: nat := 28
  const MNT_RDONLY: u32 := 1

  const MFLAG_SOFT: nat := 0
  const MFLAG_RESVPORT: nat := 2
  const MFLAG_CALLUMNT: nat := 5

  /** FLAGS, NFS_VERSION, SOCKET_TYPE, REQUEST_TIMEOUT, SOFT_RETRY_COUNT, FH, FS_LOCATIONS, MNTFLAGS, MNTFROM, LOCAL_NFS_PORT */
  const ATTRIBUTES: seq<nat> := [0, 1, 14, 17, 18, 20, 21, 22, 23, 29]

  /** "ticotsord" */
  const SOCKET_TYPE_LOCAL: bytes := [116, 105, 99, 111, 116, 115, 111, 114, 100]

  datatype LocalMountArgs = LocalMountArgs(
    socketPath: bytes, rootHandle: bytes, volume: bytes, timeoutSecs: u64, timeoutNanos: u32, softRetryCount: u32)

  /** "<socket path>:/<label>" */
  function MntFrom(a: LocalMountArgs): bytes {
    a.socketPath + [58, 47] + a.volume
  }

  // ---------------------------------------------------------------- bitmaps

  /** Bit `attr` of a bitmap of 32-bit words. */
  predicate BitSet(words: seq<u32>, attr: nat)
    requires attr / 32 < |words|
  {
    Bits.TestBit(words[attr / 32], attr % 32)
  }

  /** `word | 1 << n` */
  function WithBit(word: u32, n: nat): u32 {
    Bits.Pow2Word();
    Bits.Or(word, Bits.Pow2(n), 32)
  }

  lemma SetBit(word: u32, n: nat, i: nat)
    requires n < 32 && i < 32
    ensures Bits.TestBit(WithBit(word, n), i) <==> Bits.TestBit(word, i) || i == n
  {
    Bits.TestBitwise((a, b) => a || b, word, Bits.Pow2(n), 32, i);
    Bits.TestPow2(n, i);
  }

  lemma SamePosition(a: nat, b: nat)
    ensures a == b <==> a / 32 == b / 32 && a % 32 == b % 32
  {
  }

  /** ORing one attribute's bit into its word sets that bit and leaves the others. */
  lemma SetAttribute(words: seq<u32>, a: nat, attr: nat)
    requires |words| == 2 && a < 64 && attr < 64
    ensures
      var after := words[a / 32 := WithBit(words[a / 32], a % 32)];
      BitSet(after, attr) <==> BitSet(words, attr) || attr == a
  {
    SamePosition(a, attr);
    if attr / 32 == a / 32 {
      SetBit(words[a / 32], a % 32, attr % 32);
    }
  }

  method BitmapOf(attributes: seq<nat>) returns (word0: u32, word1: u32)
    requires forall i | 0 <= i < |attributes| :: attributes[i] < 64
    ensures forall attr: nat | attr < 64 :: BitSet([word0, word1], attr) <==> attr in attributes
  {
    var words := new u32[2](_ => 0);
    forall attr: nat | attr < 64
      ensures !BitSet(words[..], attr)
    {
      Bits.TestZero(attr % 32);
    }
    for k := 0 to |attributes|
      invariant forall attr: nat | attr < 64 :: BitSet(words[..], attr) <==> attr in attributes[..k]
    {
      ghost var before := words[..];
      var a := attributes[k];
      words[a / 32] := WithBit(words[a / 32], a % 32);
      assert words[..] == before[a / 32 := WithBit(before[a / 32], a % 32)];
      assert attributes[..k + 1] == attributes[..k] + [a];
      forall attr: nat | attr < 64
        ensures BitSet(words[..], attr) <==> attr in attributes[..k + 1]
      {
        SetAttribute(before, a, attr);
      }
    }
    assert attributes[..|attributes|] == attributes;
    assert words[..] == [words[0], words[1]];
    return words[0], words[1];
  }

  /** The two bitmap words have exactly the bits of the ten attributes set. */
  method AttrBitmap() returns (word0: u32, word1: u32)
    ensures forall attr: nat | attr < 64 :: BitSet([word0, word1], attr) <==> attr in ATTRIBUTES
  {
    word0, word1 := BitmapOf(ATTRIBUTES);
  }

  /** The mount flags this buffer decides: soft, reserved port, UMNT on unmount. Only soft is switched on. */
  const FLAG_MASK: u32 := 37
  const FLAG_VALUE: u32 := 1

  lemma FlagBits(i: nat)
    requires i < 32
    ensures Bits.TestBit(FLAG_MASK, i) <==> i == MFLAG_SOFT || i == MFLAG_RESVPORT || i == MFLAG_CALLUMNT
    ensures Bits.TestBit(FLAG_VALUE, i) <==> i == MFLAG_SOFT
  {
    Bits.TestPow2(0, i);
    assert i >= 1 ==> Bits.TestBit(37, i) == Bits.TestBit(18, i - 1);
    assert i >= 2 ==> Bits.TestBit(18, i - 1) == Bits.TestBit(9, i - 2);
    assert i >= 3 ==> Bits.TestBit(9, i - 2) == Bits.TestBit(4, i - 3);
    assert i >= 4 ==> Bits.TestBit(4, i - 3) == Bits.TestBit(2, i - 4);
    assert i >= 5 ==> Bits.TestBit(2, i - 4) == Bits.TestBit(1, i - 5);
    if i >= 6 {
      Bits.TestZero(i - 6);
    }
  }

  // ---------------------------------------------------------------- layout

  const HEADER_TYS := [TU32, TU32, TU32, TWords(2), TU32]
  const OPTION_TYS := [TWords(1), TWords(1), TU32, TOpaque(U32_MAX), TU32, TU32, TU32, TOpaque(U32_MAX)]
  const LOCATION_TYS := [TU32, TU32, TOpaque(U32_MAX), TU32, TOpaque(U32_MAX), TU32, TU32, TOpaque(U32_MAX), TU32]
  const TAIL_TYS := [TU32, TOpaque(U32_MAX), TOpaque(U32_MAX)]
  const VALUE_TYS := OPTION_TYS + LOCATION_TYS + TAIL_TYS

  const FLAG_VALS := [VWords([FLAG_MASK]), VWords([FLAG_VALUE])]

  /** Version, socket type, timeout, retries, root handle. */
  function PolicyVals(a: LocalMountArgs): seq<Val> {
    [VU32(3), VOpaque(SOCKET_TYPE_LOCAL), VU32(Low32(a.timeoutSecs)), VU32(a.timeoutNanos),
     VU32(a.softRetryCount), VOpaque(a.rootHandle)]
  }

  function OptionVals(a: LocalMountArgs): seq<Val> {
    FLAG_VALS + PolicyVals(a)
  }

  /** One location with one server at one address, and one path component. */
  function LocationVals(a: LocalMountArgs): seq<Val> {
    [VU32(1), VU32(1), VOpaque(a.socketPath), VU32(1), VOpaque(a.socketPath), VU32(0),
     VU32(1), VOpaque(a.volume), VU32(0)]
  }

  function TailVals(a: LocalMountArgs): seq<Val> {
    [VU32(MNT_RDONLY), VOpaque(MntFrom(a)), VOpaque(a.socketPath)]
  }

  function ValueVals(a: LocalMountArgs): seq<Val> {
    OptionVals(a) + LocationVals(a) + TailVals(a)
  }

  function HeaderVals(bitmap: seq<u32>, size: nat): seq<Val> {
    [VU32(ARGSVERSION_XDR), VU32(Low32(HEADER_LEN + size)), VU32(0), VWords(bitmap), VU32(Low32(size))]
  }

  lemma TwoWords(m: u32, n: u32)
    ensures EncAll([VU32(2), VU32(m), VU32(n)]) == Enc(VWords([m, n]))
  {
    assert EncAll([VU32(2), VU32(m), VU32(n)]) == Be32(2) + Be32(m) + Be32(n) by {
      PushField([VU32(2), VU32(m)], VU32(n));
      assert [VU32(2), VU32(m)] + [VU32(n)] == [VU32(2), VU32(m), VU32(n)];
      TwoFields(VU32(2), VU32(m));
    }
    assert Enc(VWords([m, n])) == Be32(2) + (Be32(m) + Be32(n)) by {
      WordPair(m, n);
    }
    Assoc(Be32(2), Be32(m), Be32(n));
  }

  lemma WordPair(m: u32, n: u32)
    ensures EncWords([m, n]) == Be32(m) + Be32(n)
  {
    var ws, tail := [m, n], [n];
    assert ws[1..] == tail && tail[1..] == [];
    assert EncWords(tail) == Be32(n) + EncWords([]);
  }

  /** NFS_MATTR_FLAGS carries two one-word bitmaps, the mask and then the value. */
  method WriteFlags(w: Writer)
    requires w.Valid()
    modifies w
    ensures w.Valid() && w.fields == old(w.fields) + FLAG_VALS
  {
    ghost var start := w.fields;
    w.WriteU32(1);
    w.WriteU32(FLAG_MASK);
    OneWord(FLAG_MASK);
    w.Group(start, [VU32(1), VU32(FLAG_MASK)], VWords([FLAG_MASK]));
    ghost var second := w.fields;
    w.WriteU32(1);
    w.WriteU32(FLAG_VALUE);
    OneWord(FLAG_VALUE);
    w.Group(second, [VU32(1), VU32(FLAG_VALUE)], VWords([FLAG_VALUE]));
  }

  method WriteOptions(w: Writer, a: LocalMountArgs)
    requires w.Valid()
    modifies w
    ensures w.Valid() && w.fields == old(w.fields) + OptionVals(a)
  {
    WriteFlags(w);
    ghost var flags := w.fields;
    w.WriteU32(3);
    w.WriteOpaqueVar(SOCKET_TYPE_LOCAL);
    w.WriteU32(Low32(a.timeoutSecs));
    w.WriteU32(a.timeoutNanos);
    w.WriteU32(a.softRetryCount);
    w.WriteOpaqueVar(a.rootHandle);
    assert w.fields == flags + PolicyVals(a);
  }

  method WriteLocations(w: Writer, a: LocalMountArgs)
    requires w.Valid()
    modifies w
    ensures w.Valid() && w.fields == old(w.fields) + LocationVals(a)
  {
    w.WriteU32(1); // location count
    w.WriteU32(1); // server count
    w.WriteOpaqueVar(a.socketPath);
    w.WriteU32(1); // address count
    w.WriteOpaqueVar(a.socketPath);
    ghost var half := w.fields;
    w.WriteU32(0); // empty server info
    w.WriteU32(1); // path component count
    w.WriteOpaqueVar(a.volume);
    w.WriteU32(0); // empty location info
    assert half == old(w.fields) + LocationVals(a)[..5];
    assert w.fields == half + LocationVals(a)[5..];
  }

  method EncodeValues(a: LocalMountArgs) returns (values: bytes)
    ensures values == EncAll(ValueVals(a))
  {
    var w := new Writer();
    WriteOptions(w, a);
    assert w.fields == OptionVals(a);
    WriteLocations(w, a);
    ghost var before := w.fields;
    w.WriteU32(MNT_RDONLY);
    w.WriteOpaqueVar(MntFrom(a));
    w.WriteOpaqueVar(a.socketPath);
    assert w.fields == before + TailVals(a);
    return w.buf;
  }

  method EncodeHeader(w: Writer, size: nat, word0: u32, word1: u32)
    requires w.Valid() && w.fields == []
    modifies w
    ensures w.Valid() && w.fields == HeaderVals([word0, word1], size)
  {
    w.WriteU32(ARGSVERSION_XDR);
    w.WriteU32(Low32(HEADER_LEN + size));
    w.WriteU32(0);
    ghost var before := w.fields;
    w.WriteU32(2);
    w.WriteU32(word0);
    w.WriteU32(word1);
    TwoWords(word0, word1);
    w.Group(before, [VU32(2), VU32(word0), VU32(word1)], VWords([word0, word1]));
    w.WriteU32(Low32(size));
  }

  /** The bitmap of the attributes this buffer sets. */
  ghost predicate IsBitmap(word0: u32, word1: u32) {
    forall attr: nat | attr < 64 :: BitSet([word0, word1], attr) <==> attr in ATTRIBUTES
  }

  function Buffer(a: LocalMountArgs, word0: u32, word1: u32): bytes {
    var values := EncAll(ValueVals(a));
    EncAll(HeaderVals([word0, word1], |values|)) + Padded(values)
  }

  /** The whole buffer: the header, then the values padded to a word. */
  method Encode(a: LocalMountArgs) returns (buf: bytes)
    ensures exists word0: u32, word1: u32 :: IsBitmap(word0, word1) && buf == Buffer(a, word0, word1)
  {
    var values := EncodeValues(a);
    var w := new Writer();
    var word0, word1 := AttrBitmap();
    EncodeHeader(w, |values|, word0, word1);
    PushField(w.fields, VFixed(values));
    w.WriteOpaqueFixed(values);
    assert IsBitmap(word0, word1) && w.buf == Buffer(a, word0, word1);
    return w.buf;
  }

  // ---------------------------------------------------------------- reading it back

  predicate Fits(a: LocalMountArgs) {
    |a.rootHandle| <= U32_MAX && |MntFrom(a)| <= U32_MAX
  }

  lemma ValuesTyped(a: LocalMountArgs)
    requires Fits(a)
    ensures HaveTypes(VALUE_TYS, ValueVals(a))
  {
    OptionsTyped(a);
    LocationsTyped(a);
    assert HaveTypes(TAIL_TYS, TailVals(a));
    NfsTypes.TypedConcat(OPTION_TYS, LOCATION_TYS, OptionVals(a), LocationVals(a));
    NfsTypes.TypedConcat(OPTION_TYS + LOCATION_TYS, TAIL_TYS, OptionVals(a) + LocationVals(a), TailVals(a));
  }

  lemma OptionsTyped(a: LocalMountArgs)
    requires Fits(a)
    ensures HaveTypes(OPTION_TYS, OptionVals(a))
  {
  }

  lemma LocationsTyped(a: LocalMountArgs)
    requires Fits(a)
    ensures HaveTypes(LOCATION_TYS, LocationVals(a))
  {
  }

  lemma HeaderSize(word0: u32, word1: u32, size: nat)
    ensures HaveTypes(HEADER_TYS, HeaderVals([word0, word1], size))
    ensures |EncAll(HeaderVals([word0, word1], size))| == HEADER_LEN
  {
    var vs := HeaderVals([word0, word1], size);
    TwoFields(vs[0], vs[1]);
    TwoFields(vs[2], vs[3]);
    EncAllConcat([vs[0], vs[1]], [vs[2], vs[3]]);
    PushField([vs[0], vs[1]] + [vs[2], vs[3]], vs[4]);
    assert vs == [vs[0], vs[1]] + [vs[2], vs[3]] + [vs[4]];
  }

  lemma WordAligned(v: Val)
    requires v.VU32? || v.VOpaque? || v.VWords?
    ensures |Enc(v)| % 4 == 0
  {
    match v
    case VU32(_) =>
    case VOpaque(data) =>
      PaddedAligned(data);
      SumAligned(4, |Padded(data)|);
    case VWords(ws) =>
      SumAligned(4, 4 * |ws|);
  }

  /** Words, and opaques of any length, take whole words. */
  lemma {:induction false} WordsAligned(vs: seq<Val>)
    requires forall i | 0 <= i < |vs| :: vs[i].VU32? || vs[i].VOpaque? || vs[i].VWords?
    ensures |EncAll(vs)| % 4 == 0
  {
    if vs != [] {
      WordsAligned(vs[1..]);
      WordAligned(vs[0]);
      SumAligned(|Enc(vs[0])|, |EncAll(vs[1..])|);
    }
  }

  lemma BufferIsFields(a: LocalMountArgs, word0: u32, word1: u32)
    ensures
      var size := |EncAll(ValueVals(a))|;
      && Buffer(a, word0, word1) == EncAll(HeaderVals([word0, word1], size) + ValueVals(a))
      && |Buffer(a, word0, word1)| == HEADER_LEN + size
  {
    var values := EncAll(ValueVals(a));
    WordsAligned(ValueVals(a));
    assert Padded(values) == values;
    HeaderSize(word0, word1, |values|);
    EncAllConcat(HeaderVals([word0, word1], |values|), ValueVals(a));
  }

  lemma FieldsTyped(a: LocalMountArgs, word0: u32, word1: u32, size: nat)
    requires Fits(a)
    ensures HaveTypes(HEADER_TYS + VALUE_TYS, HeaderVals([word0, word1], size) + ValueVals(a))
  {
    ValuesTyped(a);
    HeaderSize(word0, word1, size);
    NfsTypes.TypedConcat(HEADER_TYS, VALUE_TYS, HeaderVals([word0, word1], size), ValueVals(a));
  }

  lemma TypedFits(a: LocalMountArgs, header: seq<Val>)
    requires |header| == |HEADER_TYS| && HaveTypes(HEADER_TYS + VALUE_TYS, header + ValueVals(a))
    ensures Fits(a)
  {
    var ts, vs := HEADER_TYS + VALUE_TYS, header + ValueVals(a);
    assert ts[12] == VALUE_TYS[7] == TOpaque(U32_MAX) && vs[12] == ValueVals(a)[7] == VOpaque(a.rootHandle);
    assert ts[23] == VALUE_TYS[18] == TOpaque(U32_MAX) && vs[23] == ValueVals(a)[18] == VOpaque(MntFrom(a));
    assert HasType(ts[12], vs[12]) && HasType(ts[23], vs[23]);
  }

  lemma ParsesIfFits(a: LocalMountArgs, word0: u32, word1: u32, size: nat)
    ensures
      var fields := HeaderVals([word0, word1], size) + ValueVals(a);
      ParseAll(HEADER_TYS + VALUE_TYS, EncAll(fields)) == Some((fields, [])) <==> Fits(a)
  {
    var fields := HeaderVals([word0, word1], size) + ValueVals(a);
    if Fits(a) {
      FieldsTyped(a, word0, word1, size);
      AllRoundTrip(HEADER_TYS + VALUE_TYS, fields, []);
      assert EncAll(fields) + [] == EncAll(fields);
    } else if ParseAll(HEADER_TYS + VALUE_TYS, EncAll(fields)) == Some((fields, [])) {
      AllTyped(HEADER_TYS + VALUE_TYS, EncAll(fields));
      TypedFits(a, HeaderVals([word0, word1], size));
    }
  }

  /** The 32-bit cast keeps exactly the values below 2^32; this decides both lengths and the timeout. */
  lemma CastExact(n: nat)
    ensures Low32(n) == n <==> n <= U32_MAX
  {
  }

  /**
   * Reading the buffer in the documented order gives every field back and ends
   * at its last byte, if and only if the root handle and the mount-from string
   * are shorter than 2^32 bytes. Both lengths it declares are exact if and only
   * if the whole buffer is, and the timeout survives if and only if it is below
   * 2^32 seconds.
   */
  lemma ReadsBack(a: LocalMountArgs, word0: u32, word1: u32)
    ensures
      var buf := Buffer(a, word0, word1);
      var size := |EncAll(ValueVals(a))|;
      && (ParseAll(HEADER_TYS + VALUE_TYS, buf) == Some((HeaderVals([word0, word1], size) + ValueVals(a), [])) <==> Fits(a))
      && |buf| == HEADER_LEN + size
      && (Low32(HEADER_LEN + size) == |buf| && Low32(size) == |buf| - HEADER_LEN <==> |buf| <= U32_MAX)
      && (Low32(a.timeoutSecs) == a.timeoutSecs <==> a.timeoutSecs <= U32_MAX)
  {
    var size := |EncAll(ValueVals(a))|;
    BufferIsFields(a, word0, word1);
    ParsesIfFits(a, word0, word1, size);
    CastExact(HEADER_LEN + size);
    CastExact(size);
    CastExact(a.timeoutSecs);
  }

  // ---------------------------------------------------------------- attribute by attribute

  /** The type of each attribute, by its number. */
  function AttrTys(attr: nat): seq<Ty> {
    if attr == 0 then [TWords(1), TWords(1)]      // FLAGS: mask, value
    else if attr == 17 then [TU32, TU32]          // REQUEST_TIMEOUT: seconds, nanoseconds
    else if attr == 1 || attr == 18 || attr == 22 then [TU32]   // NFS_VERSION, SOFT_RETRY_COUNT, MNTFLAGS
    else if attr == 21 then [TU32, TU32, TOpaque(U32_MAX), TU32, TOpaque(U32_MAX), TU32, TU32, TOpaque(U32_MAX), TU32]
    else [TOpaque(U32_MAX)]                       // SOCKET_TYPE, FH, MNTFROM, LOCAL_NFS_PORT
  }

  /** Reading the values of the attributes the bitmap has, from `attr` on, in ascending order. */
  function Walk(words: seq<u32>, attr: nat, b: bytes): Option<map<nat, seq<Val>>>
    requires |words| == 2 && attr <= 64
    decreases 64 - attr
  {
    if attr == 64 then if b == [] then Some(map[]) else None
    else if !BitSet(words, attr) then Walk(words, attr + 1, b)
    else
      match ParseAll(AttrTys(attr), b)
      case None => None
      case Some((vs, rest)) =>
        var later := Walk(words, attr + 1, rest);
        if later.None? then None else Some(later.value[attr := vs])
  }

  /** A whole buffer: the header must announce its length and that of the values. */
  function DecodeArgs(buf: bytes): Option<map<nat, seq<Val>>> {
    match ParseAll([TU32, TU32, TU32, TWords(2), TU32], buf)
    case None => None
    case Some((h, rest)) =>
      if h[0] != VU32(88) || h[1] != VU32(Low32(|buf|)) || h[4] != VU32(Low32(|rest|)) || !h[3].VWords? || |h[3].words| != 2 then None
      else Walk(h[3].words, 0, rest)
  }

  /** What the kernel is to find under each attribute. */
  function Meant(a: LocalMountArgs): map<nat, seq<Val>> {
    map[
      0 := [VWords([37]), VWords([1])],
      1 := [VU32(3)],
      14 := [VOpaque([116, 105, 99, 111, 116, 115, 111, 114, 100])],
      17 := [VU32(a.timeoutSecs % 0x1_0000_0000), VU32(a.timeoutNanos)],
      18 := [VU32(a.softRetryCount)],
      20 := [VOpaque(a.rootHandle)],
      21 := [VU32(1), VU32(1), VOpaque(a.socketPath), VU32(1), VOpaque(a.socketPath), VU32(0),
             VU32(1), VOpaque(a.volume), VU32(0)],
      22 := [VU32(1)],
      23 := [VOpaque(a.socketPath + [58, 47] + a.volume)],
      29 := [VOpaque(a.socketPath)]
    ]
  }

  /** The values of the attributes from the `k`th on. */
  function ValuesFrom(a: LocalMountArgs, k: nat): seq<Val>
    requires k <= |ATTRIBUTES|
    decreases |ATTRIBUTES| - k
  {
    if k == |ATTRIBUTES| then [] else Meant(a)[ATTRIBUTES[k]] + ValuesFrom(a, k + 1)
  }

  lemma MeantTyped(a: LocalMountArgs, attr: nat)
    requires Fits(a) && attr in Meant(a)
    ensures HaveTypes(AttrTys(attr), Meant(a)[attr])
  {
  }

  /** The `k` attributes below `attr` are read already. */
  predicate Passed(attr: nat, k: nat) {
    && k <= |ATTRIBUTES|
    && (forall i | 0 <= i < k :: ATTRIBUTES[i] < attr)
    && (forall i | k <= i < |ATTRIBUTES| :: attr <= ATTRIBUTES[i])
  }

  function MeantFrom(a: LocalMountArgs, attr: nat): map<nat, seq<Val>> {
    map n | n in Meant(a) && attr <= n :: Meant(a)[n]
  }

  lemma AllMeant(a: LocalMountArgs, attr: nat)
    ensures attr in Meant(a) <==> attr in ATTRIBUTES
    ensures attr !in Meant(a) ==> MeantFrom(a, attr) == MeantFrom(a, attr + 1)
    ensures attr in Meant(a) ==> MeantFrom(a, attr) == MeantFrom(a, attr + 1)[attr := Meant(a)[attr]]
  {
  }

  /** Reading one attribute that the bitmap has, and then the later ones. */
  lemma WalkStep(a: LocalMountArgs, words: seq<u32>, attr: nat, later: bytes)
    requires Fits(a) && |words| == 2 && attr < 64 && BitSet(words, attr) && attr in Meant(a)
    requires Walk(words, attr + 1, later) == Some(MeantFrom(a, attr + 1))
    ensures Walk(words, attr, EncAll(Meant(a)[attr]) + later) == Some(MeantFrom(a, attr))
  {
    AllMeant(a, attr);
    MeantTyped(a, attr);
    AllRoundTrip(AttrTys(attr), Meant(a)[attr], later);
  }

  lemma PassOne(attr: nat, k: nat)
    requires Passed(attr, k)
    ensures attr !in ATTRIBUTES ==> Passed(attr + 1, k)
    ensures attr in ATTRIBUTES ==> k < |ATTRIBUTES| && ATTRIBUTES[k] == attr && Passed(attr + 1, k + 1)
    ensures attr == 64 ==> k == |ATTRIBUTES|
  {
    assert forall i, j | 0 <= i < j < |ATTRIBUTES| :: ATTRIBUTES[i] < ATTRIBUTES[j] < 64;
    if k < |ATTRIBUTES| {
      assert attr <= ATTRIBUTES[k] < 64;
    }
  }

  lemma {:induction false} WalkFinds(a: LocalMountArgs, word0: u32, word1: u32, attr: nat, k: nat)
    requires Fits(a) && IsBitmap(word0, word1) && attr <= 64 && Passed(attr, k)
    ensures Walk([word0, word1], attr, EncAll(ValuesFrom(a, k))) == Some(MeantFrom(a, attr))
    decreases 64 - attr
  {
    PassOne(attr, k);
    if attr < 64 {
      AllMeant(a, attr);
      if attr in ATTRIBUTES {
        WalkFinds(a, word0, word1, attr + 1, k + 1);
        EncAllConcat(Meant(a)[attr], ValuesFrom(a, k + 1));
        WalkStep(a, [word0, word1], attr, EncAll(ValuesFrom(a, k + 1)));
      } else {
        WalkFinds(a, word0, word1, attr + 1, k);
      }
    }
  }

  lemma ValuesInOrder(a: LocalMountArgs)
    ensures ValuesFrom(a, 0) == ValueVals(a)
  {
  }

  lemma HeaderRead(a: LocalMountArgs, word0: u32, word1: u32)
    requires Fits(a)
    ensures
      var values := EncAll(ValueVals(a));
      ParseAll(HEADER_TYS, Buffer(a, word0, word1)) == Some((HeaderVals([word0, word1], |values|), values))
  {
    var values := EncAll(ValueVals(a));
    var header := HeaderVals([word0, word1], |values|);
    BufferIsFields(a, word0, word1);
    EncAllConcat(header, ValueVals(a));
    HeaderSize(word0, word1, |values|);
    AllRoundTrip(HEADER_TYS, header, values);
  }

  /** A reader that goes by the bitmap finds every attribute of the mount under its number, and nothing else. */
  lemma AttributesFound(a: LocalMountArgs, word0: u32, word1: u32)
    requires Fits(a) && IsBitmap(word0, word1)
    ensures DecodeArgs(Buffer(a, word0, word1)) == Some(Meant(a))
  {
    HeaderRead(a, word0, word1);
    BufferIsFields(a, word0, word1);
    ValuesInOrder(a);
    WalkFinds(a, word0, word1, 0, 0);
    assert MeantFrom(a, 0) == Meant(a);
  }
}
