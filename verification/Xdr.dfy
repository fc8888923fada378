/**
 * External Data Representation (RFC 4506), as a universe of types and values.
 *
 * `Enc` is what the wire carries for a value, `Parse` reads a value of a given
 * type off the front of a byte string. The message layouts of the RPC, MOUNT and
 * NFS layers are values of `Ty`, so the theorems at the end of this module
 * (round trip, stability under more input, prefix rejection, alignment) hold
 * of every message at once.
 */
module Xdr {
  import opened Wrappers

  type byte = x: int | 0 <= x < 0x100
  type u32 = x: int | 0 <= x < 0x1_0000_0000
  type u64 = x: int | 0 <= x < 0x1_0000_0000_0000_0000
  type bytes = seq<byte>

  const U32_MAX: u32 := 0xFFFF_FFFF
  const U64_MAX: u64 := 0xFFFF_FFFF_FFFF_FFFF

  datatype Ty =
    | TU32
    | TU64
    | TBool
    | TOpaque(max: nat)              // opaque<max> and string<max>
    | TFixed(len: nat)               // opaque[len]
    | TWords(most: nat)              // unsigned int<most>
    | TOpt(body: Ty)                 // union switch (bool) { case TRUE: body; }
    | TList(item: Ty)                // linked list of optional items
    | TStruct(fields: seq<Ty>)
    | TStatus(ok: Ty, fail: Ty)      // union switch (status) { case 0: ok; default: fail; }

  datatype Val =
    | VU32(n: u32)
    | VU64(d: u64)
    | VBool(b: bool)
    | VOpaque(data: bytes)
    | VFixed(raw: bytes)
    | VWords(words: seq<u32>)
    | VNone
    | VSome(body: Val)
    | VList(items: seq<Val>)
    | VStruct(fields: seq<Val>)
    | VStatus(code: u32, res: Val)
    | VRaw(encoded: bytes)           // bytes encoded elsewhere; a value of no type

  const VOID := TStruct([])
  const UNIT := VStruct([])

  // ---------------------------------------------------------------- integers

  function Pow256(k: nat): (p: nat)
    ensures p >= 1
  {
    if k == 0 then 1 else 0x100 * Pow256(k - 1)
  }

  /** The low `k` base-256 digits of `n`, most significant first. */
  function BigEndian(n: nat, k: nat): (b: bytes)
    ensures |b| == k
    decreases k
  {
    if k == 0 then [] else BigEndian(n / 0x100, k - 1) + [n % 0x100]
  }

  function FromBigEndian(b: bytes): (n: nat)
    ensures n < Pow256(|b|)
  {
    if b == [] then 0 else 0x100 * FromBigEndian(b[..|b| - 1]) + b[|b| - 1]
  }

  lemma {:induction false} FromBigEndianOfBigEndian(n: nat, k: nat)
    requires n < Pow256(k)
    ensures FromBigEndian(BigEndian(n, k)) == n
    decreases k
  {
    if k > 0 {
      var b := BigEndian(n, k);
      assert b[..|b| - 1] == BigEndian(n / 0x100, k - 1);
      FromBigEndianOfBigEndian(n / 0x100, k - 1);
    }
  }

  lemma {:induction false} BigEndianOfFromBigEndian(b: bytes)
    ensures BigEndian(FromBigEndian(b), |b|) == b
  {
    if b != [] {
      var high, low := b[..|b| - 1], b[|b| - 1];
      BigEndianOfFromBigEndian(high);
      assert FromBigEndian(b) / 0x100 == FromBigEndian(high) && FromBigEndian(b) % 0x100 == low;
      assert b == high + [low];
    }
  }

  lemma Pow256Values()
    ensures Pow256(4) == 0x1_0000_0000
    ensures Pow256(8) == 0x1_0000_0000_0000_0000
  {
  }

  function Be32(n: u32): (b: bytes) {
    BigEndian(n, 4)
  }

  function De32(b: bytes): (n: u32)
    requires |b| >= 4
  {
    Pow256Values();
    FromBigEndian(b[..4])
  }

  function Be64(n: u64): (b: bytes) {
    BigEndian(n, 8)
  }

  function De64(b: bytes): (n: u64)
    requires |b| >= 8
  {
    Pow256Values();
    FromBigEndian(b[..8])
  }

  lemma De32Be32(n: u32, rest: bytes)
    ensures De32(Be32(n) + rest) == n
    ensures (Be32(n) + rest)[4..] == rest
  {
    Pow256Values();
    assert (Be32(n) + rest)[..4] == Be32(n);
    FromBigEndianOfBigEndian(n, 4);
  }

  lemma De64Be64(n: u64, rest: bytes)
    ensures De64(Be64(n) + rest) == n
    ensures (Be64(n) + rest)[8..] == rest
  {
    Pow256Values();
    assert (Be64(n) + rest)[..8] == Be64(n);
    FromBigEndianOfBigEndian(n, 8);
  }

  // ---------------------------------------------------------------- encoding

  /** Zero bytes needed to reach the next multiple of four. */
  function PadLen(n: nat): nat {
    (4 - n % 4) % 4
  }

  function Zeros(n: nat): (b: bytes)
    ensures |b| == n
  {
    seq(n, _ => 0)
  }

  function Padded(data: bytes): bytes {
    data + Zeros(PadLen(|data|))
  }

  lemma PaddedAligned(data: bytes)
    ensures |Padded(data)| % 4 == 0
  {
  }

  lemma SumAligned(a: nat, b: nat)
    requires a % 4 == 0 && b % 4 == 0
    ensures (a + b) % 4 == 0
  {
  }

  function EncWords(ws: seq<u32>): (b: bytes)
    ensures |b| == 4 * |ws|
  {
    if ws == [] then [] else Be32(ws[0]) + EncWords(ws[1..])
  }

  function Flag(b: bool): u32 {
    if b then 1 else 0
  }

  /** Lengths are written through a 32-bit cast, which drops the high bits. */
  function Low32(n: nat): u32 {
    n % 0x1_0000_0000
  }

  /** Unsigned 64-bit arithmetic wraps. */
  function Low64(n: nat): (r: u64)
    ensures n <= U64_MAX ==> r == n
  {
    if n <= U64_MAX then n else Low64(n - 0x1_0000_0000_0000_0000)
  }

  lemma {:induction false} Low64Twice(a: nat, b: nat)
    ensures Low64(Low64(a) + b) == Low64(a + b)
  {
    if a > U64_MAX {
      Low64Twice(a - 0x1_0000_0000_0000_0000, b);
    }
  }

  function Enc(v: Val): bytes
    decreases v
  {
    match v
    case VU32(n) => Be32(n)
    case VU64(n) => Be64(n)
    case VBool(b) => Be32(Flag(b))
    case VOpaque(data) => Be32(Low32(|data|)) + Padded(data)
    case VFixed(data) => Padded(data)
    case VWords(ws) => Be32(Low32(|ws|)) + EncWords(ws)
    case VNone => Be32(0)
    case VSome(body) => Be32(1) + Enc(body)
    case VList(items) => EncLinks(items) + Be32(0)
    case VStruct(fields) => EncAll(fields)
    case VStatus(code, res) => Be32(code) + Enc(res)
    case VRaw(b) => b
  }

  function EncAll(vs: seq<Val>): bytes
    decreases vs
  {
    if vs == [] then [] else Enc(vs[0]) + EncAll(vs[1..])
  }

  /** The links of a list, without the terminator. */
  function EncLinks(vs: seq<Val>): bytes
    decreases vs
  {
    if vs == [] then [] else Be32(1) + Enc(vs[0]) + EncLinks(vs[1..])
  }

  // ---------------------------------------------------------------- typing

  predicate HasType(t: Ty, v: Val)
    decreases t
  {
    match t
    case TU32 => v.VU32?
    case TU64 => v.VU64?
    case TBool => v.VBool?
    case TOpaque(max) => v.VOpaque? && |v.data| <= max && |v.data| <= U32_MAX
    case TFixed(len) => v.VFixed? && |v.raw| == len
    case TWords(most) => v.VWords? && |v.words| <= most && |v.words| <= U32_MAX
    case TOpt(t') => v.VNone? || (v.VSome? && HasType(t', v.body))
    case TList(t') => v.VList? && forall i | 0 <= i < |v.items| :: HasType(t', v.items[i])
    case TStruct(ts) =>
      v.VStruct? && |ts| == |v.fields| && forall i | 0 <= i < |ts| :: HasType(ts[i], v.fields[i])
    case TStatus(ok, fail) => v.VStatus? && HasType(if v.code == 0 then ok else fail, v.res)
  }

  predicate HaveTypes(ts: seq<Ty>, vs: seq<Val>) {
    HasType(TStruct(ts), VStruct(vs))
  }

  // ---------------------------------------------------------------- parsing

  function ParseWords(n: nat, b: bytes): (r: Option<(seq<u32>, bytes)>)
    ensures r.Some? ==> |r.value.0| == n && |r.value.1| == |b| - 4 * n
  {
    if n == 0 then Some(([], b))
    else if |b| < 4 then None
    else
      match ParseWords(n - 1, b[4..])
      case None => None
      case Some((ws, rest)) => Some(([De32(b)] + ws, rest))
  }

  function ParseOpaque(len: nat, b: bytes): (r: Option<(bytes, bytes)>)
    ensures r.Some? ==> |r.value.1| <= |b|
  {
    if |b| < len + PadLen(len) then None else Some((b[..len], b[len + PadLen(len)..]))
  }

  function Prepend(v: Val, r: Option<(seq<Val>, bytes)>): Option<(seq<Val>, bytes)> {
    if r.None? then None else Some(([v] + r.value.0, r.value.1))
  }

  /**
   * Read one value of type `t` off the front of `b`. Padding bytes are skipped
   * without being looked at; a boolean must be 0 or 1.
   */
  function Parse(t: Ty, b: bytes): (r: Option<(Val, bytes)>)
    ensures r.Some? ==> |r.value.1| <= |b|
    decreases |b|, t
  {
    match t
    case TU32 => if |b| < 4 then None else Some((VU32(De32(b)), b[4..]))
    case TU64 => if |b| < 8 then None else Some((VU64(De64(b)), b[8..]))
    case TBool => if |b| < 4 || De32(b) > 1 then None else Some((VBool(De32(b) == 1), b[4..]))
    case TOpaque(max) =>
      if |b| < 4 || De32(b) > max then None
      else (
        match ParseOpaque(De32(b), b[4..])
        case None => None
        case Some((data, rest)) => Some((VOpaque(data), rest)))
    case TFixed(len) =>
      (match ParseOpaque(len, b)
       case None => None
       case Some((data, rest)) => Some((VFixed(data), rest)))
    case TWords(max) =>
      if |b| < 4 || De32(b) > max then None
      else (
        match ParseWords(De32(b), b[4..])
        case None => None
        case Some((ws, rest)) => Some((VWords(ws), rest)))
    case TOpt(t') =>
      if |b| < 4 || De32(b) > 1 then None
      else if De32(b) == 0 then Some((VNone, b[4..]))
      else (
        match Parse(t', b[4..])
        case None => None
        case Some((v, rest)) => Some((VSome(v), rest)))
    case TList(t') =>
      (match ParseLinks(t', b)
       case None => None
       case Some((vs, rest)) => Some((VList(vs), rest)))
    case TStruct(ts) =>
      (match ParseAll(ts, b)
       case None => None
       case Some((vs, rest)) => Some((VStruct(vs), rest)))
    case TStatus(ok, fail) =>
      if |b| < 4 then None
      else (
        match Parse(if De32(b) == 0 then ok else fail, b[4..])
        case None => None
        case Some((v, rest)) => Some((VStatus(De32(b), v), rest)))
  }

  function ParseAll(ts: seq<Ty>, b: bytes): (r: Option<(seq<Val>, bytes)>)
    ensures r.Some? ==> |r.value.0| == |ts| && |r.value.1| <= |b|
    decreases |b|, ts
  {
    if ts == [] then Some(([], b))
    else
      match Parse(ts[0], b)
      case None => None
      case Some((v, rest)) => Prepend(v, ParseAll(ts[1..], rest))
  }

  function ParseLinks(t: Ty, b: bytes): (r: Option<(seq<Val>, bytes)>)
    ensures r.Some? ==> |r.value.1| <= |b|
    decreases |b|, t
  {
    if |b| < 4 || De32(b) > 1 then None
    else if De32(b) == 0 then Some(([], b[4..]))
    else
      match Parse(t, b[4..])
      case None => None
      case Some((v, rest)) => Prepend(v, ParseLinks(t, rest))
  }

  // ---------------------------------------------------------------- round trip

  lemma {:induction false} WordsRoundTrip(ws: seq<u32>, rest: bytes)
    ensures ParseWords(|ws|, EncWords(ws) + rest) == Some((ws, rest))
  {
    if ws == [] {
      assert EncWords(ws) + rest == rest;
    } else {
      var tail := EncWords(ws[1..]) + rest;
      assert EncWords(ws) + rest == Be32(ws[0]) + tail;
      De32Be32(ws[0], tail);
      WordsRoundTrip(ws[1..], rest);
      assert [ws[0]] + ws[1..] == ws;
    }
  }

  lemma Assoc(a: bytes, b: bytes, c: bytes)
    ensures a + b + c == a + (b + c)
  {
  }

  lemma OpaqueRoundTrip(data: bytes, rest: bytes)
    ensures ParseOpaque(|data|, Padded(data) + rest) == Some((data, rest))
  {
    var b := Padded(data) + rest;
    assert b[..|data|] == data;
    assert b[|data| + PadLen(|data|)..] == rest;
  }

  lemma VarOpaqueRoundTrip(max: nat, data: bytes, rest: bytes)
    requires HasType(TOpaque(max), VOpaque(data))
    ensures Parse(TOpaque(max), Enc(VOpaque(data)) + rest) == Some((VOpaque(data), rest))
  {
    var b := Enc(VOpaque(data)) + rest;
    assert Low32(|data|) == |data|;
    var tail := Padded(data) + rest;
    Assoc(Be32(|data|), Padded(data), rest);
    De32Be32(|data|, tail);
    OpaqueRoundTrip(data, rest);
  }

  lemma VarWordsRoundTrip(max: nat, ws: seq<u32>, rest: bytes)
    requires HasType(TWords(max), VWords(ws))
    ensures Parse(TWords(max), Enc(VWords(ws)) + rest) == Some((VWords(ws), rest))
  {
    var b := Enc(VWords(ws)) + rest;
    assert Low32(|ws|) == |ws|;
    var tail := EncWords(ws) + rest;
    Assoc(Be32(|ws|), EncWords(ws), rest);
    De32Be32(|ws|, tail);
    WordsRoundTrip(ws, rest);
  }

  lemma LeafRoundTrip(t: Ty, v: Val, rest: bytes)
    requires HasType(t, v)
    requires t.TU32? || t.TU64? || t.TBool? || t.TOpaque? || t.TFixed? || t.TWords?
    ensures Parse(t, Enc(v) + rest) == Some((v, rest))
  {
    match t
    case TU32 => De32Be32(v.n, rest);
    case TU64 => De64Be64(v.d, rest);
    case TBool => De32Be32(Flag(v.b), rest);
    case TOpaque(max) => VarOpaqueRoundTrip(max, v.data, rest);
    case TFixed(_) => OpaqueRoundTrip(v.raw, rest);
    case TWords(max) => VarWordsRoundTrip(max, v.words, rest);
  }

  /** Parsing an encoded value gives it back and leaves exactly what followed it. */
  lemma {:induction false} RoundTrip(t: Ty, v: Val, rest: bytes)
    requires HasType(t, v)
    ensures Parse(t, Enc(v) + rest) == Some((v, rest))
    decreases v, 1
  {
    match t
    case TOpt(t') =>
      if v.VNone? {
        De32Be32(0, rest);
      } else {
        Assoc(Be32(1), Enc(v.body), rest);
        De32Be32(1, Enc(v.body) + rest);
        RoundTrip(t', v.body, rest);
      }
    case TList(t') => LinksRoundTrip(t', v.items, rest);
    case TStruct(ts) => AllRoundTrip(ts, v.fields, rest);
    case TStatus(ok, fail) =>
      Assoc(Be32(v.code), Enc(v.res), rest);
      De32Be32(v.code, Enc(v.res) + rest);
      RoundTrip(if v.code == 0 then ok else fail, v.res, rest);
    case _ => LeafRoundTrip(t, v, rest);
  }

  lemma {:induction false} AllRoundTrip(ts: seq<Ty>, vs: seq<Val>, rest: bytes)
    requires HaveTypes(ts, vs)
    ensures ParseAll(ts, EncAll(vs) + rest) == Some((vs, rest))
    decreases vs, 0
  {
    if vs == [] {
      assert EncAll(vs) + rest == rest;
    } else {
      var tail := EncAll(vs[1..]) + rest;
      assert EncAll(vs) + rest == Enc(vs[0]) + tail;
      RoundTrip(ts[0], vs[0], tail);
      AllRoundTrip(ts[1..], vs[1..], rest);
      assert [vs[0]] + vs[1..] == vs;
    }
  }

  lemma LinksFront(item: bytes, links: bytes, rest: bytes)
    ensures Be32(1) + item + links + Be32(0) + rest == Be32(1) + (item + (links + Be32(0) + rest))
  {
  }

  lemma LinksStep(t: Ty, v: Val, vs: seq<Val>, rest: bytes)
    requires
      var tail := EncLinks(vs) + Be32(0) + rest;
      Parse(t, Enc(v) + tail) == Some((v, tail)) && ParseLinks(t, tail) == Some((vs, rest))
    ensures ParseLinks(t, Be32(1) + Enc(v) + EncLinks(vs) + Be32(0) + rest) == Some(([v] + vs, rest))
  {
    LinksFront(Enc(v), EncLinks(vs), rest);
    De32Be32(1, Enc(v) + (EncLinks(vs) + Be32(0) + rest));
  }

  lemma {:induction false} LinksRoundTrip(t: Ty, vs: seq<Val>, rest: bytes)
    requires HasType(TList(t), VList(vs))
    ensures ParseLinks(t, EncLinks(vs) + Be32(0) + rest) == Some((vs, rest))
    decreases vs, 0
  {
    if vs == [] {
      assert EncLinks(vs) + Be32(0) + rest == Be32(0) + rest;
      De32Be32(0, rest);
    } else {
      RoundTrip(t, vs[0], EncLinks(vs[1..]) + Be32(0) + rest);
      LinksRoundTrip(t, vs[1..], rest);
      LinksStep(t, vs[0], vs[1..], rest);
      assert [vs[0]] + vs[1..] == vs;
    }
  }

  // ---------------------------------------------------------------- parses are typed

  lemma {:induction false} ParseTyped(t: Ty, b: bytes)
    requires Parse(t, b).Some?
    ensures HasType(t, Parse(t, b).value.0)
    decreases |b|, t
  {
    match t
    case TOpt(t') => if De32(b) == 1 { ParseTyped(t', b[4..]); }
    case TList(t') => LinksTyped(t', b);
    case TStruct(ts) => AllTyped(ts, b);
    case TStatus(ok, fail) => ParseTyped(if De32(b) == 0 then ok else fail, b[4..]);
    case _ =>
  }

  lemma {:induction false} AllTyped(ts: seq<Ty>, b: bytes)
    requires ParseAll(ts, b).Some?
    ensures HaveTypes(ts, ParseAll(ts, b).value.0)
    decreases |b|, ts
  {
    if ts != [] {
      ParseTyped(ts[0], b);
      AllTyped(ts[1..], Parse(ts[0], b).value.1);
    }
  }

  lemma {:induction false} LinksTyped(t: Ty, b: bytes)
    requires ParseLinks(t, b).Some?
    ensures HasType(TList(t), VList(ParseLinks(t, b).value.0))
    decreases |b|, t
  {
    if De32(b) == 1 {
      ParseTyped(t, b[4..]);
      LinksTyped(t, Parse(t, b[4..]).value.1);
    }
  }

  // ---------------------------------------------------------------- extension

  lemma {:induction false} WordsExtend(n: nat, b: bytes, more: bytes)
    requires ParseWords(n, b).Some?
    ensures ParseWords(n, b + more) == Some((ParseWords(n, b).value.0, ParseWords(n, b).value.1 + more))
  {
    if n > 0 {
      assert (b + more)[4..] == b[4..] + more;
      assert (b + more)[..4] == b[..4];
      WordsExtend(n - 1, b[4..], more);
    }
  }

  lemma OpaqueExtend(len: nat, b: bytes, more: bytes)
    requires ParseOpaque(len, b).Some?
    ensures ParseOpaque(len, b + more) == Some((ParseOpaque(len, b).value.0, ParseOpaque(len, b).value.1 + more))
  {
    var p := len + PadLen(len);
    assert (b + more)[..len] == b[..len];
    assert (b + more)[p..] == b[p..] + more;
  }

  /** More input never changes a parse that already succeeded. */
  lemma {:induction false} ParseExtend(t: Ty, b: bytes, more: bytes)
    requires Parse(t, b).Some?
    ensures Parse(t, b + more) == Some((Parse(t, b).value.0, Parse(t, b).value.1 + more))
    decreases |b|, t
  {
    if |b| >= 4 {
      assert (b + more)[4..] == b[4..] + more;
      assert (b + more)[..4] == b[..4];
    }
    match t
    case TU32 =>
    case TU64 =>
      assert (b + more)[8..] == b[8..] + more;
      assert (b + more)[..8] == b[..8];
    case TBool =>
    case TOpaque(_) => OpaqueExtend(De32(b), b[4..], more);
    case TFixed(len) => OpaqueExtend(len, b, more);
    case TWords(_) => WordsExtend(De32(b), b[4..], more);
    case TOpt(t') => if De32(b) == 1 { ParseExtend(t', b[4..], more); }
    case TList(t') => LinksExtend(t', b, more);
    case TStruct(ts) => AllExtend(ts, b, more);
    case TStatus(ok, fail) => ParseExtend(if De32(b) == 0 then ok else fail, b[4..], more);
  }

  lemma {:induction false} AllExtend(ts: seq<Ty>, b: bytes, more: bytes)
    requires ParseAll(ts, b).Some?
    ensures ParseAll(ts, b + more) == Some((ParseAll(ts, b).value.0, ParseAll(ts, b).value.1 + more))
    decreases |b|, ts
  {
    if ts != [] {
      ParseExtend(ts[0], b, more);
      AllExtend(ts[1..], Parse(ts[0], b).value.1, more);
    }
  }

  lemma {:induction false} LinksExtend(t: Ty, b: bytes, more: bytes)
    requires ParseLinks(t, b).Some?
    ensures ParseLinks(t, b + more) == Some((ParseLinks(t, b).value.0, ParseLinks(t, b).value.1 + more))
    decreases |b|, t
  {
    assert (b + more)[4..] == b[4..] + more;
    assert (b + more)[..4] == b[..4];
    if De32(b) == 1 {
      ParseExtend(t, b[4..], more);
      LinksExtend(t, Parse(t, b[4..]).value.1, more);
    }
  }

  /** No strict prefix of an encoded message parses as that message type. */
  lemma PrefixRejected(ts: seq<Ty>, vs: seq<Val>, k: nat)
    requires HaveTypes(ts, vs)
    requires k < |EncAll(vs)|
    ensures ParseAll(ts, EncAll(vs)[..k]) == None
  {
    var p := EncAll(vs)[..k];
    if ParseAll(ts, p).Some? {
      var q := EncAll(vs)[k..];
      AllExtend(ts, p, q);
      assert p + q == EncAll(vs) + [];
      AllRoundTrip(ts, vs, []);
      assert false;
    }
  }

  // ---------------------------------------------------------------- structure

  lemma {:induction false} EncAllConcat(vs: seq<Val>, ws: seq<Val>)
    ensures EncAll(vs + ws) == EncAll(vs) + EncAll(ws)
  {
    if vs == [] {
      assert vs + ws == ws;
    } else {
      assert (vs + ws)[1..] == vs[1..] + ws;
      EncAllConcat(vs[1..], ws);
    }
  }

  lemma {:induction false} EncLinksConcat(vs: seq<Val>, ws: seq<Val>)
    ensures EncLinks(vs + ws) == EncLinks(vs) + EncLinks(ws)
  {
    if vs == [] {
      assert vs + ws == ws;
    } else {
      assert (vs + ws)[1..] == vs[1..] + ws;
      EncLinksConcat(vs[1..], ws);
    }
  }

  /** Parsing a structure field by field, in two runs. */
  lemma {:induction false} ParseAllConcat(ts: seq<Ty>, us: seq<Ty>, b: bytes)
    ensures ParseAll(ts, b) == None ==> ParseAll(ts + us, b) == None
    ensures ParseAll(ts, b).Some? ==>
              var (vs, rest) := ParseAll(ts, b).value;
              ParseAll(ts + us, b) ==
              match ParseAll(us, rest)
              case None => None
              case Some((ws, rest')) => Some((vs + ws, rest'))
    decreases |ts|
  {
    if ts == [] {
      assert ts + us == us;
      if ParseAll(us, b).Some? {
        assert [] + ParseAll(us, b).value.0 == ParseAll(us, b).value.0;
      }
    } else {
      assert (ts + us)[1..] == ts[1..] + us;
      match Parse(ts[0], b)
      case None =>
      case Some((v, rest)) =>
        ParseAllConcat(ts[1..], us, rest);
        match ParseAll(ts[1..], rest)
        case None =>
        case Some((vs, mid)) =>
          match ParseAll(us, mid)
          case None =>
          case Some((ws, _)) => assert [v] + (vs + ws) == ([v] + vs) + ws;
    }
  }

  lemma LeafAligned(t: Ty, v: Val)
    requires HasType(t, v)
    requires t.TU32? || t.TU64? || t.TBool? || t.TOpaque? || t.TFixed? || t.TWords?
    ensures |Enc(v)| % 4 == 0
  {
    match t
    case TOpaque(_) =>
      PaddedAligned(v.data);
      SumAligned(4, |Padded(v.data)|);
    case TFixed(_) => PaddedAligned(v.raw);
    case _ =>
  }

  /** Every typed value occupies whole four-byte words (RFC 4506 section 3). */
  lemma {:induction false} Aligned(t: Ty, v: Val)
    requires HasType(t, v)
    ensures |Enc(v)| % 4 == 0
    decreases v, 1
  {
    match t
    case TOpt(t') =>
      if v.VSome? {
        Aligned(t', v.body);
        SumAligned(4, |Enc(v.body)|);
      }
    case TList(t') =>
      LinksAligned(t', v.items);
      SumAligned(|EncLinks(v.items)|, 4);
    case TStruct(ts) => AllAligned(ts, v.fields);
    case TStatus(ok, fail) =>
      Aligned(if v.code == 0 then ok else fail, v.res);
      SumAligned(4, |Enc(v.res)|);
    case _ => LeafAligned(t, v);
  }

  lemma {:induction false} AllAligned(ts: seq<Ty>, vs: seq<Val>)
    requires HaveTypes(ts, vs)
    ensures |EncAll(vs)| % 4 == 0
    decreases vs, 0
  {
    if vs != [] {
      Aligned(ts[0], vs[0]);
      AllAligned(ts[1..], vs[1..]);
      SumAligned(|Enc(vs[0])|, |EncAll(vs[1..])|);
    }
  }

  lemma {:induction false} LinksAligned(t: Ty, vs: seq<Val>)
    requires HasType(TList(t), VList(vs))
    ensures |EncLinks(vs)| % 4 == 0
    decreases vs, 0
  {
    if vs != [] {
      Aligned(t, vs[0]);
      LinksAligned(t, vs[1..]);
      SumAligned(4, |Enc(vs[0])|);
      SumAligned(4 + |Enc(vs[0])|, |EncLinks(vs[1..])|);
    }
  }
}
