/**
 * The bounds-checked cursor and the growing buffer every protocol layer works
 * through. Both carry, as ghost state, the fields they have handled so far, so
 * that a run of reads is a `ParseAll` and a run of writes is an `EncAll`.
 */
module XdrCursor {
  import opened Wrappers
  import opened Xdr

  lemma PushField(vs: seq<Val>, v: Val)
    ensures EncAll(vs + [v]) == EncAll(vs) + Enc(v)
  {
    EncAllConcat(vs, [v]);
    assert EncAll([v]) == Enc(v) + [];
  }

  lemma OneField(v: Val)
    ensures EncAll([v]) == Enc(v)
  {
    PushField([], v);
    assert [] + [v] == [v];
  }

  lemma TwoFields(a: Val, b: Val)
    ensures EncAll([a, b]) == Enc(a) + Enc(b)
  {
    OneField(a);
    PushField([a], b);
    assert [a] + [b] == [a, b];
  }

  lemma OneWord(n: u32)
    ensures EncAll([VU32(1), VU32(n)]) == Enc(VWords([n]))
  {
    TwoFields(VU32(1), VU32(n));
    var ws := [n];
    assert ws[1..] == [];
    assert EncWords(ws) == Be32(n) + EncWords([]);
  }

  lemma NextField(ts: seq<Ty>, t: Ty, b: bytes)
    requires ParseAll(ts, b).Some?
    ensures
      var (vs, rest) := ParseAll(ts, b).value;
      ParseAll(ts + [t], b) ==
      match Parse(t, rest)
      case None => None
      case Some((v, rest')) => Some((vs + [v], rest'))
  {
    ParseAllConcat(ts, [t], b);
    var rest := ParseAll(ts, b).value.1;
    if Parse(t, rest).Some? {
      assert ParseAll([], Parse(t, rest).value.1) == Some(([], Parse(t, rest).value.1));
      assert [Parse(t, rest).value.0] + [] == [Parse(t, rest).value.0];
    }
  }

  /** Once the first `n` fields fail to parse, so does the whole structure. */
  lemma Stuck(ts: seq<Ty>, n: nat, b: bytes)
    requires n <= |ts|
    requires ParseAll(ts[..n], b) == None
    ensures ParseAll(ts, b) == None
  {
    ParseAllConcat(ts[..n], ts[n..], b);
    assert ts[..n] + ts[n..] == ts;
  }

  class Reader {
    const buf: bytes
    var pos: nat
    ghost var base: nat       // where the structure being read starts
    ghost var seen: seq<Ty>   // its fields read so far
    ghost var got: seq<Val>   // and their values

    ghost predicate Valid()
      reads this
    {
      base <= pos <= |buf| && ParseAll(seen, buf[base..]) == Some((got, buf[pos..]))
    }

    /** The bytes of the structure being read, from its first field on. */
    ghost function Input(): bytes
      reads this
      requires base <= |buf|
    {
      buf[base..]
    }

    constructor (b: bytes)
      ensures Valid() && buf == b && pos == base == 0 && seen == [] && got == []
    {
      buf := b;
      pos, base, seen, got := 0, 0, [], [];
    }

    /** Start reading a new structure where the cursor stands. */
    ghost method Mark()
      requires Valid()
      modifies `base, `seen, `got
      ensures Valid() && base == pos && seen == [] && got == []
    {
      base, seen, got := pos, [], [];
    }

    /** `None`, with the cursor unmoved, when fewer than `n` bytes remain. */
    method Take(n: nat) returns (r: Option<bytes>)
      requires pos <= |buf|
      modifies `pos
      ensures old(pos) <= pos <= |buf|
      ensures r.None? <==> old(pos) + n > |buf|
      ensures r.None? ==> pos == old(pos)
      ensures r.Some? ==> pos == old(pos) + n && r.value == buf[old(pos)..pos]
    {
      if pos + n > |buf| {
        return None;
      }
      r := Some(buf[pos..pos + n]);
      pos := pos + n;
    }

    method ReadU32() returns (r: Option<u32>)
      requires Valid()
      modifies this
      ensures base == old(base) <= pos <= |buf|
      ensures r.None? ==> ParseAll(old(seen) + [TU32], Input()) == None
      ensures r.Some? ==> Valid() && seen == old(seen) + [TU32] && got == old(got) + [VU32(r.value)]
    {
      NextField(seen, TU32, buf[base..]);
      var b := Take(4);
      if b.None? {
        return None;
      }
      assert buf[old(pos)..][..4] == b.value[..4];
      assert buf[old(pos)..][4..] == buf[pos..];
      r := Some(De32(b.value));
      seen, got := seen + [TU32], got + [VU32(r.value)];
    }

    method ReadU64() returns (r: Option<u64>)
      requires Valid()
      modifies this
      ensures base == old(base) <= pos <= |buf|
      ensures r.None? ==> ParseAll(old(seen) + [TU64], Input()) == None
      ensures r.Some? ==> Valid() && seen == old(seen) + [TU64] && got == old(got) + [VU64(r.value)]
    {
      NextField(seen, TU64, buf[base..]);
      var b := Take(8);
      if b.None? {
        return None;
      }
      assert buf[old(pos)..][..8] == b.value[..8];
      assert buf[old(pos)..][8..] == buf[pos..];
      r := Some(De64(b.value));
      seen, got := seen + [TU64], got + [VU64(r.value)];
    }

    /**
     * Exactly `n` bytes and no padding, so this reads an XDR `opaque[n]` only
     * for `n` a multiple of four; see `UnpaddedFixedRead`.
     */
    method ReadOpaqueFixed(n: nat) returns (r: Option<bytes>)
      requires Valid()
      modifies this
      ensures base == old(base) <= pos <= |buf|
      ensures r.Some? <==> old(pos) + n <= |buf|
      ensures r.Some? ==> pos == old(pos) + n && r.value == buf[old(pos)..pos]
      ensures n % 4 == 0 && r.None? ==> ParseAll(old(seen) + [TFixed(n)], Input()) == None
      ensures n % 4 == 0 && r.Some? ==>
                Valid() && seen == old(seen) + [TFixed(n)] && got == old(got) + [VFixed(r.value)]
    {
      NextField(seen, TFixed(n), buf[base..]);
      r := Take(n);
      if r.Some? {
        assert buf[old(pos)..][..n] == r.value;
        assert buf[old(pos)..][n..] == buf[pos..];
        seen, got := seen + [TFixed(n)], got + [VFixed(r.value)];
      }
    }

    /** On failure the cursor may already have moved past the length word. */
    method ReadOpaqueVar(max: u32) returns (r: Option<bytes>)
      requires Valid()
      modifies this
      ensures base == old(base) <= pos <= |buf|
      ensures r.None? ==> ParseAll(old(seen) + [TOpaque(max)], Input()) == None
      ensures r.Some? ==>
                && Valid() && |r.value| <= max
                && seen == old(seen) + [TOpaque(max)] && got == old(got) + [VOpaque(r.value)]
    {
      ghost var rest := buf[pos..];
      NextField(seen, TOpaque(max), buf[base..]);
      var word := Take(4);
      if word.None? {
        return None;
      }
      assert rest[..4] == word.value[..4];
      var len := De32(word.value);
      if len > max {
        return None;
      }
      var data := Take(len);
      if data.None? {
        return None;
      }
      var pad := Take(PadLen(len));
      if pad.None? {
        return None;
      }
      assert rest[4..] == buf[old(pos) + 4..];
      assert rest[4..][..len] == data.value;
      assert rest[4..][len + PadLen(len)..] == buf[pos..];
      seen, got := seen + [TOpaque(max)], got + [VOpaque(data.value)];
      return data;
    }

    /** An `opaque_auth` of RFC 5531 section 8.2: skipped, never inspected. */
    method SkipOpaqueAuth() returns (ok: bool)
      requires Valid()
      modifies this
      ensures base == old(base) <= pos <= |buf|
      ensures !ok ==> ParseAll(old(seen) + [TU32, TOpaque(400)], Input()) == None
      ensures ok ==>
                && Valid() && seen == old(seen) + [TU32, TOpaque(400)]
                && exists flavor, body :: got == old(got) + [VU32(flavor), VOpaque(body)]
    {
      var flavor := ReadU32();
      if flavor.None? {
        ParseAllConcat(old(seen) + [TU32], [TOpaque(400)], Input());
        assert old(seen) + [TU32] + [TOpaque(400)] == old(seen) + [TU32, TOpaque(400)];
        return false;
      }
      var body := ReadOpaqueVar(400);
      assert old(seen) + [TU32] + [TOpaque(400)] == old(seen) + [TU32, TOpaque(400)];
      if body.None? {
        return false;
      }
      assert got == old(got) + [VU32(flavor.value), VOpaque(body.value)];
      return true;
    }
  }

  /**
   * Reading back a fixed-length opaque without its padding leaves the cursor
   * at the end of the field exactly when the length is a multiple of four.
   */
  lemma UnpaddedFixedRead(data: bytes, rest: bytes)
    ensures (Enc(VFixed(data)) + rest)[|data|..] == rest <==> |data| % 4 == 0
  {
    var b := Enc(VFixed(data)) + rest;
    if |data| % 4 == 0 {
      assert b[|data|..] == rest;
    } else {
      assert |b[|data|..]| != |rest|;
    }
  }

  class Writer {
    var buf: bytes
    ghost var fields: seq<Val>

    ghost predicate Valid()
      reads this
    {
      buf == EncAll(fields)
    }

    constructor ()
      ensures Valid() && buf == [] && fields == []
    {
      buf, fields := [], [];
    }

    /** See the fields `parts` written last as the one value `v`. */
    ghost method Group(front: seq<Val>, parts: seq<Val>, v: Val)
      requires Valid() && fields == front + parts
      requires EncAll(parts) == Enc(v)
      modifies `fields
      ensures Valid() && fields == front + [v]
    {
      EncAllConcat(front, parts);
      PushField(front, v);
      fields := front + [v];
    }

    method WriteU32(n: u32)
      requires Valid()
      modifies this
      ensures Valid() && fields == old(fields) + [VU32(n)]
    {
      PushField(fields, VU32(n));
      buf := buf + Be32(n);
      fields := fields + [VU32(n)];
    }

    method WriteU64(n: u64)
      requires Valid()
      modifies this
      ensures Valid() && fields == old(fields) + [VU64(n)]
    {
      PushField(fields, VU64(n));
      buf := buf + Be64(n);
      fields := fields + [VU64(n)];
    }

    method WriteBool(b: bool)
      requires Valid()
      modifies this
      ensures Valid() && fields == old(fields) + [VBool(b)]
    {
      PushField(fields, VBool(b));
      buf := buf + Be32(Flag(b));
      fields := fields + [VBool(b)];
    }

    method WriteOpaqueFixed(data: bytes)
      requires Valid()
      modifies this
      ensures Valid() && fields == old(fields) + [VFixed(data)]
    {
      PushField(fields, VFixed(data));
      buf := buf + data;
      buf := buf + Zeros(PadLen(|data|));
      assert buf == old(buf) + Padded(data);
      fields := fields + [VFixed(data)];
    }

    method WriteOpaqueVar(data: bytes)
      requires Valid()
      modifies this
      ensures Valid() && fields == old(fields) + [VOpaque(data)]
    {
      PushField(fields, VOpaque(data));
      PushField(fields, VU32(Low32(|data|)));
      PushField(fields + [VU32(Low32(|data|))], VFixed(data));
      WriteU32(Low32(|data|));
      WriteOpaqueFixed(data);
      Assoc(old(buf), Be32(Low32(|data|)), Padded(data));
      fields := old(fields) + [VOpaque(data)];
    }

    method ExtendFrom(encoded: bytes)
      requires Valid()
      modifies this
      ensures Valid() && fields == old(fields) + [VRaw(encoded)]
    {
      PushField(fields, VRaw(encoded));
      buf := buf + encoded;
      fields := fields + [VRaw(encoded)];
    }
  }
}
