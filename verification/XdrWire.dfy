/** The bytes of each encoded value, digit by digit (RFC 4506 section 4). */
module XdrWire {
  import opened Wrappers
  import opened Xdr

  lemma LowDigits(n: nat, k: nat)
    ensures BigEndian(n, k + 4) ==
            BigEndian(n / 0x1_0000_0000, k) + [n / 0x100_0000 % 0x100, n / 0x1_0000 % 0x100, n / 0x100 % 0x100, n % 0x100]
  {
    assert n / 0x100 / 0x100 == n / 0x1_0000;
    assert n / 0x1_0000 / 0x100 == n / 0x100_0000;
    assert n / 0x100_0000 / 0x100 == n / 0x1_0000_0000;
    assert BigEndian(n / 0x100_0000, k + 1) == BigEndian(n / 0x1_0000_0000, k) + [n / 0x100_0000 % 0x100];
    assert BigEndian(n / 0x1_0000, k + 2) == BigEndian(n / 0x100_0000, k + 1) + [n / 0x1_0000 % 0x100];
    assert BigEndian(n / 0x100, k + 3) == BigEndian(n / 0x1_0000, k + 2) + [n / 0x100 % 0x100];
    assert BigEndian(n, k + 4) == BigEndian(n / 0x100, k + 3) + [n % 0x100];
  }

  /** A word is its four base-256 digits, most significant first (RFC 4506 section 4.1). */
  lemma FourDigits(n: u32)
    ensures Enc(VU32(n)) == Be32(n) == [n / 0x100_0000, n / 0x1_0000 % 0x100, n / 0x100 % 0x100, n % 0x100]
  {
    LowDigits(n, 0);
  }

  lemma SmallWords()
    ensures Be32(0) == [0, 0, 0, 0] && Be32(1) == [0, 0, 0, 1]
  {
    FourDigits(0);
    FourDigits(1);
  }

  lemma Shifted(n: nat)
    ensures n / 0x1_0000_0000 / 0x100 == n / 0x100_0000_0000
    ensures n / 0x1_0000_0000 / 0x1_0000 == n / 0x1_0000_0000_0000
    ensures n / 0x1_0000_0000 / 0x100_0000 == n / 0x100_0000_0000_0000
  {
  }

  /** A double word is its eight (section 4.5). */
  lemma EightDigits(n: u64)
    ensures Enc(VU64(n)) ==
            [n / 0x100_0000_0000_0000, n / 0x1_0000_0000_0000 % 0x100, n / 0x100_0000_0000 % 0x100, n / 0x1_0000_0000 % 0x100,
             n / 0x100_0000 % 0x100, n / 0x1_0000 % 0x100, n / 0x100 % 0x100, n % 0x100]
  {
    LowDigits(n, 4);
    FourDigits(n / 0x1_0000_0000);
    Shifted(n);
  }

  /** Booleans are words (section 4.4); a length word comes before variable data (section 4.10). */
  lemma LeafForm(data: bytes)
    requires |data| <= 0xFFFF_FFFF
    ensures Enc(VBool(false)) == [0, 0, 0, 0] && Enc(VBool(true)) == [0, 0, 0, 1]
    ensures Enc(VOpaque(data)) == Enc(VU32(|data|)) + Enc(VFixed(data))
  {
    SmallWords();
    LengthWord(|data|);
  }

  /** Opaque data is followed by zeros, up to the next multiple of four and no further (section 4.9). */
  lemma PaddedForm(data: bytes)
    ensures
      var b := Enc(VFixed(data));
      && |b| % 4 == 0 && |data| <= |b| < |data| + 4 && b[..|data|] == data
      && forall i | |data| <= i < |b| :: b[i] == 0
  {
  }

  /** Optional data starts with the word 1 or is the word 0 (section 4.19). */
  lemma OptionalForm(v: Val)
    ensures Enc(VNone) == [0, 0, 0, 0] && Enc(VSome(v)) == [0, 0, 0, 1] + Enc(v)
  {
    SmallWords();
  }

  lemma LinkFront(v: Val, vs: seq<Val>)
    ensures EncLinks([v] + vs) == Be32(1) + Enc(v) + EncLinks(vs)
  {
    assert ([v] + vs)[1..] == vs;
  }

  /** So does every link of a list, and so it ends. */
  lemma LinksForm(v: Val, vs: seq<Val>)
    ensures Enc(VList([])) == [0, 0, 0, 0] && Enc(VList([v] + vs)) == [0, 0, 0, 1] + Enc(v) + Enc(VList(vs))
  {
    SmallWords();
    Links(v, vs);
  }

  lemma Links(v: Val, vs: seq<Val>)
    ensures Enc(VList([])) == Be32(0) && Enc(VList([v] + vs)) == Be32(1) + Enc(v) + Enc(VList(vs))
  {
    LinkFront(v, vs);
    Assoc(Be32(1) + Enc(v), EncLinks(vs), Be32(0));
  }

  /** An array of words is its length and then the words (section 4.13). */
  lemma {:induction false} WordsForm(ws: seq<u32>)
    requires |ws| <= 0xFFFF_FFFF
    ensures Enc(VWords(ws)) == Be32(|ws|) + EncWords(ws)
  {
    LengthWord(|ws|);
  }

  lemma LengthWord(n: nat)
    requires n <= 0xFFFF_FFFF
    ensures Low32(n) == n
  {
  }

  lemma {:induction false} WordAt(ws: seq<u32>, i: nat)
    requires i < |ws|
    ensures EncWords(ws)[4 * i..4 * i + 4] == Be32(ws[i])
  {
    if i > 0 {
      WordAt(ws[1..], i - 1);
    }
  }

  /** Fields follow one another (section 4.14); a status word comes before its arm (section 4.15). */
  lemma StructForm(v: Val, vs: seq<Val>, code: u32)
    ensures Enc(VStruct([])) == []
    ensures Enc(VStruct([v] + vs)) == Enc(v) + Enc(VStruct(vs))
    ensures Enc(VStatus(code, v)) == Enc(VU32(code)) + Enc(v)
  {
    assert ([v] + vs)[1..] == vs;
  }

  /** Variable data that is over its limit ends the reading of a structure, whatever follows. */
  lemma OverLimit(before: seq<Ty>, vs: seq<Val>, max: nat, later: seq<Ty>, data: bytes, rest: bytes)
    requires HaveTypes(before, vs) && max < |data| <= 0xFFFF_FFFF
    ensures ParseAll(before + [TOpaque(max)] + later, EncAll(vs) + (Enc(VOpaque(data)) + rest)) == None
  {
    var b := Enc(VOpaque(data)) + rest;
    AllRoundTrip(before, vs, b);
    LengthWord(|data|);
    Assoc(Be32(|data|), Padded(data), rest);
    De32Be32(|data|, Padded(data) + rest);
    assert Parse(TOpaque(max), b) == None;
    assert ParseAll([TOpaque(max)] + later, b) == None;
    ParseAllConcat(before, [TOpaque(max)] + later, EncAll(vs) + b);
    assert before + [TOpaque(max)] + later == before + ([TOpaque(max)] + later);
  }

  lemma FieldOverLimit(ts: seq<Ty>, vs: seq<Val>, n: nat, max: nat, rest: bytes)
    requires |ts| == |vs| && n < |ts| && HaveTypes(ts[..n], vs[..n])
    requires ts[n] == TOpaque(max) && vs[n].VOpaque? && max < |vs[n].data| <= 0xFFFF_FFFF
    ensures ParseAll(ts, EncAll(vs) + rest) == None
  {
    assert ts == ts[..n] + [ts[n]] + ts[n + 1..] && vs == vs[..n] + vs[n..];
    assert vs[n..][1..] == vs[n + 1..];
    EncAllConcat(vs[..n], vs[n..]);
    Assoc(EncAll(vs[..n]), EncAll(vs[n..]), rest);
    Assoc(Enc(vs[n]), EncAll(vs[n + 1..]), rest);
    OverLimit(ts[..n], vs[..n], max, ts[n + 1..], vs[n].data, EncAll(vs[n + 1..]) + rest);
  }
}
