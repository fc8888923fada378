/**
 * NFSv3 file handles (a 16-byte secret followed by the inode) and the public
 * export value of the MOUNT protocol.
 */
module FileHandle {
  import opened Wrappers
  import opened Xdr
  import XdrWire
  import Bits

  const SECRET_LEN: nat := 16
  const ENCODED_LEN: nat := 24
  const COOKIEVERF: bytes := [0, 0, 0, 0, 0, 0, 0, 0]

  type Secret = s: bytes | |s| == SECRET_LEN witness Zeros(16)

  /** OR-ing a byte's difference into the accumulator keeps it zero only if the bytes agree. */
  lemma Accumulate(diff: nat, x: byte, y: byte)
    requires diff < Bits.Pow2(8)
    ensures Bits.Or(diff, Bits.Xor(x, y, 8), 8) == 0 <==> diff == 0 && x == y
  {
    assert Bits.Pow2(8) == 256;
    Bits.XorIsZero(x, y, 8);
    Bits.OrIsZero(diff, Bits.Xor(x, y, 8), 8);
  }

  /** Compare without an early exit: the accumulated differences are zero only for equal strings. */
  method CtEq(a: bytes, b: bytes) returns (eq: bool)
    ensures eq <==> a == b
  {
    if |a| != |b| {
      return false;
    }
    var diff: nat := 0;
    for i := 0 to |a|
      invariant diff < Bits.Pow2(8)
      invariant diff == 0 <==> a[..i] == b[..i]
    {
      Accumulate(diff, a[i], b[i]);
      assert a[..i + 1] == a[..i] + [a[i]] && b[..i + 1] == b[..i] + [b[i]];
      diff := Bits.Or(diff, Bits.Xor(a[i], b[i], 8), 8);
    }
    assert a[..|a|] == a && b[..|b|] == b;
    return diff == 0;
  }

  function EncodeHandle(secret: Secret, ino: u64): (h: bytes)
    ensures |h| == ENCODED_LEN
  {
    secret + Be64(ino)
  }

  function Resolve(secret: Secret, h: bytes): Option<u64> {
    if |h| != ENCODED_LEN || h[..16] != secret then None else Some(De64(h[16..]))
  }

  method ResolveHandle(secret: Secret, h: bytes) returns (r: Option<u64>)
    ensures r == Resolve(secret, h)
  {
    if |h| != ENCODED_LEN {
      return None;
    }
    var same := CtEq(h[..16], secret);
    if !same {
      return None;
    }
    assert h[16..24] == h[16..];
    return Some(De64(h[16..24]));
  }

  /** A handle is the 16 bytes of the secret and the inode, most significant byte first. */
  lemma HandleForm(secret: Secret, ino: u64)
    ensures
      var h := EncodeHandle(secret, ino);
      && |h| == 24 && h[..16] == secret
      && h[16..] == [ino / 0x100_0000_0000_0000, ino / 0x1_0000_0000_0000 % 0x100, ino / 0x100_0000_0000 % 0x100,
                     ino / 0x1_0000_0000 % 0x100, ino / 0x100_0000 % 0x100, ino / 0x1_0000 % 0x100, ino / 0x100 % 0x100, ino % 0x100]
  {
    XdrWire.EightDigits(ino);
    assert EncodeHandle(secret, ino)[16..] == Be64(ino);
  }

  /** The handles this mount issued are exactly the ones it resolves, each to its own inode. */
  lemma ResolveInvertsEncode(secret: Secret, h: bytes, ino: u64)
    ensures Resolve(secret, h) == Some(ino) <==> h == EncodeHandle(secret, ino)
  {
    if |h| == ENCODED_LEN && h[..16] == secret {
      var tail := h[16..];
      assert tail[..8] == tail;
      BigEndianOfFromBigEndian(tail);
      assert Be64(De64(tail)) == tail;
      assert h == secret + tail;
    }
    if h == EncodeHandle(secret, ino) {
      assert h[..16] == secret;
      assert h[16..] == Be64(ino) + [];
      De64Be64(ino, []);
    }
  }

  // ---------------------------------------------------------------- export value

  function HexDigit(n: nat): (c: byte)
    requires n < 16
  {
    if n < 10 then 48 + n else 87 + n
  }

  predicate IsHexDigit(c: byte) {
    48 <= c <= 57 || 65 <= c <= 70 || 97 <= c <= 102
  }

  predicate IsLowerHexDigit(c: byte) {
    48 <= c <= 57 || 97 <= c <= 102
  }

  /** Two lowercase hexadecimal digits for each byte. */
  function Hex(secret: bytes): (h: bytes)
    ensures |h| == 2 * |secret|
    ensures forall i | 0 <= i < |h| :: IsLowerHexDigit(h[i])
  {
    if secret == [] then []
    else [HexDigit(secret[0] / 16), HexDigit(secret[0] % 16)] + Hex(secret[1..])
  }

  function DigitValue(c: byte): (n: nat)
    requires IsHexDigit(c)
    ensures n < 16
  {
    if c <= 57 then c - 48 else if c <= 70 then c - 55 else c - 87
  }

  /** The bytes a string of hexadecimal digits stands for, the high digit of each first. */
  function FromHex(h: bytes): bytes
    requires |h| % 2 == 0 && forall i | 0 <= i < |h| :: IsHexDigit(h[i])
  {
    if h == [] then [] else [16 * DigitValue(h[0]) + DigitValue(h[1])] + FromHex(h[2..])
  }

  /** Reading the digits as hexadecimal gives the value back. */
  lemma {:induction false} HexReadsBack(s: bytes)
    ensures FromHex(Hex(s)) == s
  {
    if s != [] {
      assert Hex(s)[2..] == Hex(s[1..]);
      assert DigitValue(HexDigit(s[0] / 16)) == s[0] / 16 && DigitValue(HexDigit(s[0] % 16)) == s[0] % 16;
      HexReadsBack(s[1..]);
    }
  }

  /** The digits are those of `0123456789abcdef`, the high one of each byte first. */
  lemma {:induction false} HexForm(s: bytes, i: nat)
    requires i < |s|
    ensures
      var digits := "0123456789abcdef";
      Hex(s)[2 * i] == digits[s[i] / 16] as int && Hex(s)[2 * i + 1] == digits[s[i] % 16] as int
  {
    if i > 0 {
      HexForm(s[1..], i - 1);
      assert Hex(s)[2..] == Hex(s[1..]);
    } else {
      DigitForm(s[0] / 16);
      DigitForm(s[0] % 16);
    }
  }

  lemma DigitForm(n: nat)
    requires n < 16
    ensures HexDigit(n) == "0123456789abcdef"[n] as int
  {
    if n < 10 {
      assert "0123456789abcdef"[n] as int == 48 + n;
    }
  }

  /** Different export values never render alike. */
  lemma HexInjective(s: bytes, t: bytes)
    requires Hex(s) == Hex(t)
    ensures s == t
  {
    HexReadsBack(s);
    HexReadsBack(t);
  }
}
