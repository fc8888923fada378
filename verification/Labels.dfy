/** Volume labels: the decorative last segment of an export path, and its UTF-8 form. */
module Labels {
  import opened Xdr

  const MAX_LABEL_LEN: nat := 64
  const DEFAULT_LABEL := "anymount"

  /** Unicode general category Cc. */
  predicate IsControl(c: char) {
    var n := c as int;
    n <= 0x1F || 0x7F <= n <= 0x9F
  }

  /** Unicode property White_Space. */
  predicate IsWhitespace(c: char) {
    var n := c as int;
    || 0x09 <= n <= 0x0D || n == 0x20 || n == 0x85 || n == 0xA0 || n == 0x1680
    || 0x2000 <= n <= 0x200A || n == 0x2028 || n == 0x2029 || n == 0x202F || n == 0x205F || n == 0x3000
  }

  predicate Rejected(c: char) {
    c == '/' || IsControl(c)
  }

  predicate Trimmable(c: char) {
    c == '-' || c == '.' || IsWhitespace(c)
  }

  /** Replace each run of rejected characters by one dash, after what is already in `out`. */
  function Collapse(out: string, s: string): string
    decreases |s|
  {
    if s == [] then out
    else if !Rejected(s[0]) then Collapse(out + [s[0]], s[1..])
    else if out != [] && out[|out| - 1] == '-' then Collapse(out, s[1..])
    else Collapse(out + ['-'], s[1..])
  }

  function TrimStart(s: string): string {
    if s != [] && Trimmable(s[0]) then TrimStart(s[1..]) else s
  }

  function TrimEnd(s: string): string {
    if s != [] && Trimmable(s[|s| - 1]) then TrimEnd(s[..|s| - 1]) else s
  }

  function Take64(s: string): string {
    if |s| <= MAX_LABEL_LEN then s else s[..MAX_LABEL_LEN]
  }

  function Label(fsName: string): string {
    var trimmed := TrimEnd(TrimStart(Collapse([], Take64(fsName))));
    if trimmed == [] then DEFAULT_LABEL else trimmed
  }

  method VolumeLabel(fsName: string) returns (volume: string)
    ensures volume == Label(fsName)
  {
    var out: string := [];
    var taken := Take64(fsName);
    for i := 0 to |taken|
      invariant Collapse(out, taken[i..]) == Collapse([], taken)
    {
      var ch := taken[i];
      assert taken[i..][1..] == taken[i + 1..];
      if !Rejected(ch) {
        out := out + [ch];
      } else if out == [] || out[|out| - 1] != '-' {
        out := out + ['-'];
      }
    }
    assert taken[|taken|..] == [];
    var trimmed := TrimEnd(TrimStart(out));
    return if trimmed == [] then DEFAULT_LABEL else trimmed;
  }

  // ---------------------------------------------------------------- what a label is

  /** A character run with nothing rejected. */
  ghost predicate Clean(s: string) {
    forall i | 0 <= i < |s| :: !Rejected(s[i])
  }

  lemma {:induction false} CollapseClean(out: string, s: string)
    requires Clean(out)
    ensures Clean(Collapse(out, s)) && |Collapse(out, s)| <= |out| + |s|
    ensures Clean(s) ==> Collapse(out, s) == out + s
    decreases |s|
  {
    if s == [] {
      assert out + s == out;
    } else if !Rejected(s[0]) {
      CollapseClean(out + [s[0]], s[1..]);
      assert out + [s[0]] + s[1..] == out + s;
    } else if out != [] && out[|out| - 1] == '-' {
      CollapseClean(out, s[1..]);
    } else {
      CollapseClean(out + ['-'], s[1..]);
    }
  }

  lemma {:induction false} TrimStartSpec(s: string)
    ensures
      var t := TrimStart(s);
      && |t| <= |s| && t == s[|s| - |t|..]
      && (t != [] ==> !Trimmable(t[0]))
  {
    if s != [] && Trimmable(s[0]) {
      TrimStartSpec(s[1..]);
    }
  }

  lemma {:induction false} TrimEndSpec(s: string)
    ensures
      var t := TrimEnd(s);
      && |t| <= |s| && t == s[..|t|]
      && (t != [] ==> !Trimmable(t[|t| - 1]))
  {
    if s != [] && Trimmable(s[|s| - 1]) {
      TrimEndSpec(s[..|s| - 1]);
    }
  }

  /** Every label: 1 to 64 characters, no slash, no control character, no separator at either end. */
  ghost predicate IsLabel(l: string) {
    1 <= |l| <= MAX_LABEL_LEN && Clean(l) && !Trimmable(l[0]) && !Trimmable(l[|l| - 1])
  }

  lemma LabelIsLabel(fsName: string)
    ensures IsLabel(Label(fsName))
  {
    var out := Collapse([], Take64(fsName));
    CollapseClean([], Take64(fsName));
    TrimStartSpec(out);
    TrimEndSpec(TrimStart(out));
  }

  /** The filter changes nothing exactly on labels; in particular it is idempotent. */
  lemma LabelFixpoint(l: string)
    ensures Label(l) == l <==> IsLabel(l)
  {
    if IsLabel(l) {
      CollapseClean([], l);
      assert [] + l == l;
      TrimStartSpec(l);
      TrimEndSpec(l);
    } else {
      LabelIsLabel(l);
    }
  }

  lemma LabelIdempotent(fsName: string)
    ensures Label(Label(fsName)) == Label(fsName)
  {
    LabelIsLabel(fsName);
    LabelFixpoint(Label(fsName));
  }

  // ---------------------------------------------------------------- what a label is made of

  /** A rejected character leaves a dash, unless what stands before it is rejected or a dash itself. */
  function Dashed(s: string): string {
    if s == [] then []
    else
      var n := |s| - 1;
      Dashed(s[..n]) + (if !Rejected(s[n]) then [s[n]] else if n > 0 && (Rejected(s[n - 1]) || s[n - 1] == '-') then [] else ['-'])
  }

  predicate EndsInDash(s: string) {
    s != [] && s[|s| - 1] == '-'
  }

  lemma {:induction false} DashedEnd(s: string)
    ensures EndsInDash(Dashed(s)) <==> EndsInDash(s) || (s != [] && Rejected(s[|s| - 1]))
  {
    if s != [] {
      DashedEnd(s[..|s| - 1]);
    }
  }

  lemma DashedNext(s: string, c: char)
    ensures
      var before := s != [] && (Rejected(s[|s| - 1]) || s[|s| - 1] == '-');
      Dashed(s + [c]) == Dashed(s) + if !Rejected(c) then [c] else if before then [] else ['-']
  {
    assert (s + [c])[..|s|] == s;
  }

  lemma {:induction false} StartDropped(s: string)
    ensures |TrimStart(s)| <= |s| && forall i | 0 <= i < |s| - |TrimStart(s)| :: Trimmable(s[i])
  {
    if s != [] && Trimmable(s[0]) {
      StartDropped(s[1..]);
    }
  }

  lemma {:induction false} EndDropped(s: string)
    ensures |TrimEnd(s)| <= |s| && forall i | |TrimEnd(s)| <= i < |s| :: Trimmable(s[i])
  {
    if s != [] && Trimmable(s[|s| - 1]) {
      EndDropped(s[..|s| - 1]);
    }
  }

  lemma {:induction false} CollapseIsDashed(done: string, s: string)
    ensures Collapse(Dashed(done), s) == Dashed(done + s)
    decreases |s|
  {
    if s == [] {
      assert done + s == done;
    } else {
      var next := done + [s[0]];
      assert next + s[1..] == done + s;
      CollapseIsDashed(next, s[1..]);
      DashedEnd(done);
      DashedNext(done, s[0]);
      assert Dashed(done) + [] == Dashed(done);
    }
  }

  /** `d[k..m]` is `d` without what may be trimmed at either end. */
  predicate TrimmedAt(d: string, k: nat, m: nat) {
    && k < m <= |d| && !Trimmable(d[k]) && !Trimmable(d[m - 1])
    && (forall i | 0 <= i < k :: Trimmable(d[i])) && (forall i | m <= i < |d| :: Trimmable(d[i]))
  }

  lemma TrimMeans(d: string)
    ensures
      var l, k := TrimEnd(TrimStart(d)), |d| - |TrimStart(d)|;
      if l == [] then forall i | 0 <= i < |d| :: Trimmable(d[i])
      else k >= 0 && TrimmedAt(d, k, k + |l|) && l == d[k..k + |l|]
  {
    var front := TrimStart(d);
    TrimStartSpec(d);
    TrimEndSpec(front);
    StartDropped(d);
    EndDropped(front);
    var k := |d| - |front|;
    forall i | k <= i < |d|
      ensures d[i] == front[i - k]
    {
    }
  }

  /**
   * A label is the first 64 characters with their dashes, without the dashes,
   * dots and spaces at either end; if nothing is left, it is the default.
   */
  lemma LabelMeans(fsName: string)
    ensures
      var d := Dashed(if |fsName| <= 64 then fsName else fsName[..64]);
      if forall i | 0 <= i < |d| :: Trimmable(d[i]) then Label(fsName) == "anymount"
      else exists k: nat, m: nat :: TrimmedAt(d, k, m) && Label(fsName) == d[k..m]
  {
    var taken := Take64(fsName);
    CollapseIsDashed([], taken);
    assert [] + taken == taken;
    TrimMeans(Dashed(taken));
  }

  // ---------------------------------------------------------------- UTF-8

  predicate IsTail(b: byte) {
    0x80 <= b <= 0xBF
  }

  /** Length of the well-formed UTF-8 sequence at the front of `b` (RFC 3629 section 4), or 0. */
  function Utf8Lead(b: bytes): (n: nat)
    ensures n <= 4 && n <= |b|
  {
    if b == [] then 0
    else if b[0] <= 0x7F then 1
    else if 0xC2 <= b[0] <= 0xDF then (if |b| >= 2 && IsTail(b[1]) then 2 else 0)
    else if 0xE0 <= b[0] <= 0xEF then
      if |b| >= 3 && IsTail(b[1]) && IsTail(b[2]) && (b[0] == 0xE0 ==> b[1] >= 0xA0) && (b[0] == 0xED ==> b[1] <= 0x9F)
      then 3 else 0
    else if 0xF0 <= b[0] <= 0xF4 then
      if |b| >= 4 && IsTail(b[1]) && IsTail(b[2]) && IsTail(b[3]) && (b[0] == 0xF0 ==> b[1] >= 0x90) && (b[0] == 0xF4 ==> b[1] <= 0x8F)
      then 4 else 0
    else 0
  }

  predicate ValidUtf8(b: bytes)
    decreases |b|
  {
    b == [] || (Utf8Lead(b) > 0 && ValidUtf8(b[Utf8Lead(b)..]))
  }

  function EncodeChar(c: char): (b: bytes)
    ensures 1 <= |b| <= 4
  {
    var n := c as int;
    if n <= 0x7F then [n]
    else if n <= 0x7FF then [0xC0 + n / 0x40, 0x80 + n % 0x40]
    else if n <= 0xFFFF then [0xE0 + n / 0x1000, 0x80 + n / 0x40 % 0x40, 0x80 + n % 0x40]
    else [0xF0 + n / 0x40000, 0x80 + n / 0x1000 % 0x40, 0x80 + n / 0x40 % 0x40, 0x80 + n % 0x40]
  }

  function EncodeUtf8(s: string): (b: bytes)
    ensures |b| <= 4 * |s|
  {
    if s == [] then [] else EncodeChar(s[0]) + EncodeUtf8(s[1..])
  }

  lemma EncodeCharValid(c: char, rest: bytes)
    ensures Utf8Lead(EncodeChar(c) + rest) == |EncodeChar(c)|
  {
    var n := c as int;
    var b := EncodeChar(c) + rest;
    if 0x800 <= n <= 0xFFFF {
      assert n < 0xD800 || n > 0xDFFF;
      assert b[0] == 0xE0 + n / 0x1000 && b[1] == 0x80 + n / 0x40 % 0x40 && b[2] == 0x80 + n % 0x40;
    } else if n > 0xFFFF {
      assert b[0] == 0xF0 + n / 0x40000 && b[1] == 0x80 + n / 0x1000 % 0x40;
      assert b[2] == 0x80 + n / 0x40 % 0x40 && b[3] == 0x80 + n % 0x40;
    }
  }

  lemma {:induction false} EncodeUtf8Valid(s: string)
    ensures ValidUtf8(EncodeUtf8(s))
  {
    if s != [] {
      EncodeCharValid(s[0], EncodeUtf8(s[1..]));
      EncodeUtf8Valid(s[1..]);
      assert EncodeUtf8(s)[|EncodeChar(s[0])|..] == EncodeUtf8(s[1..]);
    }
  }

  lemma {:induction false} AsciiPrefixValid(a: bytes, rest: bytes)
    requires forall i | 0 <= i < |a| :: a[i] <= 0x7F
    ensures ValidUtf8(a + rest) <==> ValidUtf8(rest)
  {
    if a == [] {
      assert a + rest == rest;
    } else {
      AsciiPrefixValid(a[1..], rest);
      assert (a + rest)[1..] == a[1..] + rest;
    }
  }
}
