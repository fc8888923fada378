/** Record marking over a byte stream (RFC 5531 section 11): bodies out of a stream cut into arbitrary reads. */
module Rpc {
  import opened Xdr
  import opened XdrWire

  const MAX_FRAGMENT_LEN: u32 := 0x4_0000
  const LAST_FRAGMENT_BIT: u32 := 0x8000_0000

  // ---------------------------------------------------------------- streams

  /** What a reader meets on a stream: a byte, a read that times out, or one that fails otherwise, as on a reset. */
  datatype Sym = Byte(b: byte) | Gap | Fault

  function Raw(b: bytes): (s: seq<Sym>)
    ensures |s| == |b|
  {
    seq(|b|, i requires 0 <= i < |b| => Byte(b[i]))
  }

  lemma RawConcat(a: bytes, b: bytes)
    ensures Raw(a + b) == Raw(a) + Raw(b)
  {
  }

  function Unraw(s: seq<Sym>): (b: bytes)
    requires forall i | 0 <= i < |s| :: s[i].Byte?
    ensures Raw(b) == s
  {
    if s == [] then [] else [s[0].b] + Unraw(s[1..])
  }

  /** How many bytes come before the first timeout, failure or the end. */
  function Lead(s: seq<Sym>): (n: nat)
    ensures n <= |s|
    ensures forall i | 0 <= i < n :: s[i].Byte?
    ensures n < |s| ==> !s[n].Byte?
  {
    if s == [] || !s[0].Byte? then 0 else 1 + Lead(s[1..])
  }

  lemma {:induction false} LeadOfRaw(a: bytes, s: seq<Sym>)
    ensures Lead(Raw(a) + s) == |a| + Lead(s)
  {
    if a == [] {
      assert Raw(a) + s == s;
    } else {
      assert (Raw(a) + s)[1..] == Raw(a[1..]) + s;
      LeadOfRaw(a[1..], s);
    }
  }

  lemma UnrawOfRaw(a: bytes)
    ensures Unraw(Raw(a)) == a
  {
    var b := Unraw(Raw(a));
    assert |b| == |Raw(b)| == |a|;
    forall i | 0 <= i < |a|
      ensures b[i] == a[i]
    {
      assert Raw(b)[i] == Raw(a)[i];
    }
  }

  datatype Chunk = Data(data: bytes) | TimedOut | ReadFailed

  class Stream {
    var pending: seq<Sym>

    constructor (p: seq<Sym>)
      ensures pending == p
    {
      pending := p;
    }

    /** Any non-empty part of what is there, nothing at the end, a timeout, or a failure. */
    method Read(max: nat) returns (r: Chunk)
      requires max > 0
      modifies this
      ensures
        match r
        case Data(d) => old(pending) == Raw(d) + pending && |d| <= max && (d == [] <==> old(pending) == [])
        case TimedOut => old(pending) == [Gap] + pending
        case ReadFailed => old(pending) == [Fault] + pending
    {
      if pending == [] {
        return Data([]);
      }
      if !pending[0].Byte? {
        r := if pending[0].Gap? then TimedOut else ReadFailed;
        pending := pending[1..];
        return;
      }
      var k: nat :| 1 <= k <= |pending| && k <= max && forall i | 0 <= i < k :: pending[i].Byte?;
      r := Data(Unraw(pending[..k]));
      pending := pending[k..];
    }
  }

  datatype IoError = Timeout | Reset | UnexpectedEof | NotLastFragment | Oversized
  datatype Fill = Filled(data: bytes) | AtEof | Failed(error: IoError)

  /** What a read that returns no bytes reports. */
  function ErrorOf(x: Sym): IoError {
    if x.Gap? then Timeout else Reset
  }

  /** Reading exactly `n` bytes off a stream: the outcome, and what is left. */
  function FillOf(s: seq<Sym>, n: nat): (Fill, seq<Sym>) {
    if n <= Lead(s) then (Filled(Unraw(s[..n])), s[n..])
    else if Lead(s) < |s| then (Failed(ErrorOf(s[Lead(s)])), s[Lead(s) + 1..])
    else (if s == [] then AtEof else Failed(UnexpectedEof), [])
  }

  /** With enough bytes at the front, exactly `n` of them are taken. */
  lemma FillEnough(a: bytes, rest: seq<Sym>, n: nat)
    requires n <= |a|
    ensures FillOf(Raw(a) + rest, n) == (Filled(a[..n]), Raw(a[n..]) + rest)
  {
    LeadOfRaw(a, rest);
    assert (Raw(a) + rest)[..n] == Raw(a[..n]);
    UnrawOfRaw(a[..n]);
    assert (Raw(a) + rest)[n..] == Raw(a[n..]) + rest;
  }

  lemma FillWhole(a: bytes, rest: seq<Sym>)
    ensures FillOf(Raw(a) + rest, |a|) == (Filled(a), rest)
  {
    FillEnough(a, rest, |a|);
    assert a[..|a|] == a;
    assert Raw(a[|a|..]) + rest == rest;
  }

  /** A timeout or failure reached before `n` bytes loses the bytes taken so far. */
  lemma FillBroken(a: bytes, x: Sym, rest: seq<Sym>, n: nat)
    requires |a| < n && !x.Byte?
    ensures FillOf(Raw(a) + ([x] + rest), n) == (Failed(ErrorOf(x)), rest)
  {
    LeadOfRaw(a, [x] + rest);
    assert (Raw(a) + ([x] + rest))[|a|] == x;
    assert (Raw(a) + ([x] + rest))[|a| + 1..] == rest;
  }

  /** A stream that ends before `n` bytes is an error, unless it had already ended. */
  lemma FillShort(a: bytes, n: nat)
    requires |a| < n
    ensures FillOf(Raw(a), n) == (if a == [] then AtEof else Failed(UnexpectedEof), [])
  {
    LeadOfRaw(a, []);
    assert Raw(a) + [] == Raw(a);
  }

  method ReadExactOrEof(stream: Stream, n: nat) returns (r: Fill)
    modifies stream
    ensures (r, stream.pending) == FillOf(old(stream.pending), n)
  {
    var buf: bytes := [];
    ghost var before := stream.pending;
    while |buf| < n
      invariant |buf| <= n
      invariant before == Raw(buf) + stream.pending
      decreases n - |buf|
    {
      var chunk := stream.Read(n - |buf|);
      if chunk.TimedOut? {
        FillBroken(buf, Gap, stream.pending, n);
        return Failed(Timeout);
      }
      if chunk.ReadFailed? {
        FillBroken(buf, Fault, stream.pending, n);
        return Failed(Reset);
      }
      if chunk.data == [] {
        assert before == Raw(buf);
        FillShort(buf, n);
        return if buf == [] then AtEof else Failed(UnexpectedEof);
      }
      RawConcat(buf, chunk.data);
      assert before == Raw(buf + chunk.data) + stream.pending;
      buf := buf + chunk.data;
    }
    FillWhole(buf, stream.pending);
    return Filled(buf);
  }

  // ---------------------------------------------------------------- records

  datatype Message = Body(body: bytes) | CleanEof | Broken(error: IoError)

  /** The record mark of a single final fragment: the high bit, ORed with the length cast to 32 bits. */
  function RecordMark(n: nat): u32 {
    LAST_FRAGMENT_BIT + n % 0x8000_0000
  }

  function Frame(body: bytes): bytes {
    Be32(RecordMark(|body|)) + body
  }

  /** A body the server accepts in one record: at most 256 KiB. */
  predicate Sendable(body: bytes) {
    |body| <= 0x4_0000
  }

  lemma FrameHeader(body: bytes)
    requires Sendable(body)
    ensures |Frame(body)| == 4 + |body|
    ensures Frame(body)[..4] == Be32(RecordMark(|body|)) && Frame(body)[4..] == body
    ensures De32(Be32(RecordMark(|body|))) >= LAST_FRAGMENT_BIT
    ensures De32(Be32(RecordMark(|body|))) % LAST_FRAGMENT_BIT == |body|
  {
    De32Be32(RecordMark(|body|), []);
    assert Be32(RecordMark(|body|)) + [] == Be32(RecordMark(|body|));
  }

  lemma MarkDigits(n: nat)
    requires n < 0x8000_0000
    ensures RecordMark(n) / 0x100_0000 == 0x80 + n / 0x100_0000
    ensures RecordMark(n) / 0x1_0000 % 0x100 == n / 0x1_0000 % 0x100
    ensures RecordMark(n) / 0x100 % 0x100 == n / 0x100 % 0x100
    ensures RecordMark(n) % 0x100 == n % 0x100
  {
    assert RecordMark(n) == 0x80 * 0x100_0000 + n == 0x8000 * 0x1_0000 + n == 0x80_0000 * 0x100 + n;
    assert RecordMark(n) / 0x1_0000 == 0x8000 + n / 0x1_0000;
    assert RecordMark(n) / 0x100 == 0x80_0000 + n / 0x100;
  }

  lemma MarkForm(n: nat)
    requires n < 0x8000_0000
    ensures Be32(RecordMark(n)) == [0x80 + n / 0x100_0000, n / 0x1_0000 % 0x100, n / 0x100 % 0x100, n % 0x100]
  {
    FourDigits(RecordMark(n));
    MarkDigits(n);
  }

  /** The mark on the wire: the length, most significant byte first, with 128 added to mark the last fragment. */
  lemma FrameForm(body: bytes)
    requires |body| < 0x8000_0000
    ensures
      var n := |body|;
      Frame(body) == [0x80 + n / 0x100_0000, n / 0x1_0000 % 0x100, n / 0x100 % 0x100, n % 0x100] + body
  {
    MarkForm(|body|);
  }

  /** `read_exact` turns an end of stream into an error. */
  function BodyOf(f: Fill): Message {
    match f
    case Filled(d) => Body(d)
    case AtEof => Broken(UnexpectedEof)
    case Failed(e) => Broken(e)
  }

  /** Reading one record off a stream: the outcome, and what is left. */
  function ReadOne(s: seq<Sym>): (Message, seq<Sym>) {
    var (hdr, mid) := FillOf(s, 4);
    match hdr
    case AtEof => (CleanEof, mid)
    case Failed(e) => (Broken(e), mid)
    case Filled(mark) =>
      var word := De32(mark);
      if word < LAST_FRAGMENT_BIT then (Broken(NotLastFragment), mid)
      else if word % LAST_FRAGMENT_BIT > MAX_FRAGMENT_LEN then (Broken(Oversized), mid)
      else
        var (body, rest) := FillOf(mid, word % LAST_FRAGMENT_BIT);
        (BodyOf(body), rest)
  }

  method ReadMessage(stream: Stream) returns (r: Message)
    modifies stream
    ensures (r, stream.pending) == ReadOne(old(stream.pending))
  {
    var hdr := ReadExactOrEof(stream, 4);
    if hdr.AtEof? {
      return CleanEof;
    }
    if hdr.Failed? {
      return Broken(hdr.error);
    }
    var word := De32(hdr.data);
    if word < LAST_FRAGMENT_BIT {
      return Broken(NotLastFragment);
    }
    var len := word % LAST_FRAGMENT_BIT;
    if len > MAX_FRAGMENT_LEN {
      return Broken(Oversized);
    }
    var body := ReadExactOrEof(stream, len);
    return BodyOf(body);
  }

  /** A stream that starts with a record yields its body and stops right behind it. */
  lemma ReadsFrame(body: bytes, rest: seq<Sym>)
    requires Sendable(body)
    ensures ReadOne(Raw(Frame(body)) + rest) == (Body(body), rest)
  {
    FrameHeader(body);
    var mark := Be32(RecordMark(|body|));
    RawConcat(mark, body);
    SymAssoc(Raw(mark), Raw(body), rest);
    FillWhole(mark, Raw(body) + rest);
    FillWhole(body, rest);
  }

  lemma SymAssoc(a: seq<Sym>, b: seq<Sym>, c: seq<Sym>)
    ensures a + b + c == a + (b + c)
  {
  }

  /** A timeout or failure inside a record is reported as such, and the bytes taken before it are gone. */
  lemma BreakReported(body: bytes, k: nat, x: Sym, rest: seq<Sym>)
    requires Sendable(body) && k < |Frame(body)| && !x.Byte?
    ensures ReadOne(Raw(Frame(body)[..k]) + ([x] + rest)) == (Broken(ErrorOf(x)), rest)
  {
    FrameHeader(body);
    var got := Frame(body)[..k];
    if k < 4 {
      FillBroken(got, x, rest, 4);
    } else {
      FillEnough(got, [x] + rest, 4);
      assert got[..4] == Frame(body)[..4];
      assert got[4..] == body[..k - 4];
      FillBroken(body[..k - 4], x, rest, |body|);
    }
  }

  /** A body costs its length and the four bytes of its mark, neither more nor less. */
  lemma BodyTakesItsFrame(s: seq<Sym>)
    ensures ReadOne(s).0.Body? ==> |s| == 4 + |ReadOne(s).0.body| + |ReadOne(s).1|
  {
    FillTakes(s, 4);
    if ReadOne(s).0.Body? {
      var (mark, mid) := FillOf(s, 4);
      FillTakes(mid, De32(mark.data) % LAST_FRAGMENT_BIT);
    }
  }

  lemma FillTakes(s: seq<Sym>, n: nat)
    ensures FillOf(s, n).0.Filled? ==> |FillOf(s, n).0.data| == n && |s| == n + |FillOf(s, n).1|
  {
    if n <= Lead(s) {
      assert |Raw(Unraw(s[..n]))| == n;
    }
  }

  /**
   * A timeout after `k` bytes of a record is reported as such, and the reader
   * goes on with what the peer sends next. It still gets the record if and only
   * if the timeout fell before its first byte.
   */
  lemma ReadsInterrupted(body: bytes, k: nat, rest: seq<Sym>)
    requires Sendable(body) && k < |Frame(body)|
    ensures
      var left := Raw(Frame(body)[k..]) + rest;
      && ReadOne(Raw(Frame(body)[..k]) + ([Gap] + left)) == (Broken(Timeout), left)
      && (ReadOne(left) == (Body(body), rest) <==> k == 0)
  {
    var left := Raw(Frame(body)[k..]) + rest;
    BreakReported(body, k, Gap, left);
    FrameHeader(body);
    if k == 0 {
      assert Frame(body)[0..] == Frame(body);
      ReadsFrame(body, rest);
    } else {
      BodyTakesItsFrame(left);
    }
  }

  lemma ReadsGap(rest: seq<Sym>)
    ensures ReadOne([Gap] + rest) == (Broken(Timeout), rest)
  {
    FillBroken([], Gap, rest, 4);
    assert Raw([]) + ([Gap] + rest) == [Gap] + rest;
  }

  /** A stream that ends inside a record is an error, never a short body; one that ends between records is a clean end. */
  lemma ReadsCut(body: bytes, k: nat)
    requires Sendable(body) && k < |Frame(body)|
    ensures ReadOne(Raw(Frame(body)[..k])) == (if k == 0 then CleanEof else Broken(UnexpectedEof), [])
  {
    var cut := Frame(body)[..k];
    FrameHeader(body);
    if k < 4 {
      FillShort(cut, 4);
    } else {
      assert Raw(cut) + [] == Raw(cut);
      FillEnough(cut, [], 4);
      assert cut[..4] == Frame(body)[..4];
      assert cut[4..] == body[..k - 4];
      assert Raw(body[..k - 4]) + [] == Raw(body[..k - 4]);
      FillShort(body[..k - 4], |body|);
    }
  }

  // ---------------------------------------------------------------- the read loop

  /** How the reading half of a connection ends. */
  datatype End = CleanEnd | Died(error: IoError)

  lemma ReadShrinks(s: seq<Sym>)
    ensures ReadOne(s).0.Body? || ReadOne(s).0 == Broken(Timeout) ==> |ReadOne(s).1| < |s|
  {
    BodyTakesItsFrame(s);
  }

  /** Everything a stream holds: its bodies, read until a clean end or an error. A timeout is not an error here. */
  function Received(s: seq<Sym>): (seq<bytes>, End)
    decreases |s|
  {
    var (m, rest) := ReadOne(s);
    ReadShrinks(s);
    match m
    case CleanEof => ([], CleanEnd)
    case Broken(e) => if e == Timeout then Received(rest) else ([], Died(e))
    case Body(b) => var more := Received(rest); ([b] + more.0, more.1)
  }

  lemma BodiesAssoc(a: seq<bytes>, b: seq<bytes>, c: seq<bytes>)
    ensures a + b + c == a + (b + c)
  {
  }

  /** What a peer sends, in order: records, with read timeouts only between them. */
  datatype Item = Pause | Record(body: bytes)

  function Symbols(item: Item): seq<Sym> {
    if item.Pause? then [Gap] else Raw(Frame(item.body))
  }

  function Held(item: Item): seq<bytes> {
    if item.Pause? then [] else [item.body]
  }

  function Wire(items: seq<Item>): seq<Sym> {
    if items == [] then [] else Symbols(items[0]) + Wire(items[1..])
  }

  function Bodies(items: seq<Item>): seq<bytes> {
    if items == [] then [] else Held(items[0]) + Bodies(items[1..])
  }

  predicate AllSendable(items: seq<Item>) {
    forall i | 0 <= i < |items| && items[i].Record? :: Sendable(items[i].body)
  }

  lemma ReceivesItem(item: Item, rest: seq<Sym>)
    requires item.Record? ==> Sendable(item.body)
    ensures Received(Symbols(item) + rest) == (Held(item) + Received(rest).0, Received(rest).1)
  {
    if item.Pause? {
      ReadsGap(rest);
      assert [] + Received(rest).0 == Received(rest).0;
    } else {
      ReadsFrame(item.body, rest);
    }
  }

  /** Records are received whole and in order, timeouts between them without effect, and then whatever follows. */
  lemma {:induction false} ReceivesItems(items: seq<Item>, tail: seq<Sym>)
    requires AllSendable(items)
    ensures Received(Wire(items) + tail) == (Bodies(items) + Received(tail).0, Received(tail).1)
    decreases |items|
  {
    if items == [] {
      assert Wire(items) + tail == tail;
      assert Bodies(items) + Received(tail).0 == Received(tail).0;
    } else {
      var rest := Wire(items[1..]) + tail;
      ReceivesItems(items[1..], tail);
      assert Received(Wire(items) + tail) == (Held(items[0]) + Received(rest).0, Received(rest).1) by {
        SymAssoc(Symbols(items[0]), Wire(items[1..]), tail);
        ReceivesItem(items[0], rest);
      }
      assert Bodies(items) + Received(tail).0 == Held(items[0]) + Received(rest).0 by {
        BodiesAssoc(Held(items[0]), Bodies(items[1..]), Received(tail).0);
      }
    }
  }

  /**
   * A stream of records that stops within `last`: exactly the records before it,
   * then a clean end if it stops between records and an error if inside one.
   */
  lemma ReceivesThenEnds(items: seq<Item>, last: bytes, cut: nat)
    requires AllSendable(items)
    requires Sendable(last) && cut < |Frame(last)|
    ensures Received(Wire(items) + Raw(Frame(last)[..cut]))
            == (Bodies(items), if cut == 0 then CleanEnd else Died(UnexpectedEof))
  {
    ReceivesItems(items, Raw(Frame(last)[..cut]));
    ReadsCut(last, cut);
    assert Bodies(items) + [] == Bodies(items);
  }

  /** A connection that is reset after any bytes of a record: exactly the records before it, then that error. */
  lemma ReceivesThenBreaks(items: seq<Item>, last: bytes, cut: nat, rest: seq<Sym>)
    requires AllSendable(items)
    requires Sendable(last) && cut < |Frame(last)|
    ensures Received(Wire(items) + (Raw(Frame(last)[..cut]) + ([Fault] + rest))) == (Bodies(items), Died(Reset))
  {
    ReceivesItems(items, Raw(Frame(last)[..cut]) + ([Fault] + rest));
    BreakReported(last, cut, Fault, rest);
    assert Bodies(items) + [] == Bodies(items);
  }

  /**
   * A record mark that announces another fragment, or more bytes than the
   * limit, ends the connection after the records before it, whatever follows.
   */
  lemma ReceivesThenRefuses(items: seq<Item>, mark: u32, rest: seq<Sym>)
    requires AllSendable(items)
    requires mark < 0x8000_0000 || mark % 0x8000_0000 > 0x4_0000
    ensures Received(Wire(items) + (Raw(Be32(mark)) + rest))
            == (Bodies(items), Died(if mark < 0x8000_0000 then NotLastFragment else Oversized))
  {
    ReceivesItems(items, Raw(Be32(mark)) + rest);
    FillWhole(Be32(mark), rest);
    De32Be32(mark, []);
    assert Be32(mark) + [] == Be32(mark);
    assert Bodies(items) + [] == Bodies(items);
  }
}
