/**
 * The resumable listing driver shared by every backend: it offers `.` and `..`
 * and then the implementation's own entries, page after page, to a sink that
 * may refuse one.
 *
 * `Offered` is what an implementation, lawful or not, hands out; `Emit` is the
 * driver over it. For an implementation that keeps the contract of `readdir`,
 * paging is invisible.
 */
module Paging {
  import opened Wrappers
  import opened Xdr
  import opened ReadOnlyFs
  import opened Listing

  // ---------------------------------------------------------------- pages

  /** The page an implementation hands out at each position; empty also where it fails. */
  type Pages = nat -> seq<DirEntry>

  /** The answer to asking for position `at`; offsets are 64-bit and wrap. */
  function PageAt(fs: Fs, dir: u64, at: nat): FsResult<seq<DirEntry>> {
    fs.readdir(dir, Low64(at))
  }

  function PagesOf(fs: Fs, dir: u64): Pages {
    (at: nat) => var answer := PageAt(fs, dir, at); if answer.Ok? then answer.value else []
  }

  function FromPage(page: seq<DirEntry>, at: nat): (es: seq<Entry>)
    ensures |es| == |page|
  {
    seq(|page|, i requires 0 <= i < |page| => Entry(page[i].ino, page[i].name, page[i].kind, ForEntry(at + i)))
  }

  /**
   * The first `n` entries handed out from position `at` on, page after page,
   * each page asked for where the last one ended; fewer if the pages end or fail
   * before that.
   */
  function Own(pages: Pages, at: nat, n: nat): (es: seq<Entry>)
    ensures |es| <= n
    decreases n
  {
    var page := pages(at);
    if n == 0 || page == [] then []
    else if n < |page| then FromPage(page[..n], at)
    else FromPage(page, at) + Own(pages, at + |page|, n - |page|)
  }

  /** The pages from `at` on are such that one ends after exactly `n` entries. */
  predicate AtPage(pages: Pages, at: nat, n: nat)
    decreases n
  {
    n == 0 || (0 < |pages(at)| <= n && AtPage(pages, at + |pages(at)|, n - |pages(at)|))
  }

  lemma EntriesAssoc(a: seq<Entry>, b: seq<Entry>, c: seq<Entry>)
    ensures a + b + c == a + (b + c)
  {
  }

  lemma {:induction false} AtPageOwn(pages: Pages, at: nat, n: nat)
    requires AtPage(pages, at, n)
    ensures |Own(pages, at, n)| == n
    decreases n
  {
    if n > 0 {
      AtPageOwn(pages, at + |pages(at)|, n - |pages(at)|);
    }
  }

  /** Where a page ends, the next entries are those from there on. */
  lemma {:induction false} OwnSplits(pages: Pages, at: nat, n: nat, m: nat)
    requires AtPage(pages, at, n)
    ensures Own(pages, at, n + m) == Own(pages, at, n) + Own(pages, at + n, m)
    decreases n
  {
    if n > 0 {
      var next, left := at + |pages(at)|, n - |pages(at)|;
      OwnSplits(pages, next, left, m);
      EntriesAssoc(FromPage(pages(at), at), Own(pages, next, left), Own(pages, at + n, m));
    }
  }

  lemma {:induction false} AtPageNext(pages: Pages, at: nat, n: nat)
    requires AtPage(pages, at, n) && pages(at + n) != []
    ensures AtPage(pages, at, n + |pages(at + n)|)
    decreases n
  {
    if n > 0 {
      AtPageNext(pages, at + |pages(at)|, n - |pages(at)|);
    }
  }

  lemma OwnWithinPage(pages: Pages, at: nat, n: nat)
    requires n <= |pages(at)|
    ensures Own(pages, at, n) == FromPage(pages(at), at)[..n]
  {
  }

  /** Asking for fewer entries gives the first of them. */
  lemma {:induction false} OwnPrefix(pages: Pages, at: nat, m: nat, n: nat)
    requires m <= n
    ensures Own(pages, at, m) <= Own(pages, at, n)
    ensures |Own(pages, at, m)| == m || Own(pages, at, m) == Own(pages, at, n)
    decreases m
  {
    var page := pages(at);
    if m < |page| {
      OwnWithinPage(pages, at, m);
      if n < |page| {
        OwnWithinPage(pages, at, n);
      }
    } else if m > 0 && page != [] {
      OwnPrefix(pages, at + |page|, m - |page|, n - |page|);
    }
  }

  /** The entry of cookie `c` itself excluded, the dots still to come. */
  function DotEntries(fs: Fs, dir: u64, dots: Dots, c: u64): seq<Entry> {
    var both := [Entry(dir, DOT_NAME, Directory, DOT), Entry(ParentOf(fs, dir), DOTDOT_NAME, Directory, DOTDOT)];
    if dots.Omit? || c >= DOTDOT then [] else both[c..]
  }

  /** What a listing has to offer: some dots, then the entries of the pages from position `at` on. */
  datatype Tail = Tail(dots: seq<Entry>, pages: Pages, at: nat)

  function TailAfter(fs: Fs, dir: u64, dots: Dots, c: u64): Tail {
    Tail(DotEntries(fs, dir, dots, c), PagesOf(fs, dir), TraitOffset(c))
  }

  /** The first `n` entries offered, or all of them if there are fewer. */
  function Offered(t: Tail, n: nat): (es: seq<Entry>)
    ensures |es| <= n
  {
    if n < |t.dots| then t.dots[..n] else t.dots + Own(t.pages, t.at, n - |t.dots|)
  }

  /** Where the listing asks for another page once `n` entries have been offered. */
  function Position(t: Tail, n: nat): nat
    requires |t.dots| <= n
  {
    t.at + (n - |t.dots|)
  }

  /** Behind `n` entries the listing asks for another page. */
  predicate Asks(t: Tail, n: nat) {
    |t.dots| <= n && AtPage(t.pages, t.at, n - |t.dots|)
  }

  lemma AskedAfterAll(t: Tail, n: nat)
    requires Asks(t, n)
    ensures |Offered(t, n)| == n
    ensures t.pages(Position(t, n)) == [] ==> Offered(t, n + 1) == Offered(t, n)
  {
    AtPageOwn(t.pages, t.at, n - |t.dots|);
    OwnSplits(t.pages, t.at, n - |t.dots|, 1);
  }

  lemma OfferedPrefix(t: Tail, m: nat, n: nat)
    requires m <= n
    ensures Offered(t, m) <= Offered(t, n)
    ensures |Offered(t, m)| == m || Offered(t, m) == Offered(t, n)
  {
    if m >= |t.dots| {
      OwnPrefix(t.pages, t.at, m - |t.dots|, n - |t.dots|);
    }
  }

  /** Offering a page is offering its entries behind those already offered. */
  lemma OfferedPage(t: Tail, n: nat, k: nat)
    requires Asks(t, n) && k <= |t.pages(Position(t, n))|
    ensures Offered(t, n + k) == Offered(t, n) + FromPage(t.pages(Position(t, n)), Position(t, n))[..k]
  {
    var m, at := n - |t.dots|, Position(t, n);
    OwnSplits(t.pages, t.at, m, k);
    OwnWithinPage(t.pages, at, k);
    EntriesAssoc(t.dots, Own(t.pages, t.at, m), FromPage(t.pages(at), at)[..k]);
  }

  // ---------------------------------------------------------------- the driver

  /** `n` entries have been offered and accepted, and the sink is in state `s`. */
  ghost predicate Along<S(!new)>(t: Tail, sink: (S, Entry) -> (S, Sink), s0: S, n: nat, s: S) {
    |Offered(t, n)| == n && Feed(sink, s0, Offered(t, n)) == Fed(s, n, true)
  }

  /** The entry behind the first `n` was offered and refused. */
  ghost predicate RefusedAt<S(!new)>(t: Tail, sink: (S, Entry) -> (S, Sink), s0: S, n: nat, s: S) {
    |Offered(t, n + 1)| == n + 1 && Feed(sink, s0, Offered(t, n + 1)) == Fed(s, n, false)
  }

  /** Behind `n` entries a page was asked for, and this is the answer. */
  predicate PageAnswered(fs: Fs, dir: u64, t: Tail, n: nat, answer: FsResult<seq<DirEntry>>) {
    Asks(t, n) && PageAt(fs, dir, Position(t, n)) == answer
  }

  /**
   * How a listing over any implementation whatever may end, with `n` entries
   * accepted: at a refused entry, at an empty page, or at a page that failed.
   */
  ghost predicate Walked<S(!new)>(fs: Fs, dir: u64, t: Tail, sink: (S, Entry) -> (S, Sink), s0: S,
                                  n: nat, r: FsResult<bool>, s: S)
  {
    if r == Ok(false) then RefusedAt(t, sink, s0, n, s)
    else Along(t, sink, s0, n, s) && PageAnswered(fs, dir, t, n, if r.Ok? then Ok([]) else Err(r.error))
  }

  /** The listing never gets as many as `limit` entries accepted. */
  ghost predicate Settles<S(!new)>(t: Tail, sink: (S, Entry) -> (S, Sink), s0: S, limit: nat) {
    |Offered(t, limit)| < limit || !Feed(sink, s0, Offered(t, limit)).all
  }

  lemma AlongBefore<S(!new)>(t: Tail, sink: (S, Entry) -> (S, Sink), s0: S, m: nat, n: nat, s: S)
    requires m <= n && Along(t, sink, s0, n, s)
    ensures |Offered(t, m)| == m && Feed(sink, s0, Offered(t, m)).all
  {
    OfferedPrefix(t, m, n);
    FeedIsLongestPrefix(sink, s0, Offered(t, n), m);
    assert Offered(t, n)[..m] == Offered(t, m);
  }

  lemma AlongBelow<S(!new)>(t: Tail, sink: (S, Entry) -> (S, Sink), s0: S, limit: nat, n: nat, s: S)
    requires Settles(t, sink, s0, limit) && Along(t, sink, s0, n, s)
    ensures n < limit
  {
    if limit <= n {
      AlongBefore(t, sink, s0, limit, n, s);
    }
  }

  /** One more entry is offered: the walk goes on with it, or ends at it. */
  lemma Offer<S(!new)>(t: Tail, sink: (S, Entry) -> (S, Sink), s0: S, n: nat, s: S, e: Entry)
    requires Along(t, sink, s0, n, s)
    requires Offered(t, n + 1) == Offered(t, n) + [e]
    ensures
      var (s', verdict) := sink(s, e);
      if verdict.Full? then RefusedAt(t, sink, s0, n, s') else Along(t, sink, s0, n + 1, s')
  {
    var es := Offered(t, n + 1);
    assert es[..n] == Offered(t, n);
    FeedNext(sink, s0, es, n);
    assert es[..n + 1] == es;
  }

  /** A page is offered: the walk goes on behind it, or ends inside it. */
  lemma OfferPage<S(!new)>(t: Tail, sink: (S, Entry) -> (S, Sink), s0: S, n: nat, s: S)
    requires Along(t, sink, s0, n, s) && Asks(t, n)
    ensures
      var page := t.pages(Position(t, n));
      var f := Feed(sink, s, FromPage(page, Position(t, n)));
      if f.all then Along(t, sink, s0, n + |page|, f.state) else RefusedAt(t, sink, s0, n + f.accepted, f.state)
  {
    var es := FromPage(t.pages(Position(t, n)), Position(t, n));
    var f := Feed(sink, s, es);
    var k := if f.all then |es| else f.accepted + 1;
    OfferedPage(t, n, k);
    if f.all {
      assert es[..k] == es;
    } else {
      FeedCut(sink, s, es);
    }
    FeedMore(sink, s0, Offered(t, n), es[..k]);
  }

  /** Offer the entries of one page, which starts at position `at`. */
  method EmitPage<S(!new)>(page: seq<DirEntry>, offset: u64, sink: (S, Entry) -> (S, Sink), s0: S, ghost at: nat)
    returns (full: bool, next: u64, s: S)
    requires offset == Low64(at)
    ensures Feed(sink, s0, FromPage(page, at)).state == s && Feed(sink, s0, FromPage(page, at)).all == !full
    ensures !full ==> next == Low64(at + |page|)
  {
    s, next := s0, offset;
    ghost var es := FromPage(page, at);
    for i := 0 to |page|
      invariant next == Low64(at + i)
      invariant Feed(sink, s0, es[..i]) == Fed(s, i, true)
    {
      Low64Twice(at + i, DOTDOT + 1);
      Low64Twice(at + i, 1);
      var offered := Entry(page[i].ino, page[i].name, page[i].kind, ForEntry(next));
      assert es[i] == offered;
      FeedNext(sink, s0, es, i);
      var (s', verdict) := sink(s, offered);
      s := s';
      if verdict == Full {
        return true, next, s;
      }
      next := Low64(next + 1);
    }
    assert es[..|page|] == es;
    return false, next, s;
  }

  /** Page through the implementation's own entries, once the dots are behind. */
  method EmitPages<S(!new)>(fs: Fs, dir: u64, first: u64, sink: (S, Entry) -> (S, Sink), s1: S,
                            ghost t: Tail, ghost s0: S, ghost limit: nat)
    returns (r: FsResult<bool>, s: S)
    requires t.pages == PagesOf(fs, dir) && t.at == first
    requires Along(t, sink, s0, |t.dots|, s1) && Settles(t, sink, s0, limit)
    ensures exists n: nat :: Walked(fs, dir, t, sink, s0, n, r, s)
  {
    s := s1;
    ghost var n := |t.dots|;
    var offset: u64 := first;
    while true
      invariant Asks(t, n) && offset == Low64(Position(t, n))
      invariant Along(t, sink, s0, n, s)
      decreases limit - n
    {
      AlongBelow(t, sink, s0, limit, n, s);
      ghost var at := Position(t, n);
      var answer := fs.readdir(dir, offset);
      assert answer == PageAt(fs, dir, at);
      if answer.Err? {
        assert Walked(fs, dir, t, sink, s0, n, Err(answer.error), s);
        return Err(answer.error), s;
      }
      var page := answer.value;
      if page == [] {
        assert Walked(fs, dir, t, sink, s0, n, Ok(true), s);
        return Ok(true), s;
      }
      assert t.pages(at) == page;
      OfferPage(t, sink, s0, n, s);
      ghost var f := Feed(sink, s, FromPage(page, at));
      var full;
      full, offset, s := EmitPage(page, offset, sink, s, at);
      if full {
        assert Walked(fs, dir, t, sink, s0, n + f.accepted, Ok(false), s);
        return Ok(false), s;
      }
      AtPageNext(t.pages, t.at, n - |t.dots|);
      n := n + |page|;
    }
  }

  /**
   * Over any implementation, lawful or not: if the listing does not go on for
   * ever, it offers the entries of the pages in order and ends at the first the
   * sink refuses, at the first empty page (`true`), or at the first that fails.
   */
  method Emit<S(!new)>(fs: Fs, dir: u64, resumeAfter: u64, dots: Dots, sink: (S, Entry) -> (S, Sink), s0: S, ghost limit: nat)
    returns (r: FsResult<bool>, s: S)
    requires Settles(TailAfter(fs, dir, dots, resumeAfter), sink, s0, limit)
    ensures exists n: nat :: Walked(fs, dir, TailAfter(fs, dir, dots, resumeAfter), sink, s0, n, r, s)
  {
    ghost var t := TailAfter(fs, dir, dots, resumeAfter);
    ghost var n := 0;
    s := s0;
    var cookie: u64 := resumeAfter;

    if dots == Synthesize {
      if cookie == 0 {
        var dot := Entry(dir, DOT_NAME, Directory, DOT);
        assert Offered(t, 1) == Offered(t, 0) + [dot];
        Offer(t, sink, s0, n, s, dot);
        var (s', verdict) := sink(s, dot);
        s := s';
        if verdict == Full {
          assert Walked(fs, dir, t, sink, s0, n, Ok(false), s);
          return Ok(false), s;
        }
        n, cookie := 1, DOT;
      }
      if cookie == DOT {
        var parent := ParentOf(fs, dir);
        var dotdot := Entry(parent, DOTDOT_NAME, Directory, DOTDOT);
        assert Offered(t, n + 1) == Offered(t, n) + [dotdot];
        Offer(t, sink, s0, n, s, dotdot);
        var (s', verdict) := sink(s, dotdot);
        s := s';
        if verdict == Full {
          assert Walked(fs, dir, t, sink, s0, n, Ok(false), s);
          return Ok(false), s;
        }
        n, cookie := n + 1, DOTDOT;
      }
    }

    r, s := EmitPages(fs, dir, TraitOffset(cookie), sink, s, t, s0, limit);
  }

  /** A listing ends only if it settles, so `Emit` asks for no more than it must. */
  lemma WalkedSettles<S(!new)>(fs: Fs, dir: u64, t: Tail, sink: (S, Entry) -> (S, Sink), s0: S,
                               n: nat, r: FsResult<bool>, s: S)
    requires t.pages == PagesOf(fs, dir) && Walked(fs, dir, t, sink, s0, n, r, s)
    ensures Settles(t, sink, s0, n + 1)
  {
    if r != Ok(false) {
      assert t.pages(Position(t, n)) == [];
      AskedAfterAll(t, n);
    }
  }

  // ---------------------------------------------------------------- lawful implementations

  /** Every page is some of what remains, in order. */
  ghost predicate Lawful(pages: Pages, entries: seq<DirEntry>) {
    |entries| <= MAX_ENTRIES
    && forall at: u64 :: pages(at) != [] ==> at < |entries| && pages(at) <= entries[at..]
  }

  lemma ListsLawful(fs: Fs, dir: u64, entries: seq<DirEntry>)
    requires Lists(fs, dir, entries)
    ensures Lawful(PagesOf(fs, dir), entries)
  {
    var pages := PagesOf(fs, dir);
    forall at: u64 | pages(at) != []
      ensures at < |entries| && pages(at) <= entries[at..]
    {
      assert fs.readdir(dir, at).Ok? && LegalPage(fs.readdir(dir, at).value, entries, at);
    }
  }

  lemma PageLawful(entries: seq<DirEntry>, at: nat, page: seq<DirEntry>)
    requires |entries| <= MAX_ENTRIES && at <= |entries| && page <= entries[at..]
    ensures FromPage(page, at) == OwnEntries(entries)[at..at + |page|]
  {
    forall i | 0 <= i < |page|
      ensures FromPage(page, at)[i] == OwnEntries(entries)[at + i]
    {
      assert page[i] == entries[at..][i];
    }
  }

  lemma Stretch(own: seq<Entry>, at: nat, n: nat, more: seq<Entry>)
    requires at + n <= |own| && more <= own[at + n..]
    ensures own[at..at + n] + more <= own[at..]
  {
    assert own[at..] == own[at..at + n] + own[at + n..];
  }

  lemma {:induction false} OwnLawful(pages: Pages, entries: seq<DirEntry>, at: u64, n: nat)
    requires Lawful(pages, entries)
    ensures Own(pages, at, n) <= OwnEntries(entries)[Behind(Synthesize, at, |entries|)..]
    decreases n
  {
    var page := pages(at);
    if n > 0 && page != [] {
      if n < |page| {
        PartLawful(entries, at, page[..n], []);
        assert FromPage(page[..n], at) + [] == FromPage(page[..n], at);
      } else {
        OwnLawful(pages, entries, at + |page|, n - |page|);
        PartLawful(entries, at, page, Own(pages, at + |page|, n - |page|));
      }
    }
  }

  lemma PartLawful(entries: seq<DirEntry>, at: nat, page: seq<DirEntry>, more: seq<Entry>)
    requires |entries| <= MAX_ENTRIES && at <= |entries| && page <= entries[at..]
    requires more <= OwnEntries(entries)[at + |page|..]
    ensures FromPage(page, at) + more <= OwnEntries(entries)[at..]
  {
    PageLawful(entries, at, page);
    Stretch(OwnEntries(entries), at, |page|, more);
  }

  lemma {:induction false} AtPageLawful(pages: Pages, entries: seq<DirEntry>, at: u64, n: nat)
    requires Lawful(pages, entries) && AtPage(pages, at, n)
    ensures n == 0 || at + n <= |entries|
    decreases n
  {
    if n > 0 {
      AtPageLawful(pages, entries, at + |pages(at)|, n - |pages(at)|);
    }
  }

  /** What a client that resumes after `c` has yet to see of a directory with these entries. */
  function Unseen(fs: Fs, dir: u64, dots: Dots, entries: seq<DirEntry>, c: u64): seq<Entry>
    requires |entries| <= MAX_ENTRIES
  {
    After(dots, Listing.Listing(dots, dir, ParentOf(fs, dir), entries), c)
  }

  /** That is the dots still to come, then the directory's own entries. */
  lemma UnseenIsDotsThenOwn(fs: Fs, dir: u64, dots: Dots, entries: seq<DirEntry>, c: u64)
    requires |entries| <= MAX_ENTRIES
    ensures Unseen(fs, dir, dots, entries, c)
            == DotEntries(fs, dir, dots, c) + OwnEntries(entries)[Behind(Synthesize, TraitOffset(c), |entries|)..]
  {
    var full, own := Listing.Listing(dots, dir, ParentOf(fs, dir), entries), OwnEntries(entries);
    if dots.Synthesize? {
      assert full[2..] == own;
      if c >= DOTDOT {
        assert full[Behind(dots, c, |full|)..] == full[2..][Behind(dots, c, |full|) - 2..];
      }
    } else {
      assert full == own;
    }
  }

  lemma OfferedBehind(t: Tail, n: nat, own: seq<Entry>)
    requires n >= |t.dots| ==> Own(t.pages, t.at, n - |t.dots|) <= own
    ensures Offered(t, n) <= t.dots + own
  {
  }

  lemma OfferedLawful(fs: Fs, dir: u64, dots: Dots, entries: seq<DirEntry>, c: u64, n: nat)
    requires Lists(fs, dir, entries)
    ensures Offered(TailAfter(fs, dir, dots, c), n) <= Unseen(fs, dir, dots, entries, c)
  {
    var t := TailAfter(fs, dir, dots, c);
    if n >= |t.dots| {
      ListsLawful(fs, dir, entries);
      OwnLawful(t.pages, entries, t.at, n - |t.dots|);
    }
    OfferedBehind(t, n, OwnEntries(entries)[Behind(Synthesize, TraitOffset(c), |entries|)..]);
    UnseenIsDotsThenOwn(fs, dir, dots, entries, c);
  }

  /** The offset of the first entry offered among the implementation's own; negative while a dot is still to come. */
  function FirstOffset(dots: Dots, c: u64): int {
    if dots.Synthesize? then c - DOTDOT else TraitOffset(c)
  }

  /** The page a lawful implementation is asked for behind the first `n` entries after `c`. */
  predicate AnsweredAt(fs: Fs, dir: u64, dots: Dots, c: u64, n: nat, answer: FsResult<seq<DirEntry>>) {
    var offset := FirstOffset(dots, c) + n;
    0 <= offset <= U64_MAX && answer == fs.readdir(dir, offset)
  }

  /** A lawful implementation is asked within its bounds, and answers with an empty page only behind the last entry. */
  lemma AsksLawful(fs: Fs, dir: u64, dots: Dots, entries: seq<DirEntry>, c: u64, n: nat, answer: FsResult<seq<DirEntry>>)
    requires Lists(fs, dir, entries) && PageAnswered(fs, dir, TailAfter(fs, dir, dots, c), n, answer)
    ensures
      var t, es := TailAfter(fs, dir, dots, c), Unseen(fs, dir, dots, entries, c);
      && n <= |es| && Offered(t, n) == es[..n]
      && AnsweredAt(fs, dir, dots, c, n, answer)
      && (answer == Ok([]) ==> n == |es|)
  {
    var t := TailAfter(fs, dir, dots, c);
    ListsLawful(fs, dir, entries);
    AskedAfterAll(t, n);
    OfferedLawful(fs, dir, dots, entries, c, n);
    AtPageLawful(t.pages, entries, t.at, n - |t.dots|);
    UnseenIsDotsThenOwn(fs, dir, dots, entries, c);
    if answer == Ok([]) {
      assert LegalPage([], entries, Position(t, n));
    }
  }

  lemma RefusedLawful<S(!new)>(fs: Fs, dir: u64, dots: Dots, entries: seq<DirEntry>, c: u64,
                               sink: (S, Entry) -> (S, Sink), s0: S, n: nat, s: S)
    requires Lists(fs, dir, entries)
    requires RefusedAt(TailAfter(fs, dir, dots, c), sink, s0, n, s)
    ensures n < |Unseen(fs, dir, dots, entries, c)| && Feed(sink, s0, Unseen(fs, dir, dots, entries, c)) == Fed(s, n, false)
  {
    var t, es := TailAfter(fs, dir, dots, c), Unseen(fs, dir, dots, entries, c);
    OfferedLawful(fs, dir, dots, entries, c, n + 1);
    assert es[..n + 1] == Offered(t, n + 1);
    FeedStops(sink, s0, es, n + 1);
  }

  /**
   * With a lawful implementation paging is invisible: a listing that does not
   * fail is `Feed` over the entries after the cookie, and `true` means all of
   * them were accepted. A listing that fails had exactly the entries before the
   * page that failed accepted.
   */
  lemma LawfulWalk<S(!new)>(fs: Fs, dir: u64, dots: Dots, entries: seq<DirEntry>, c: u64,
                            sink: (S, Entry) -> (S, Sink), s0: S, n: nat, r: FsResult<bool>, s: S)
    requires Lists(fs, dir, entries)
    requires Walked(fs, dir, TailAfter(fs, dir, dots, c), sink, s0, n, r, s)
    ensures
      var es := Unseen(fs, dir, dots, entries, c);
      && n <= |es|
      && match r
         case Ok(all) => Feed(sink, s0, es) == Fed(s, n, all)
         case Err(e) => Feed(sink, s0, es[..n]) == Fed(s, n, true) && AnsweredAt(fs, dir, dots, c, n, Err(e))
  {
    var es := Unseen(fs, dir, dots, entries, c);
    match r
    case Ok(all) =>
      if all {
        AsksLawful(fs, dir, dots, entries, c, n, Ok([]));
        assert es[..n] == es;
      } else {
        RefusedLawful(fs, dir, dots, entries, c, sink, s0, n, s);
      }
    case Err(e) => AsksLawful(fs, dir, dots, entries, c, n, Err(e));
  }

  /** And it settles behind its last entry, whatever the sink accepts. */
  lemma LawfulSettles<S(!new)>(fs: Fs, dir: u64, dots: Dots, entries: seq<DirEntry>, c: u64, sink: (S, Entry) -> (S, Sink), s0: S)
    requires Lists(fs, dir, entries)
    ensures Settles(TailAfter(fs, dir, dots, c), sink, s0, |Unseen(fs, dir, dots, entries, c)| + 1)
  {
    OfferedLawful(fs, dir, dots, entries, c, |Unseen(fs, dir, dots, entries, c)| + 1);
  }

  /** An implementation that also never fails hands out everything. */
  lemma {:induction false} OwnComplete(fs: Fs, dir: u64, entries: seq<DirEntry>, at: nat, n: nat)
    requires Lists(fs, dir, entries) && forall offset: u64 :: fs.readdir(dir, offset).Ok?
    requires at + n <= |entries|
    ensures |Own(PagesOf(fs, dir), at, n)| == n
    ensures at + n == |entries| ==> AtPage(PagesOf(fs, dir), at, n)
    decreases n
  {
    if n > 0 {
      var page := fs.readdir(dir, at).value;
      assert LegalPage(page, entries, at) && PagesOf(fs, dir)(at) == page;
      if n >= |page| {
        OwnComplete(fs, dir, entries, at + |page|, n - |page|);
      }
    }
  }

  lemma OfferedComplete(fs: Fs, dir: u64, dots: Dots, entries: seq<DirEntry>, c: u64, n: nat)
    requires Lists(fs, dir, entries) && forall offset: u64 :: fs.readdir(dir, offset).Ok?
    requires n <= |Unseen(fs, dir, dots, entries, c)|
    ensures
      var t, es := TailAfter(fs, dir, dots, c), Unseen(fs, dir, dots, entries, c);
      Offered(t, n) == es[..n] && (n == |es| ==> PageAnswered(fs, dir, t, n, Ok([])))
  {
    OfferedLawful(fs, dir, dots, entries, c, n);
    UnseenIsDotsThenOwn(fs, dir, dots, entries, c);
    var t := TailAfter(fs, dir, dots, c);
    if n >= |t.dots| {
      if t.at <= |entries| {
        OwnComplete(fs, dir, entries, t.at, n - |t.dots|);
      }
      if n == |Unseen(fs, dir, dots, entries, c)| {
        assert LegalPage(fs.readdir(dir, Position(t, n)).value, entries, Position(t, n));
      }
    }
  }

  // ---------------------------------------------------------------- cookies that do not fit

  lemma {:induction false} OwnCookie(pages: Pages, at: nat, n: nat, i: nat)
    requires i < |Own(pages, at, n)|
    ensures Own(pages, at, n)[i].cookie == ForEntry(at + i)
    decreases n
  {
    var k := |pages(at)|;
    if i >= k {
      OwnCookie(pages, at + k, n - k, i - k);
    }
  }

  lemma OfferedCookie(fs: Fs, dir: u64, dots: Dots, c: u64, n: nat, i: nat)
    requires i < |Offered(TailAfter(fs, dir, dots, c), n)|
    ensures FirstOffset(dots, c) + i + DOTDOT + 1 >= 0
    ensures Offered(TailAfter(fs, dir, dots, c), n)[i].cookie == Low64(FirstOffset(dots, c) + i + DOTDOT + 1)
  {
    var t := TailAfter(fs, dir, dots, c);
    if i >= |t.dots| {
      OwnCookie(t.pages, t.at, n - |t.dots|, i - |t.dots|);
    }
  }

  /**
   * No cookie a listing hands out has wrapped, that is, no addition overflowed,
   * if and only if its last entry lies within the largest directory that has cookies.
   */
  lemma CookiesExact(fs: Fs, dir: u64, dots: Dots, c: u64, n: nat)
    requires |Offered(TailAfter(fs, dir, dots, c), n)| == n
    ensures
      var es := Offered(TailAfter(fs, dir, dots, c), n);
      (forall i | 0 <= i < n :: es[i].cookie == FirstOffset(dots, c) + i + DOTDOT + 1) <==> FirstOffset(dots, c) + n <= MAX_ENTRIES
  {
    var es := Offered(TailAfter(fs, dir, dots, c), n);
    forall i | 0 <= i < n
      ensures FirstOffset(dots, c) + i + DOTDOT + 1 >= 0 && es[i].cookie == Low64(FirstOffset(dots, c) + i + DOTDOT + 1)
    {
      OfferedCookie(fs, dir, dots, c, n, i);
    }
    if n > 0 && FirstOffset(dots, c) + n > MAX_ENTRIES {
      assert es[n - 1].cookie <= U64_MAX;
    }
  }

  /** A lawful implementation never gets there. */
  lemma LawfulCookiesExact(fs: Fs, dir: u64, dots: Dots, entries: seq<DirEntry>, c: u64, n: nat)
    requires Lists(fs, dir, entries) && |Offered(TailAfter(fs, dir, dots, c), n)| == n
    ensures FirstOffset(dots, c) + n <= MAX_ENTRIES
  {
    OfferedLawful(fs, dir, dots, entries, c, n);
    UnseenIsDotsThenOwn(fs, dir, dots, entries, c);
  }

  /** An implementation that answers every offset with the same page. */
  ghost predicate IgnoresOffset(fs: Fs, dir: u64, page: seq<DirEntry>) {
    page != [] && forall offset: u64 :: fs.readdir(dir, offset) == Ok(page)
  }

  lemma {:induction false} OwnNeverEnds(fs: Fs, dir: u64, page: seq<DirEntry>, at: nat, n: nat)
    requires IgnoresOffset(fs, dir, page)
    ensures |Own(PagesOf(fs, dir), at, n)| == n
    decreases n
  {
    assert PageAt(fs, dir, at) == Ok(page) && PagesOf(fs, dir)(at) == page;
    if n >= |page| {
      OwnNeverEnds(fs, dir, page, at + |page|, n - |page|);
    }
  }

  /** Asked to resume after the largest cookie, it hands out cookie zero, from which a listing starts over. */
  lemma LastCookieWraps(fs: Fs, dir: u64, dots: Dots, page: seq<DirEntry>)
    requires IgnoresOffset(fs, dir, page)
    ensures
      var es := Offered(TailAfter(fs, dir, dots, U64_MAX), 1);
      |es| == 1 && es[0].cookie == 0
  {
    OwnNeverEnds(fs, dir, page, TraitOffset(U64_MAX), 1);
    OfferedCookie(fs, dir, dots, U64_MAX, 1, 0);
    assert Low64(0x1_0000_0000_0000_0000) == Low64(0);
  }

  lemma {:induction false} AllAccepted<S(!new)>(sink: (S, Entry) -> (S, Sink), s: S, es: seq<Entry>)
    requires forall s, e :: sink(s, e).1.Accepted?
    ensures Feed(sink, s, es).all
    decreases |es|
  {
    if es != [] {
      assert sink(s, es[0]).1.Accepted?;
      AllAccepted(sink, sink(s, es[0]).0, es[1..]);
    }
  }

  /** Under a sink that refuses nothing, listing it never ends. */
  lemma NeverSettles<S(!new)>(fs: Fs, dir: u64, t: Tail, page: seq<DirEntry>, sink: (S, Entry) -> (S, Sink), s0: S, limit: nat)
    requires IgnoresOffset(fs, dir, page) && t.pages == PagesOf(fs, dir)
    requires forall s, e :: sink(s, e).1.Accepted?
    ensures !Settles(t, sink, s0, limit)
  {
    if limit >= |t.dots| {
      OwnNeverEnds(fs, dir, page, t.at, limit - |t.dots|);
    }
    AllAccepted(sink, s0, Offered(t, limit));
  }

  /** A listing that starts over offers the directory itself and then its parent, or itself if no parent is found. */
  lemma DotsOffered(fs: Fs, dir: u64, c: u64, n: nat, i: nat)
    requires i < |Offered(TailAfter(fs, dir, Synthesize, c), n)| && c + i < 2
    ensures
      Offered(TailAfter(fs, dir, Synthesize, c), n)[i] ==
      if c + i == 0 then Entry(dir, [46], Directory, 1)
      else
        match fs.lookup(dir, [46, 46])
        case Ok(a) => Entry(a.ino, [46, 46], Directory, 2)
        case Err(_) => Entry(dir, [46, 46], Directory, 2)
  {
    var parent := match fs.lookup(dir, [46, 46]) case Ok(a) => a.ino case Err(_) => dir;
    assert DotEntries(fs, dir, Synthesize, c) == [Entry(dir, [46], Directory, 1), Entry(parent, [46, 46], Directory, 2)][c..];
  }
}
