/**
 * Directory listings as clients and backends see them. `Listing` is the whole
 * directory with its cookies, `After` what a client that has seen cookie `c` has
 * yet to see, and `Feed` offers entries to a sink that may refuse one.
 */
module Listing {
  import opened Wrappers
  import opened Xdr
  import opened ReadOnlyFs

  const DOT: u64 := 1
  const DOTDOT: u64 := 2

  datatype Dots = Synthesize | Omit
  datatype Sink = Accepted | Full
  datatype Entry = Entry(ino: u64, name: bytes, kind: FileKind, cookie: u64)

  function TraitOffset(resumeAfter: u64): u64 {
    if resumeAfter < DOTDOT then 0 else resumeAfter - DOTDOT
  }

  /** The cookie of the entry at position `at`. */
  function ForEntry(at: nat): u64 {
    Low64(at + DOTDOT + 1)
  }

  /** `..` is best effort: an implementation that does not answer it lists the directory itself. */
  function ParentOf(fs: Fs, dir: u64): u64 {
    var found := fs.lookup(dir, DOTDOT_NAME);
    if found.Ok? then found.value.ino else dir
  }

  function OwnEntries(entries: seq<DirEntry>): (es: seq<Entry>)
    requires |entries| <= MAX_ENTRIES
    ensures |es| == |entries|
  {
    seq(|entries|, i requires 0 <= i < |entries| =>
      Entry(entries[i].ino, entries[i].name, entries[i].kind, ForEntry(i)))
  }

  function Listing(dots: Dots, dir: u64, parent: u64, entries: seq<DirEntry>): (full: seq<Entry>)
    requires |entries| <= MAX_ENTRIES
  {
    (if dots.Synthesize?
     then [Entry(dir, DOT_NAME, Directory, DOT), Entry(parent, DOTDOT_NAME, Directory, DOTDOT)]
     else [])
    + OwnEntries(entries)
  }

  /** How many entries of the full listing a client that resumes after `c` has behind it. */
  function Behind(dots: Dots, c: u64, size: nat): (k: nat)
    ensures k <= size
  {
    var k := if dots.Synthesize? then c else TraitOffset(c);
    if k <= size then k else size
  }

  function After(dots: Dots, full: seq<Entry>, c: u64): seq<Entry> {
    full[Behind(dots, c, |full|)..]
  }

  /** With the dots, entry `i` has cookie `i + 1`. */
  lemma CookieIsPosition(dir: u64, parent: u64, entries: seq<DirEntry>, i: nat)
    requires |entries| <= MAX_ENTRIES
    requires i < |Listing(Synthesize, dir, parent, entries)|
    ensures Listing(Synthesize, dir, parent, entries)[i].cookie == i + 1
  {
  }

  /**
   * Resuming after any cookie, sensible or not, serves exactly the entries
   * with a greater one: nothing is repeated and nothing skipped.
   */
  lemma AfterMeansGreaterCookie(dots: Dots, dir: u64, parent: u64, entries: seq<DirEntry>, c: u64, i: nat)
    requires |entries| <= MAX_ENTRIES
    requires i < |Listing(dots, dir, parent, entries)|
    ensures
      var full := Listing(dots, dir, parent, entries);
      i >= Behind(dots, c, |full|) <==> full[i].cookie > c
  {
  }

  // ---------------------------------------------------------------- sinks

  datatype Fed<S> = Fed(state: S, accepted: nat, all: bool)

  /** Offer `es` in order until one is refused. */
  function Feed<S>(sink: (S, Entry) -> (S, Sink), s: S, es: seq<Entry>): (f: Fed<S>)
    ensures f.accepted <= |es|
    ensures f.all <==> f.accepted == |es|
  {
    if es == [] then Fed(s, 0, true)
    else
      var (s', verdict) := sink(s, es[0]);
      if verdict.Full? then Fed(s', 0, false)
      else
        var f := Feed(sink, s', es[1..]);
        Fed(f.state, f.accepted + 1, f.all)
  }

  lemma {:induction false} FeedSplit<S>(sink: (S, Entry) -> (S, Sink), s: S, es: seq<Entry>, n: nat)
    requires n <= |es|
    requires Feed(sink, s, es[..n]).all
    ensures
      var f := Feed(sink, Feed(sink, s, es[..n]).state, es[n..]);
      Feed(sink, s, es) == Fed(f.state, n + f.accepted, f.all)
  {
    if n == 0 {
      assert es[..0] == [] && es[0..] == es;
    } else {
      assert es[..n][1..] == es[1..][..n - 1];
      assert es[n..] == es[1..][n - 1..];
      FeedSplit(sink, sink(s, es[0]).0, es[1..], n - 1);
    }
  }

  lemma FeedNext<S>(sink: (S, Entry) -> (S, Sink), s: S, es: seq<Entry>, n: nat)
    requires n < |es|
    requires Feed(sink, s, es[..n]).all
    ensures
      var (s', verdict) := sink(Feed(sink, s, es[..n]).state, es[n]);
      if verdict.Full? then Feed(sink, s, es) == Fed(s', n, false)
      else Feed(sink, s, es[..n + 1]) == Fed(s', n + 1, true)
  {
    var mid := Feed(sink, s, es[..n]).state;
    if sink(mid, es[n]).1.Full? {
      FeedSplit(sink, s, es, n);
    } else {
      assert es[..n + 1][..n] == es[..n];
      FeedSplit(sink, s, es[..n + 1], n);
      assert es[..n + 1][n..] == [es[n]];
      assert Feed(sink, sink(mid, es[n]).0, []) == Fed(sink(mid, es[n]).0, 0, true);
    }
  }

  /** What `Feed` accepts is the longest prefix the sink accepts from start to end. */
  lemma {:induction false} FeedIsLongestPrefix<S>(sink: (S, Entry) -> (S, Sink), s: S, es: seq<Entry>, k: nat)
    requires k <= |es|
    ensures Feed(sink, s, es[..k]).all <==> k <= Feed(sink, s, es).accepted
  {
    if k > 0 {
      assert es[..k][0] == es[0];
      assert es[..k][1..] == es[1..][..k - 1];
      var (s', verdict) := sink(s, es[0]);
      if verdict.Accepted? {
        FeedIsLongestPrefix(sink, s', es[1..], k - 1);
      }
    }
  }

  /** What `Feed` does with a refused entry at the end of `es[..n]` is what it does with all of `es`. */
  lemma {:induction false} FeedStops<S>(sink: (S, Entry) -> (S, Sink), s: S, es: seq<Entry>, n: nat)
    requires n <= |es|
    requires !Feed(sink, s, es[..n]).all
    ensures Feed(sink, s, es) == Feed(sink, s, es[..n])
  {
    assert es[..n][0] == es[0];
    assert es[..n][1..] == es[1..][..n - 1];
    if sink(s, es[0]).1.Accepted? {
      FeedStops(sink, sink(s, es[0]).0, es[1..], n - 1);
    }
  }

  /** A feed that is refused an entry never looks past it. */
  lemma FeedCut<S>(sink: (S, Entry) -> (S, Sink), s: S, es: seq<Entry>)
    requires !Feed(sink, s, es).all
    ensures Feed(sink, s, es[..Feed(sink, s, es).accepted + 1]) == Feed(sink, s, es)
  {
    var n := Feed(sink, s, es).accepted + 1;
    FeedIsLongestPrefix(sink, s, es, n);
    FeedStops(sink, s, es, n);
  }

  /** Feeding more after everything was accepted. */
  lemma FeedMore<S>(sink: (S, Entry) -> (S, Sink), s: S, es: seq<Entry>, more: seq<Entry>)
    requires Feed(sink, s, es).all
    ensures
      var f := Feed(sink, Feed(sink, s, es).state, more);
      Feed(sink, s, es + more) == Fed(f.state, |es| + f.accepted, f.all)
  {
    assert (es + more)[..|es|] == es && (es + more)[|es|..] == more;
    FeedSplit(sink, s, es + more, |es|);
  }
}
