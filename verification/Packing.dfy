/**
 * Packing a directory listing into a client's byte budget: the sink behind
 * READDIR and READDIRPLUS, and what it keeps.
 */
module Packing {
  import opened Wrappers
  import opened Xdr
  import opened ReadOnlyFs
  import opened FileHandle
  import opened Listing
  import opened Paging
  import opened NfsTypes
  import opened NfsAnswers

  datatype Pack = Pack(entries: bytes, remaining: int, packed: nat)

  /** The encoded link of one entry: value_follows, then the entry. */
  function DirentBytes(ctx: Ctx, e: Entry, plus: bool): bytes {
    EncLinks([DirentVal(ctx, e, plus)])
  }

  function PackSink(ctx: Ctx, plus: bool): (Pack, Entry) -> (Pack, Sink) {
    (st: Pack, e: Entry) =>
      var candidate := DirentBytes(ctx, e, plus);
      if |candidate| > st.remaining then (st, Full)
      else (Pack(st.entries + candidate, st.remaining - |candidate|, st.packed + 1), Accepted)
  }

  lemma {:induction false} LinksSize(vs: seq<Val>)
    ensures vs != [] ==> |EncLinks(vs)| == LinkSize(vs[0]) + |EncLinks(vs[1..])|
  {
    if vs != [] {
      EncLinksConcat([vs[0]], vs[1..]);
      assert [vs[0]] + vs[1..] == vs;
    }
  }

  lemma AcceptedLinks(ctx: Ctx, plus: bool, es: seq<Entry>, budget: nat)
    requires es != [] && LinkSize(DirentVal(ctx, es[0], plus)) <= budget
    ensures
      var vs, ws := DirentVals(ctx, es, plus), DirentVals(ctx, es[1..], plus);
      var size := LinkSize(vs[0]);
      && Fit(vs, budget) == 1 + Fit(ws, budget - size)
      && EncLinks(vs[..Fit(vs, budget)]) == DirentBytes(ctx, es[0], plus) + EncLinks(ws[..Fit(ws, budget - size)])
  {
    var vs, ws := DirentVals(ctx, es, plus), DirentVals(ctx, es[1..], plus);
    assert vs[1..] == ws;
    var n := Fit(vs, budget);
    assert vs[..n] == [vs[0]] + ws[..n - 1];
    EncLinksConcat([vs[0]], ws[..n - 1]);
  }

  /**
   * What is left of the budget and what has been packed always add up to the
   * budget, the packed bytes are the links of the accepted entries, and the
   * first refused entry is one that no longer fits.
   */
  lemma {:induction false} PackFeed(ctx: Ctx, plus: bool, st: Pack, es: seq<Entry>)
    requires st.remaining >= 0
    ensures
      var f := Feed(PackSink(ctx, plus), st, es);
      var vs := DirentVals(ctx, es, plus);
      && f.accepted == Fit(vs, st.remaining)
      && f.state.entries == st.entries + EncLinks(vs[..f.accepted])
      && f.state.remaining + |f.state.entries| == st.remaining + |st.entries|
      && f.state.remaining >= 0
      && f.state.packed == st.packed + f.accepted
    decreases |es|
  {
    var vs := DirentVals(ctx, es, plus);
    assert vs[..0] == [] && EncLinks([]) == [];
    if es != [] {
      assert vs[0] == DirentVal(ctx, es[0], plus);
      var (st', verdict) := PackSink(ctx, plus)(st, es[0]);
      if verdict.Accepted? {
        AcceptedLinks(ctx, plus, es, st.remaining);
        PackFeed(ctx, plus, st', es[1..]);
        Assoc(st.entries, DirentBytes(ctx, es[0], plus), EncLinks(DirentVals(ctx, es[1..], plus)[..Fit(vs, st.remaining) - 1]));
      }
    }
  }

  /** Greedy is maximal: a prefix fits the budget exactly when it is no longer than what was packed. */
  lemma {:induction false} FitIsMaximal(vs: seq<Val>, budget: nat, k: nat)
    requires k <= |vs|
    ensures |EncLinks(vs[..k])| <= budget <==> k <= Fit(vs, budget)
  {
    if k > 0 {
      LinksSize(vs[..k]);
      assert vs[..k][0] == vs[0];
      assert vs[..k][1..] == vs[1..][..k - 1];
      if LinkSize(vs[0]) <= budget {
        FitIsMaximal(vs[1..], budget - LinkSize(vs[0]), k - 1);
      }
    }
  }

  lemma LinkFront(v: Val)
    ensures LinkSize(v) == 4 + |Enc(v)|
  {
    var vs := [v];
    assert vs[1..] == [];
    assert EncLinks(vs) == Be32(1) + Enc(v) + EncLinks([]);
  }

  function PaddedSize(n: nat): nat {
    n + PadLen(n)
  }

  lemma Size1(a: Val)
    ensures |EncAll([a])| == |Enc(a)|
  {
    assert EncAll([]) == [];
  }

  lemma Size2(a: Val, b: Val)
    ensures |EncAll([a, b])| == |Enc(a)| + |Enc(b)|
  {
    Size1(b);
    assert [a, b][1..] == [b];
  }

  lemma Size3(a: Val, b: Val, c: Val)
    ensures |EncAll([a, b, c])| == |Enc(a)| + |Enc(b)| + |Enc(c)|
  {
    Size2(b, c);
    assert [a, b, c][1..] == [b, c];
  }

  lemma Size7(a: Val, b: Val, c: Val, d: Val, e: Val, f: Val, g: Val)
    ensures |EncAll([a, b, c, d, e, f, g])| ==
            |Enc(a)| + |Enc(b)| + |Enc(c)| + |Enc(d)| + |Enc(e)| + |Enc(f)| + |Enc(g)|
  {
    Size2(a, b);
    Size2(c, d);
    Size3(e, f, g);
    EncAllConcat([a, b], [c, d]);
    assert [a, b, c, d] == [a, b] + [c, d];
    EncAllConcat([a, b, c, d], [e, f, g]);
    assert [a, b, c, d, e, f, g] == [a, b, c, d] + [e, f, g];
  }

  lemma FattrSize(a: FileAttr, fsid: u64)
    ensures |EncAll(FattrFields(a, fsid))| == 84
  {
    var h, t := FattrHead(a), FattrTail(a, fsid);
    Size7(h[0], h[1], h[2], h[3], h[4], h[5], h[6]);
    assert h == [h[0], h[1], h[2], h[3], h[4], h[5], h[6]];
    Size7(t[0], t[1], t[2], t[3], t[4], t[5], t[6]);
    assert t == [t[0], t[1], t[2], t[3], t[4], t[5], t[6]];
    TimeTyped(a.atime);
    TimeTyped(a.mtime);
    TimeTyped(a.ctime);
    EncAllConcat(h, t);
  }

  /** `fattr3` is 84 bytes, so attributes take 88 bytes when present and 4 when not. */
  lemma PostOpSize(a: Option<FileAttr>, fsid: u64)
    ensures |Enc(PostOpVal(a, fsid))| == if a.Some? then 88 else 4
  {
    if a.Some? {
      FattrSize(a.value, fsid);
    }
  }

  /** Attributes and handle take 120 bytes, their absence 8. */
  lemma PlusFieldsSize(ctx: Ctx, e: Entry)
    ensures |EncAll(PlusFields(ctx, e))| == if AttrOf(ctx, e.ino).Some? then 120 else 8
  {
    var fields := PlusFields(ctx, e);
    PostOpSize(AttrOf(ctx, e.ino), ctx.fsid);
    Size2(fields[0], fields[1]);
  }

  /** Bytes of an entry's link, by its name and what comes with it. */
  lemma DirentSize(ctx: Ctx, e: Entry, plus: bool)
    ensures LinkSize(DirentVal(ctx, e, plus))
            == 24 + PaddedSize(|e.name|) + (if !plus then 0 else if AttrOf(ctx, e.ino).Some? then 120 else 8)
  {
    LinkFront(DirentVal(ctx, e, plus));
    Size3(VU64(e.ino), VOpaque(e.name), VU64(e.cookie));
    if plus {
      PlusFieldsSize(ctx, e);
      EncAllConcat(BaseFields(e), PlusFields(ctx, e));
    }
  }

  // ---------------------------------------------------------------- the client's budget

  /** Encoded size of an OK listing result with the given packed entries. */
  lemma OkSize(attr: Val, vs: seq<Val>, eof: bool)
    ensures |Enc(StatusVal(0, [attr, VFixed(COOKIEVERF), VList(vs), VBool(eof)]))| == 20 + |Enc(attr)| + |EncLinks(vs)|
  {
    Size2(attr, VFixed(COOKIEVERF));
    Size2(VList(vs), VBool(eof));
    EncAllConcat([attr, VFixed(COOKIEVERF)], [VList(vs), VBool(eof)]);
    assert [attr, VFixed(COOKIEVERF)] + [VList(vs), VBool(eof)] == [attr, VFixed(COOKIEVERF), VList(vs), VBool(eof)];
  }

  /** Bytes of an OK listing result that holds no entry. */
  function EmptyReplySize(ctx: Ctx, dir: u64): nat {
    if AttrOf(ctx, dir).Some? then 108 else 24
  }

  /**
   * An OK result fits the client's limit exactly when the limit has room for
   * the result without entries; in particular always from 128 bytes up.
   */
  lemma ReplyFitsLimit(ctx: Ctx, dir: u64, es: seq<Entry>, count: u32, plus: bool)
    ensures
      var v := ReaddirAnswer(ctx, dir, es, count, plus);
      v.code == 0 ==> (|Enc(v)| <= count <==> EmptyReplySize(ctx, dir) <= count)
  {
    var vs := DirentVals(ctx, es, plus);
    var budget := SatSub(count, DIRLIST_OVERHEAD);
    var n := Fit(vs, budget);
    PostOpSize(AttrOf(ctx, dir), ctx.fsid);
    OkSize(PostOp(ctx, dir), vs[..n], n == |vs|);
    FitIsMaximal(vs, budget, n);
    if budget == 0 && vs != [] {
      DirentSize(ctx, es[0], plus);
    }
  }

  /** Below that it overflows: a client that asks for the end of a listing with room for too little gets more than it asked for. */
  lemma EmptyReplyOverflows(ctx: Ctx, dir: u64, count: u32, plus: bool)
    requires count < EmptyReplySize(ctx, dir)
    ensures
      var v := ReaddirAnswer(ctx, dir, [], count, plus);
      v.code == 0 && v.res.fields[3] == VBool(true) && |Enc(v)| == EmptyReplySize(ctx, dir) > count
  {
    var vs := DirentVals(ctx, [], plus);
    assert vs == [] && vs[..0] == [];
    PostOpSize(AttrOf(ctx, dir), ctx.fsid);
    OkSize(PostOp(ctx, dir), [], true);
    assert EncLinks([]) == [];
  }

  /** NFS3ERR_TOOSMALL is answered exactly when there is a next entry and it does not fit. */
  lemma TooSmallExactly(ctx: Ctx, dir: u64, es: seq<Entry>, count: u32, plus: bool)
    ensures
      var v := ReaddirAnswer(ctx, dir, es, count, plus);
      && (v.code == NFS3ERR_TOOSMALL <==>
            es != [] && LinkSize(DirentVal(ctx, es[0], plus)) > SatSub(count, DIRLIST_OVERHEAD))
      && (v.code == NFS3ERR_TOOSMALL || v.code == 0)
      && (v.code == 0 ==> v.res.fields[2].items != [] || v.res.fields[3].b)
  {
    var vs := DirentVals(ctx, es, plus);
    if es != [] {
      assert vs[0] == DirentVal(ctx, es[0], plus);
    }
    if Fit(vs, SatSub(count, DIRLIST_OVERHEAD)) == 0 && vs == [] {
      assert vs[..0] == vs;
    }
  }

  /** 528 bytes always make progress for names of at most 255 bytes. */
  lemma ProgressFrom528(ctx: Ctx, dir: u64, es: seq<Entry>, count: u32, plus: bool)
    requires count >= 528
    requires es != [] ==> |es[0].name| <= 255
    ensures ReaddirAnswer(ctx, dir, es, count, plus).code == 0
  {
    TooSmallExactly(ctx, dir, es, count, plus);
    if es != [] {
      DirentSize(ctx, es[0], plus);
      assert PaddedSize(|es[0].name|) <= 256;
    }
  }

  /** The bound is tight: with attributes, a 253-byte name needs all 528. */
  lemma ProgressFails527(ctx: Ctx, dir: u64, e: Entry)
    requires |e.name| == 253 && AttrOf(ctx, e.ino).Some?
    ensures ReaddirAnswer(ctx, dir, [e], 527, true).code == NFS3ERR_TOOSMALL
  {
    TooSmallExactly(ctx, dir, [e], 527, true);
    DirentSize(ctx, e, true);
  }

  // ---------------------------------------------------------------- listings

  lemma {:induction false} FitSmall(vs: seq<Val>, budget: nat)
    ensures Fit(vs, budget) <= budget
  {
    if vs != [] && LinkSize(vs[0]) <= budget {
      LinkFront(vs[0]);
      FitSmall(vs[1..], budget - LinkSize(vs[0]));
    }
  }

  /** A budget of bytes settles every listing, even of an implementation whose pages never end. */
  lemma PackSettles(ctx: Ctx, plus: bool, t: Tail, budget: nat)
    ensures Settles(t, PackSink(ctx, plus), Pack([], budget, 0), budget + 1)
  {
    var es := Offered(t, budget + 1);
    PackFeed(ctx, plus, Pack([], budget, 0), es);
    FitSmall(DirentVals(ctx, es, plus), budget);
  }

  function StopOf(n: nat, r: FsResult<bool>): Stop {
    match r
    case Ok(all) => if all then Exhausted(n) else Overfull(n)
    case Err(e) => PageFailed(n, e)
  }

  /** A walk of the packing sink has packed what fits of what it was handed. */
  lemma PackWalked(ctx: Ctx, dir: u64, cookie: u64, budget: nat, plus: bool, n: nat, r: FsResult<bool>, pack: Pack)
    requires Walked(ctx.fs, dir, TailAfter(ctx.fs, dir, Synthesize, cookie), PackSink(ctx, plus), Pack([], budget, 0), n, r, pack)
    ensures MayStop(ctx, dir, cookie, budget, plus, StopOf(n, r))
    ensures pack.packed == n
    ensures pack.entries == EncLinks(DirentVals(ctx, Handed(ctx, dir, cookie, StopOf(n, r)), plus)[..n])
  {
    PackFeed(ctx, plus, Pack([], budget, 0), Handed(ctx, dir, cookie, StopOf(n, r)));
  }

  lemma {:induction false} FitPrefix(vs: seq<Val>, budget: nat, k: nat)
    requires k <= |vs| && Fit(vs[..k], budget) < k
    ensures Fit(vs, budget) == Fit(vs[..k], budget)
  {
    assert vs[..k][0] == vs[0] && vs[..k][1..] == vs[1..][..k - 1];
    if LinkSize(vs[0]) <= budget {
      FitPrefix(vs[1..], budget - LinkSize(vs[0]), k - 1);
    }
  }

  /** What is refused in a prefix decides the whole answer. */
  lemma AnswerPrefix(ctx: Ctx, dir: u64, es: seq<Entry>, count: u32, plus: bool, k: nat)
    requires k <= |es| && Fit(DirentVals(ctx, es[..k], plus), SatSub(count, DIRLIST_OVERHEAD)) < k
    ensures ReaddirAnswer(ctx, dir, es[..k], count, plus) == ReaddirAnswer(ctx, dir, es, count, plus)
  {
    var vs, budget := DirentVals(ctx, es, plus), SatSub(count, DIRLIST_OVERHEAD);
    assert DirentVals(ctx, es[..k], plus) == vs[..k];
    FitPrefix(vs, budget, k);
    assert vs[..k][..Fit(vs, budget)] == vs[..Fit(vs, budget)];
  }

  /** What a client that resumes after `cookie` has yet to see of the directory. */
  function Remaining(ctx: Ctx, dir: u64, entries: seq<DirEntry>, cookie: u64): seq<Entry>
    requires |entries| <= MAX_ENTRIES
  {
    Unseen(ctx.fs, dir, Synthesize, entries, cookie)
  }

  /** A listing of `es` that resumed after `cookie` had packed `n` entries when the next page failed. */
  predicate ListingFailed(ctx: Ctx, dir: u64, es: seq<Entry>, cookie: u64, budget: nat, plus: bool, n: nat, e: FsError) {
    n <= Fit(DirentVals(ctx, es, plus), budget) && AnsweredAt(ctx.fs, dir, Synthesize, cookie, n, Err(e))
  }

  /**
   * An implementation that keeps the contract of `readdir` makes the answer that
   * of its directory: packed from all that remains, or failed as the page after
   * entries that fit failed.
   */
  lemma LawfulListing(ctx: Ctx, dir: u64, entries: seq<DirEntry>, cookie: u64, count: u32, plus: bool, stop: Stop)
    requires Lists(ctx.fs, dir, entries)
    requires MayStop(ctx, dir, cookie, SatSub(count, DIRLIST_OVERHEAD), plus, stop)
    ensures
      var es := Remaining(ctx, dir, entries, cookie);
      if stop.PageFailed? then ListingFailed(ctx, dir, es, cookie, SatSub(count, DIRLIST_OVERHEAD), plus, stop.n, stop.error)
      else ListingAnswer(ctx, dir, cookie, count, plus, stop) == ReaddirAnswer(ctx, dir, es, count, plus)
  {
    match stop
    case Overfull(n) => LawfulOverfull(ctx, dir, entries, cookie, count, plus, n);
    case Exhausted(n) =>
      AsksLawful(ctx.fs, dir, Synthesize, entries, cookie, n, Ok([]));
      assert Remaining(ctx, dir, entries, cookie)[..n] == Remaining(ctx, dir, entries, cookie);
    case PageFailed(n, e) =>
      AsksLawful(ctx.fs, dir, Synthesize, entries, cookie, n, Err(e));
      PrefixFits(ctx, Remaining(ctx, dir, entries, cookie), plus, SatSub(count, DIRLIST_OVERHEAD), n);
  }

  lemma LawfulOverfull(ctx: Ctx, dir: u64, entries: seq<DirEntry>, cookie: u64, count: u32, plus: bool, n: nat)
    requires Lists(ctx.fs, dir, entries)
    requires |HandedOut(ctx, dir, cookie, n + 1)| == n + 1
    requires Fit(DirentVals(ctx, HandedOut(ctx, dir, cookie, n + 1), plus), SatSub(count, DIRLIST_OVERHEAD)) == n
    ensures ReaddirAnswer(ctx, dir, HandedOut(ctx, dir, cookie, n + 1), count, plus)
            == ReaddirAnswer(ctx, dir, Remaining(ctx, dir, entries, cookie), count, plus)
  {
    var es := Remaining(ctx, dir, entries, cookie);
    OfferedLawful(ctx.fs, dir, Synthesize, entries, cookie, n + 1);
    assert HandedOut(ctx, dir, cookie, n + 1) == es[..n + 1];
    AnswerPrefix(ctx, dir, es, count, plus, n + 1);
  }

  lemma PrefixFits(ctx: Ctx, es: seq<Entry>, plus: bool, budget: nat, n: nat)
    requires n <= |es| && Fit(DirentVals(ctx, es[..n], plus), budget) == n
    ensures n <= Fit(DirentVals(ctx, es, plus), budget)
  {
    var vs := DirentVals(ctx, es, plus);
    assert DirentVals(ctx, es[..n], plus) == vs[..n] == vs[..n][..n];
    FitIsMaximal(vs[..n], budget, n);
    FitIsMaximal(vs, budget, n);
  }
}
