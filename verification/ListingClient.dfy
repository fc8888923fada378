/**
 * A client listing one directory over the wire: it encodes READDIR or
 * READDIRPLUS arguments, decodes the reply, and asks again after the last
 * cookie it saw. Page splits, budgets and attributes may change with every call.
 */
module ListingClient {
  import opened Wrappers
  import opened Xdr
  import opened ReadOnlyFs
  import opened FileHandle
  import opened Listing
  import opened Paging
  import opened NfsTypes
  import opened NfsAnswers
  import opened NfsProto
  import opened Packing
  import opened RpcCall
  import opened ReplyGrammar

  datatype WireEntry = WireEntry(ino: u64, name: bytes, cookie: u64)
  datatype Page = Page(entries: seq<WireEntry>, eof: bool)

  /** One call: what the server saw during it, the client's limits, and the reply body. */
  datatype Call = Call(ctx: Ctx, dircount: u32, limit: u32, reply: bytes)

  /** The directory a client lists: the mount's secret, the inode, its parent and its entries. */
  datatype Dir = Dir(secret: Secret, ino: u64, parent: u64, entries: seq<DirEntry>)

  ghost predicate ValidDir(d: Dir) {
    |d.entries| <= MAX_ENTRIES
  }

  function Full(d: Dir): seq<Entry>
    requires |d.entries| <= MAX_ENTRIES
  {
    Listing.Listing(Synthesize, d.ino, d.parent, d.entries)
  }

  function Args(d: Dir, call: Call, cookie: u64, plus: bool): seq<Val> {
    [VOpaque(EncodeHandle(d.secret, d.ino)), VU64(cookie), VFixed(COOKIEVERF)]
    + (if plus then [VU32(call.dircount), VU32(call.limit)] else [VU32(call.limit)])
  }

  function ToWire(e: Entry): WireEntry {
    WireEntry(e.ino, e.name, e.cookie)
  }

  function ToWires(es: seq<Entry>): (ws: seq<WireEntry>)
    ensures |ws| == |es|
  {
    seq(|es|, i requires 0 <= i < |es| => ToWire(es[i]))
  }

  function ReadEntry(plus: bool, v: Val): WireEntry
    requires HasType(EntryTy(plus), v)
  {
    assert HasType(TU64, v.fields[0]) && HasType(FILENAME3, v.fields[1]) && HasType(TU64, v.fields[2]);
    WireEntry(v.fields[0].d, v.fields[1].data, v.fields[2].d)
  }

  /** What a client makes of a reply body: a page, or nothing if it is not a complete OK result. */
  function DecodePage(plus: bool, body: bytes): Option<Page> {
    match Parse(ListingTy(plus), body)
    case None => None
    case Some((v, rest)) =>
      ParseTyped(ListingTy(plus), body);
      if rest != [] || v.code != 0 then None
      else
        var fields := v.res.fields;
        assert HaveTypes([POST_OP_ATTR, VERF, TList(EntryTy(plus)), TBool], fields);
        assert HasType(TList(EntryTy(plus)), fields[2]) && HasType(TBool, fields[3]);
        var items := fields[2].items;
        Some(Page(seq(|items|, i requires 0 <= i < |items| => ReadEntry(plus, items[i])), fields[3].b))
  }

  /** The parent is what `..` names, or the directory itself if nothing does. */
  predicate HasParent(d: Dir, fs: Fs) {
    match fs.lookup(d.ino, [46, 46])
    case Ok(a) => d.parent == a.ino
    case Err(_) => d.parent == d.ino
  }

  lemma ParentFound(d: Dir, fs: Fs)
    requires HasParent(d, fs)
    ensures ParentOf(fs, d.ino) == d.parent
  {
  }

  /** The implementation lists this directory without failing, splitting it as it likes. */
  ghost predicate Faithful(d: Dir, ctx: Ctx) {
    && ctx.secret == d.secret
    && Lists(ctx.fs, d.ino, d.entries)
    && HasParent(d, ctx.fs)
    && forall offset: u64 :: ctx.fs.readdir(d.ino, offset).Ok?
  }

  /** The limit of this call can hold the entry the client is waiting for. */
  predicate Adequate(d: Dir, call: Call, cookie: u64, plus: bool)
    requires |d.entries| <= MAX_ENTRIES
  {
    var es := After(Synthesize, Full(d), cookie);
    es != [] ==> LinkSize(DirentVal(call.ctx, es[0], plus)) <= SatSub(call.limit, DIRLIST_OVERHEAD)
  }

  function NextCookie(page: Page, cookie: u64): u64 {
    if page.entries == [] then cookie else page.entries[|page.entries| - 1].cookie
  }

  /** The server answered this call, made after `cookie`, while it listed the directory faithfully. */
  ghost predicate Answered(d: Dir, plus: bool, c: Call, cookie: u64) {
    && ValidDir(d) && Faithful(d, c.ctx) && Adequate(d, c, cookie, plus)
    && Dispatched(if plus then 17 else 16, EncAll(Args(d, c, cookie, plus)), c.ctx, Success(c.reply))
  }

  /**
   * `calls` is a run of the client: until it sees eof, each call resumes after
   * the last cookie received. `served` says which replies the server may give
   * where; what the client does after eof is its own affair.
   */
  ghost predicate Session(served: (Call, u64) -> bool, plus: bool, calls: seq<Call>, cookie: u64) {
    calls != [] ==>
      && served(calls[0], cookie)
      && match DecodePage(plus, calls[0].reply)
         case None => calls[1..] == []
         case Some(page) => !page.eof ==> Session(served, plus, calls[1..], NextCookie(page, cookie))
  }

  /** Everything the client decoded, and whether it has seen eof. */
  function Collect(plus: bool, calls: seq<Call>): Page {
    if calls == [] then Page([], false)
    else
      match DecodePage(plus, calls[0].reply)
      case None => Page([], false)
      case Some(page) =>
        if page.eof then page
        else
          var more := Collect(plus, calls[1..]);
          Page(page.entries + more.entries, more.eof)
  }

  // ---------------------------------------------------------------- one call

  lemma ArgsTyped(d: Dir, call: Call, cookie: u64, plus: bool)
    ensures HaveTypes(ArgTys(if plus then 17 else 16), Args(d, call, cookie, plus))
  {
    var args := Args(d, call, cookie, plus);
    if plus {
      assert HaveTypes([FHANDLE3, TU64, VERF, TU32, TU32], args);
    } else {
      assert HaveTypes([FHANDLE3, TU64, VERF, TU32], args);
    }
  }

  lemma ArgsParse(d: Dir, call: Call, cookie: u64, plus: bool)
    ensures
      var proc := if plus then 17 else 16;
      ParseAll(ArgTys(proc), EncAll(Args(d, call, cookie, plus))) == Some((Args(d, call, cookie, plus), []))
  {
    var proc := if plus then 17 else 16;
    var args := Args(d, call, cookie, plus);
    ArgsTyped(d, call, cookie, plus);
    AllRoundTrip(ArgTys(proc), args, []);
    assert EncAll(args) + [] == EncAll(args);
  }

  lemma ReplyIsAnswer(d: Dir, plus: bool, c: Call, cookie: u64)
    requires ValidDir(d) && Faithful(d, c.ctx)
    requires Dispatched(if plus then 17 else 16, EncAll(Args(d, c, cookie, plus)), c.ctx, Success(c.reply))
    ensures c.reply == Enc(ReaddirAnswer(c.ctx, d.ino, After(Synthesize, Full(d), cookie), c.limit, plus))
  {
    ArgsParse(d, c, cookie, plus);
    ResolveInvertsEncode(d.secret, EncodeHandle(d.secret, d.ino), d.ino);
    var budget := SatSub(c.limit, DIRLIST_OVERHEAD);
    var stop :| MayStop(c.ctx, d.ino, cookie, budget, plus, stop)
                && c.reply == Enc(ListingAnswer(c.ctx, d.ino, cookie, c.limit, plus, stop));
    ParentFound(d, c.ctx.fs);
    LawfulListing(c.ctx, d.ino, d.entries, cookie, c.limit, plus, stop);
  }

  /** Decoding an OK reply gives back the packed entries and the eof flag. */
  lemma PageOfReply(d: Dir, plus: bool, ctx: Ctx, es: seq<Entry>, limit: u32)
    requires ReaddirAnswer(ctx, d.ino, es, limit, plus).code == 0
    ensures
      var n := Fit(DirentVals(ctx, es, plus), SatSub(limit, DIRLIST_OVERHEAD));
      DecodePage(plus, Enc(ReaddirAnswer(ctx, d.ino, es, limit, plus))) == Some(Page(ToWires(es[..n]), n == |es|))
  {
    var vs := DirentVals(ctx, es, plus);
    var n := Fit(vs, SatSub(limit, DIRLIST_OVERHEAD));
    var v := ReaddirAnswer(ctx, d.ino, es, limit, plus);
    ReaddirTyped(ctx, d.ino, es, limit, plus);
    RoundTrip(ListingTy(plus), v, []);
    assert Enc(v) + [] == Enc(v);
    var page := DecodePage(plus, Enc(v)).value;
    assert v.res.fields[2].items == vs[..n];
    assert page.entries == ToWires(es[..n]) by {
      forall i | 0 <= i < n
        ensures page.entries[i] == ToWires(es[..n])[i]
      {
        assert vs[i] == DirentVal(ctx, es[i], plus);
      }
    }
  }

  /** Resuming after the cookie of the `n`th remaining entry leaves the others. */
  lemma ResumeAfter(d: Dir, cookie: u64, n: nat)
    requires ValidDir(d)
    requires 0 < n <= |After(Synthesize, Full(d), cookie)|
    ensures
      var es := After(Synthesize, Full(d), cookie);
      After(Synthesize, Full(d), es[n - 1].cookie) == es[n..]
  {
    var es := After(Synthesize, Full(d), cookie);
    CookieIsPosition(d.ino, d.parent, d.entries, |Full(d)| - |es| + n - 1);
  }

  /** The reply is the next page: a prefix of what remains, not empty if anything does, eof exactly when it is all of it. */
  ghost predicate IsNextPage(full: seq<Entry>, plus: bool, c: Call, cookie: u64) {
    var es := After(Synthesize, full, cookie);
    var page := DecodePage(plus, c.reply);
    && page.Some?
    && var n := |page.value.entries|;
    && n <= |es|
    && page.value == Page(ToWires(es[..n]), n == |es|)
    && (es != [] ==> n > 0 && After(Synthesize, full, NextCookie(page.value, cookie)) == es[n..])
  }

  lemma AnsweredIsNextPage(d: Dir, plus: bool, c: Call, cookie: u64)
    requires Answered(d, plus, c, cookie)
    ensures IsNextPage(Full(d), plus, c, cookie)
  {
    var es := After(Synthesize, Full(d), cookie);
    ReplyIsAnswer(d, plus, c, cookie);
    TooSmallExactly(c.ctx, d.ino, es, c.limit, plus);
    PageOfReply(d, plus, c.ctx, es, c.limit);
    if es != [] {
      assert DirentVals(c.ctx, es, plus)[0] == DirentVal(c.ctx, es[0], plus);
      ResumeAfter(d, cookie, |DecodePage(plus, c.reply).value.entries|);
    }
  }

  /** What fits of everything fits of everything up to the first entry that does not. */
  lemma FitCut(ctx: Ctx, es: seq<Entry>, plus: bool, budget: nat)
    requires Fit(DirentVals(ctx, es, plus), budget) < |es|
    ensures
      var n := Fit(DirentVals(ctx, es, plus), budget);
      Fit(DirentVals(ctx, es[..n + 1], plus), budget) == n
  {
    var vs := DirentVals(ctx, es, plus);
    var n := Fit(vs, budget);
    assert DirentVals(ctx, es[..n + 1], plus) == vs[..n + 1];
    assert vs[..n + 1][..n] == vs[..n] && vs[..n + 1][..n + 1] == vs[..n + 1];
    FitIsMaximal(vs, budget, n);
    FitIsMaximal(vs, budget, n + 1);
    FitIsMaximal(vs[..n + 1], budget, n);
    FitIsMaximal(vs[..n + 1], budget, n + 1);
  }

  lemma RemainingIsUnseen(d: Dir, fs: Fs, cookie: u64)
    requires ValidDir(d) && HasParent(d, fs)
    ensures Unseen(fs, d.ino, Synthesize, d.entries, cookie) == After(Synthesize, Full(d), cookie)
  {
    ParentFound(d, fs);
  }

  /** Packing from all that remains is how a faithful listing may stop. */
  lemma ListingStopsSomewhere(d: Dir, plus: bool, ctx: Ctx, cookie: u64, count: u32) returns (stop: Stop)
    requires ValidDir(d) && Faithful(d, ctx)
    ensures MayStop(ctx, d.ino, cookie, SatSub(count, DIRLIST_OVERHEAD), plus, stop)
    ensures ListingAnswer(ctx, d.ino, cookie, count, plus, stop)
            == ReaddirAnswer(ctx, d.ino, After(Synthesize, Full(d), cookie), count, plus)
  {
    var es, budget := After(Synthesize, Full(d), cookie), SatSub(count, DIRLIST_OVERHEAD);
    var vs := DirentVals(ctx, es, plus);
    var n := Fit(vs, budget);
    RemainingIsUnseen(d, ctx.fs, cookie);
    stop := if n < |vs| then Overfull(n) else Exhausted(n);
    if n < |vs| {
      OfferedComplete(ctx.fs, d.ino, Synthesize, d.entries, cookie, n + 1);
      FitCut(ctx, es, plus, budget);
      AnswerPrefix(ctx, d.ino, es, count, plus, n + 1);
    } else {
      OfferedComplete(ctx.fs, d.ino, Synthesize, d.entries, cookie, n);
      assert es[..n] == es;
    }
  }

  lemma ListingIsAnswer(d: Dir, plus: bool, c: Call, cookie: u64)
    requires ValidDir(d) && Faithful(d, c.ctx)
    requires HaveTypes(ArgTys(if plus then 17 else 16), Args(d, c, cookie, plus))
    ensures IsAnswer(if plus then 17 else 16, Args(d, c, cookie, plus), c.ctx,
                     ReaddirAnswer(c.ctx, d.ino, After(Synthesize, Full(d), cookie), c.limit, plus))
  {
    var fh, v := EncodeHandle(d.secret, d.ino), ReaddirAnswer(c.ctx, d.ino, After(Synthesize, Full(d), cookie), c.limit, plus);
    assert IsReaddirAnswer(c.ctx, fh, cookie, c.limit, plus, v) by {
      var stop := ListingStopsSomewhere(d, plus, c.ctx, cookie, c.limit);
      ResolveInvertsEncode(d.secret, fh, d.ino);
      assert IsListing(c.ctx, d.ino, cookie, c.limit, plus, v);
    }
  }

  lemma AnswerGiven(d: Dir, plus: bool, c: Call, cookie: u64)
    requires ValidDir(d) && Faithful(d, c.ctx)
    ensures Dispatched(if plus then 17 else 16, EncAll(Args(d, c, cookie, plus)), c.ctx,
                       Success(Enc(ReaddirAnswer(c.ctx, d.ino, After(Synthesize, Full(d), cookie), c.limit, plus))))
  {
    var proc := if plus then 17 else 16;
    var args := Args(d, c, cookie, plus);
    ArgsParse(d, c, cookie, plus);
    ArgsTyped(d, c, cookie, plus);
    ListingIsAnswer(d, plus, c, cookie);
    AnswerMayBeGiven(proc, EncAll(args), args, c.ctx,
                     ReaddirAnswer(c.ctx, d.ino, After(Synthesize, Full(d), cookie), c.limit, plus));
  }

  /** The server has an answer to every call it serves faithfully: the client is never left waiting. */
  lemma AnswerExists(d: Dir, plus: bool, c: Call, cookie: u64) returns (reply: bytes)
    requires ValidDir(d) && Faithful(d, c.ctx) && Adequate(d, c, cookie, plus)
    ensures Answered(d, plus, c.(reply := reply), cookie)
  {
    reply := Enc(ReaddirAnswer(c.ctx, d.ino, After(Synthesize, Full(d), cookie), c.limit, plus));
    AnswerGiven(d, plus, c, cookie);
    assert Args(d, c.(reply := reply), cookie, plus) == Args(d, c, cookie, plus);
  }

  // ---------------------------------------------------------------- the run

  lemma WiresSplit(es: seq<Entry>, n: nat)
    requires n <= |es|
    ensures ToWires(es) == ToWires(es[..n]) + ToWires(es[n..])
  {
  }

  /**
   * The client has at every point collected a prefix of what it asked for,
   * each entry once and in order; eof means it has collected everything; and
   * every call before eof brings at least one entry, so as many calls as there
   * are entries (at least one) are enough.
   */
  lemma {:induction false} Reassembly(served: (Call, u64) -> bool, full: seq<Entry>, plus: bool, calls: seq<Call>, cookie: u64)
    requires forall c, k :: served(c, k) ==> IsNextPage(full, plus, c, k)
    requires Session(served, plus, calls, cookie)
    ensures
      var es := After(Synthesize, full, cookie);
      var got := Collect(plus, calls);
      && got.entries <= ToWires(es)
      && (got.eof ==> got.entries == ToWires(es))
      && (!got.eof ==> |got.entries| >= |calls| && (calls != [] ==> |got.entries| < |es|))
    decreases |calls|
  {
    if calls != [] {
      var es := After(Synthesize, full, cookie);
      assert IsNextPage(full, plus, calls[0], cookie);
      var page := DecodePage(plus, calls[0].reply).value;
      var n := |page.entries|;
      WiresSplit(es, n);
      if page.eof {
        assert es[..n] == es;
      } else {
        Reassembly(served, full, plus, calls[1..], NextCookie(page, cookie));
      }
    }
  }

  /** The replies of servers that list the directory faithfully. */
  ghost function ServedBy(d: Dir, plus: bool): (Call, u64) -> bool {
    (c: Call, cookie: u64) => Answered(d, plus, c, cookie)
  }

  lemma ServedPagesFollow(d: Dir, plus: bool)
    requires ValidDir(d)
    ensures forall c, k :: ServedBy(d, plus)(c, k) ==> IsNextPage(Full(d), plus, c, k)
  {
    forall c, k | ServedBy(d, plus)(c, k)
      ensures IsNextPage(Full(d), plus, c, k)
    {
      AnsweredIsNextPage(d, plus, c, k);
    }
  }

  /** The directory as a client should see it: `.`, `..` and its entries, with cookies counting from 1. */
  function Whole(d: Dir): seq<WireEntry>
    requires |d.entries| <= MAX_ENTRIES
  {
    [WireEntry(d.ino, [46], 1), WireEntry(d.parent, [46, 46], 2)]
    + seq(|d.entries|, i requires 0 <= i < |d.entries| => WireEntry(d.entries[i].ino, d.entries[i].name, i + 3))
  }

  lemma WholeIsFull(d: Dir)
    requires ValidDir(d)
    ensures Whole(d) == ToWires(Full(d))
  {
    var dots := Full(d)[..2];
    assert Full(d) == dots + OwnEntries(d.entries);
    assert dots == [Entry(d.ino, DOT_NAME, Directory, DOT), Entry(d.parent, DOTDOT_NAME, Directory, DOTDOT)];
    forall i | 0 <= i < |Whole(d)|
      ensures Whole(d)[i] == ToWires(Full(d))[i]
    {
    }
  }

  /**
   * Whatever the page splits, budgets and attributes of each call, and however
   * many entries each reply brings, a fresh listing with enough calls collects
   * `.`, `..` and every entry exactly once, in order, and then sees eof.
   */
  lemma CompleteListing(d: Dir, plus: bool, calls: seq<Call>)
    requires ValidDir(d) && Session(ServedBy(d, plus), plus, calls, 0)
    requires |calls| >= |d.entries| + 2
    ensures Collect(plus, calls) == Page(Whole(d), true)
  {
    WholeIsFull(d);
    ServedPagesFollow(d, plus);
    Reassembly(ServedBy(d, plus), Full(d), plus, calls, 0);
    assert After(Synthesize, Full(d), 0) == Full(d);
  }

  // ---------------------------------------------------------------- runs exist

  /** The client's plan for the calls to come: limits and server states that can serve whatever is asked next. */
  ghost predicate Plan(d: Dir, plus: bool, calls: seq<Call>) {
    && ValidDir(d)
    && forall i | 0 <= i < |calls| :: Faithful(d, calls[i].ctx) && forall cookie: u64 :: Adequate(d, calls[i], cookie, plus)
  }

  /** `calls` are those of the plan, with their replies filled in. */
  ghost predicate Carried(plan: seq<Call>, calls: seq<Call>) {
    |calls| == |plan| && forall i | 0 <= i < |plan| :: calls[i] == plan[i].(reply := calls[i].reply)
  }

  /** Every plan can be carried out from any cookie. */
  lemma {:induction false} SessionExists(d: Dir, plus: bool, plan: seq<Call>, cookie: u64) returns (calls: seq<Call>)
    requires Plan(d, plus, plan)
    ensures Carried(plan, calls) && Session(ServedBy(d, plus), plus, calls, cookie)
    decreases |plan|
  {
    if plan == [] {
      return [];
    }
    var reply := AnswerExists(d, plus, plan[0], cookie);
    var first := plan[0].(reply := reply);
    AnsweredIsNextPage(d, plus, first, cookie);
    var rest := SessionExists(d, plus, plan[1..], NextCookie(DecodePage(plus, reply).value, cookie));
    calls := [first] + rest;
    assert calls[1..] == rest;
    forall i | 0 <= i < |plan|
      ensures calls[i] == plan[i].(reply := calls[i].reply)
    {
      if i > 0 {
        assert calls[i] == rest[i - 1] && plan[1..][i - 1] == plan[i];
      }
    }
  }

  /** From 528 bytes up, any limits make a plan when names are at most 255 bytes long. */
  lemma PlanFrom528(d: Dir, plus: bool, calls: seq<Call>)
    requires ValidDir(d)
    requires forall i | 0 <= i < |calls| :: Faithful(d, calls[i].ctx) && calls[i].limit >= 528
    requires forall i | 0 <= i < |d.entries| :: |d.entries[i].name| <= 255
    ensures Plan(d, plus, calls)
  {
    forall i, cookie: u64 | 0 <= i < |calls|
      ensures Adequate(d, calls[i], cookie, plus)
    {
      var es := After(Synthesize, Full(d), cookie);
      if es != [] {
        DirentSize(calls[i].ctx, es[0], plus);
        assert es[0] == Full(d)[|Full(d)| - |es|];
        assert PaddedSize(|es[0].name|) <= 256;
      }
    }
  }

  /**
   * So listing always completes: any plan of enough calls can be carried out,
   * and brings the whole directory and then eof.
   */
  lemma ListingCompletes(d: Dir, plus: bool, plan: seq<Call>) returns (calls: seq<Call>)
    requires Plan(d, plus, plan)
    requires |plan| >= |d.entries| + 2
    ensures Carried(plan, calls) && Session(ServedBy(d, plus), plus, calls, 0)
    ensures Collect(plus, calls) == Page(Whole(d), true)
  {
    calls := SessionExists(d, plus, plan, 0);
    CompleteListing(d, plus, calls);
  }
}
