/**
 * The Cloud Files backend's two platform-free loops: streaming one required
 * range to the platform in completions, and preparing a directory's placeholders.
 */
module CfApi {
  import opened Wrappers
  import opened Xdr
  import opened ReadOnlyFs
  import opened Listing
  import opened Paging

  const TRANSFER_CHUNK: nat := 0x10_0000
  const I64_MAX: int := 0x7FFF_FFFF_FFFF_FFFF

  type i64 = x: int | -0x8000_0000_0000_0000 <= x <= 0x7FFF_FFFF_FFFF_FFFF

  /** What `transfer_data` tells the platform about one range. `None` is success. */
  datatype Completion = Completion(data: bytes, offset: i64, length: i64, failure: Option<FsError>)

  /** What `read_at` does during one fetch, by offset and length asked for. */
  type Reads = (u64, nat) -> FsResult<ReadOut>

  /** A sum of two signed 64-bit numbers, the first of any sign and the second not negative, as 64 bits hold it. */
  function Wrap64(x: int): i64
    requires -0x8000_0000_0000_0000 <= x <= 2 * I64_MAX
  {
    if x > I64_MAX then x - 0x1_0000_0000_0000_0000 else x
  }

  /** A signed offset cast to the unsigned one `read_at` takes. */
  function AsU64(x: i64): u64 {
    if x < 0 then x + 0x1_0000_0000_0000_0000 else x
  }

  function Min(a: int, b: int): int {
    if a <= b then a else b
  }

  /**
   * Completions that lie end to end from `offset` to `end`, all but the last of
   * them successes. Positions past the largest signed offset appear wrapped;
   * ranges of real files have none.
   */
  predicate Contiguous(cs: seq<Completion>, offset: int, end: int)
    requires -0x8000_0000_0000_0000 <= offset && end <= 2 * I64_MAX
  {
    if cs == [] then offset == end
    else
      && offset < end
      && cs[0].offset == Wrap64(offset) && cs[0].length > 0
      && (cs[0].failure == None ==> |cs[0].data| == cs[0].length)
      && (cs[0].failure != None ==> cs[0].data == [] && |cs| == 1)
      && Contiguous(cs[1..], offset + cs[0].length, end)
  }

  predicate AllSucceeded(cs: seq<Completion>) {
    forall i | 0 <= i < |cs| :: cs[i].failure == None
  }

  lemma {:induction false} ContiguousSnoc(cs: seq<Completion>, offset: int, end: int, c: Completion)
    requires -0x8000_0000_0000_0000 <= offset <= end && end + c.length <= 2 * I64_MAX && c.length > 0
    requires Contiguous(cs, offset, end) && AllSucceeded(cs)
    requires c.offset == Wrap64(end)
    requires if c.failure == None then |c.data| == c.length else c.data == []
    ensures Contiguous(cs + [c], offset, end + c.length)
    ensures c.failure == None ==> AllSucceeded(cs + [c])
  {
    if cs == [] {
      assert ([c])[1..] == [];
    } else {
      assert (cs + [c])[1..] == cs[1..] + [c];
      ContiguousSnoc(cs[1..], offset + cs[0].length, end, c);
    }
  }

  /** The bytes delivered by the successes. */
  function Delivered(cs: seq<Completion>): bytes {
    if cs == [] then [] else cs[0].data + Delivered(cs[1..])
  }

  lemma {:induction false} DeliveredSnoc(cs: seq<Completion>, c: Completion)
    ensures Delivered(cs + [c]) == Delivered(cs) + c.data
  {
    if cs == [] {
      assert cs + [c] == [c];
      assert [c][1..] == [];
    } else {
      assert (cs + [c])[1..] == cs[1..] + [c];
      DeliveredSnoc(cs[1..], c);
    }
  }

  /** The implementation reads `file`: short only at its end. */
  ghost predicate ReadsFile(readAt: Reads, file: bytes) {
    forall at: u64, want: nat :: HonestRead(readAt(at, want), file, at, want)
  }

  predicate HonestRead(r: FsResult<ReadOut>, file: bytes, at: u64, want: nat) {
    && r.Ok?
    && r.value.reported == (if at >= |file| then 0 else Min(want, |file| - at))
    && |r.value.stored| >= r.value.reported
    && r.value.stored[..r.value.reported] == if at >= |file| then [] else file[at..at + r.value.reported]
  }

  /** Every completion but the last starts and ends on a 4096-byte boundary. */
  predicate ChunksAligned(cs: seq<Completion>) {
    forall i | 0 <= i < |cs| ::
      cs[i].offset % 4096 == 0 && (i + 1 < |cs| ==> cs[i].length == TRANSFER_CHUNK)
  }

  /** The promises for an honest implementation and a range inside the file. */
  ghost predicate Honest(readAt: Reads, file: bytes, offset: i64, length: i64) {
    && ReadsFile(readAt, file)
    && 0 <= offset && offset % 4096 == 0 && offset + length <= |file|
  }

  /** The state of an honest fetch after `sent` bytes: the file's data, in whole chunks until the range runs out. */
  ghost predicate HonestSoFar(cs: seq<Completion>, file: bytes, offset: int, length: int, sent: int) {
    && 0 <= offset && 0 <= sent <= length && offset + length <= |file|
    && Delivered(cs) == file[offset..offset + sent]
    && ChunksAligned(cs)
    && (sent < length ==> sent == |cs| * TRANSFER_CHUNK && forall i | 0 <= i < |cs| :: cs[i].length == TRANSFER_CHUNK)
  }

  function Want(length: int, sent: int): int {
    Min(length - sent, Min(TRANSFER_CHUNK, length))
  }

  /** The completion sent for what one read returned. */
  function Success(offset: i64, want: nat, o: ReadOut): Completion
    requires want <= TRANSFER_CHUNK
  {
    var n := Min(o.reported, want);
    Completion(Overlay(Zeros(want), o.stored)[..n], offset, n, None)
  }

  /** A completion, sent with `left` bytes to go, tells what the read of at most 1 MiB there returned; nothing is an `Io` error. */
  predicate Tells(readAt: Reads, c: Completion, left: int)
    requires left > 0
  {
    var want := Min(left, 0x10_0000);
    var answer := readAt(AsU64(c.offset), want);
    if answer.Err? then c.length == left && c.failure == Some(answer.error)
    else if answer.value.reported == 0 then c.length == left && c.failure == Some(Io)
    else
      && c.failure == None && c.length == |c.data| == Min(answer.value.reported, want)
      && forall i | 0 <= i < |c.data| :: c.data[i] == if i < |answer.value.stored| then answer.value.stored[i] else 0
  }

  predicate AllTell(readAt: Reads, cs: seq<Completion>, left: int) {
    cs == [] || (left > 0 && Tells(readAt, cs[0], left) && AllTell(readAt, cs[1..], left - cs[0].length))
  }

  /** Every completion of a positive range tells what the read behind it returned. */
  predicate TellsReads(readAt: Reads, cs: seq<Completion>, length: int) {
    length > 0 ==> AllTell(readAt, cs, length)
  }

  lemma {:induction false} AllTellSnoc(readAt: Reads, cs: seq<Completion>, offset: int, left: int, sent: int, c: Completion)
    requires -0x8000_0000_0000_0000 <= offset && offset + sent <= 2 * I64_MAX
    requires Contiguous(cs, offset, offset + sent) && AllTell(readAt, cs, left)
    requires left - sent > 0 && Tells(readAt, c, left - sent)
    ensures AllTell(readAt, cs + [c], left)
  {
    if cs == [] {
      assert ([c])[1..] == [];
    } else {
      assert (cs + [c])[1..] == cs[1..] + [c];
      AllTellSnoc(readAt, cs[1..], offset + cs[0].length, left - cs[0].length, sent - cs[0].length, c);
    }
  }

  /** What one read brings is told, be it data, nothing or an error. */
  lemma ReadTold(readAt: Reads, offset: i64, length: i64, sent: int)
    requires 0 <= sent < length
    ensures
      var want, at := Want(length, sent), Wrap64(offset + sent);
      match readAt(AsU64(at), want)
      case Err(e) => Tells(readAt, Completion([], at, length - sent, Some(e)), length - sent)
      case Ok(o) =>
        if o.reported == 0 then Tells(readAt, Completion([], at, length - sent, Some(Io)), length - sent)
        else Tells(readAt, Success(at, want, o), length - sent)
  {
  }

  lemma OverlayWhole(want: nat, stored: bytes)
    requires |stored| >= want
    ensures Overlay(Zeros(want), stored)[..want] == stored[..want]
  {
  }

  lemma HonestStep(readAt: Reads, file: bytes, offset: i64, length: i64, cs: seq<Completion>, sent: int)
    requires Honest(readAt, file, offset, length) && HonestSoFar(cs, file, offset, length, sent) && sent < length
    ensures
      var want := Want(length, sent);
      var at := Wrap64(offset + sent);
      var answer := readAt(AsU64(at), want);
      && answer.Ok? && answer.value.reported == want > 0
      && HonestSoFar(cs + [Success(at, want, answer.value)], file, offset, length, sent + want)
  {
    var want := Want(length, sent);
    var at := Wrap64(offset + sent);
    assert AsU64(at) == offset + sent;
    var answer := readAt(AsU64(at), want);
    assert HonestRead(answer, file, AsU64(at), want);
    var c := Success(at, want, answer.value);
    OverlayWhole(want, answer.value.stored);
    assert c.data == file[offset + sent..offset + sent + want];
    DeliveredSnoc(cs, c);
    assert sent == 4096 * (|cs| * 256);
    WholeChunks(cs, c);
  }

  /** After `sent` bytes: end to end so far, all successes, and the file's data if the implementation is honest. */
  ghost predicate SoFar(readAt: Reads, file: bytes, offset: i64, length: i64, cs: seq<Completion>, sent: int) {
    && 0 <= sent <= length && (sent > 0 <==> cs != [])
    && Contiguous(cs, offset, offset + sent) && AllSucceeded(cs) && AllTell(readAt, cs, length)
    && (Honest(readAt, file, offset, length) ==> HonestSoFar(cs, file, offset, length, sent))
  }

  /** One more read: it brings the fetch further, unless it fails or brings nothing, which an honest one does not. */
  lemma ReadStep(readAt: Reads, file: bytes, offset: i64, length: i64, cs: seq<Completion>, sent: int)
    requires SoFar(readAt, file, offset, length, cs, sent) && sent < length
    ensures
      var want, at := Want(length, sent), Wrap64(offset + sent);
      var answer := readAt(AsU64(at), want);
      if answer.Err? || answer.value.reported == 0 then !Honest(readAt, file, offset, length)
      else
        var c := Success(at, want, answer.value);
        c.length > 0 && SoFar(readAt, file, offset, length, cs + [c], sent + c.length)
  {
    var want, at := Want(length, sent), Wrap64(offset + sent);
    var answer := readAt(AsU64(at), want);
    if Honest(readAt, file, offset, length) {
      HonestStep(readAt, file, offset, length, cs, sent);
    }
    ReadTold(readAt, offset, length, sent);
    if answer.Ok? && answer.value.reported > 0 {
      AllTellSnoc(readAt, cs, offset, length, sent, Success(at, want, answer.value));
      ContiguousSnoc(cs, offset, offset + sent, Success(at, want, answer.value));
    }
  }

  /** A read that fails or brings nothing ends the range with its error. */
  lemma FailureTold(readAt: Reads, file: bytes, offset: i64, length: i64, cs: seq<Completion>, sent: int, e: FsError)
    requires SoFar(readAt, file, offset, length, cs, sent) && sent < length
    requires
      var answer := readAt(AsU64(Wrap64(offset + sent)), Want(length, sent));
      if answer.Err? then e == answer.error else answer.value.reported == 0 && e == Io
    ensures
      var all := cs + [Completion([], Wrap64(offset + sent), length - sent, Some(e))];
      Completes(Err(e), all, offset, length) && AllTell(readAt, all, length)
  {
    var c := Completion([], Wrap64(offset + sent), length - sent, Some(e));
    ContiguousSnoc(cs, offset, offset + sent, c);
    ReadTold(readAt, offset, length, sent);
    AllTellSnoc(readAt, cs, offset, length, sent, c);
  }

  lemma WholeChunks(cs: seq<Completion>, c: Completion)
    requires ChunksAligned(cs) && c.offset % 4096 == 0
    requires forall i | 0 <= i < |cs| :: cs[i].length == TRANSFER_CHUNK
    ensures ChunksAligned(cs + [c])
    ensures c.length == TRANSFER_CHUNK ==> forall i | 0 <= i < |cs + [c]| :: (cs + [c])[i].length == TRANSFER_CHUNK
  {
  }

  /** The platform has heard about the whole range: once for an empty one, else end to end, and a failure is the result. */
  predicate Completes(r: FsResult<()>, cs: seq<Completion>, offset: i64, length: i64) {
    if length <= 0 then r.Ok? && cs == [Completion([], offset, 0, None)]
    else
      && cs != [] && Contiguous(cs, offset, offset + length)
      && cs[|cs| - 1].failure == (if r.Ok? then None else Some(r.error))
  }

  /**
   * Whatever `read_at` does, one positive range gets completions that cover it
   * exactly, successes first and at most one failure, which is the result, and
   * each tells what the read behind it returned.
   * With an honest `read_at`, an aligned offset and a file that covers the
   * range, the data is the file's and every chunk but the last is aligned.
   */
  method StreamChunks(readAt: Reads, offset: i64, length: i64, ghost file: bytes)
    returns (r: FsResult<()>, cs: seq<Completion>)
    ensures Completes(r, cs, offset, length)
    ensures TellsReads(readAt, cs, length)
    ensures length > 0 && Honest(readAt, file, offset, length) ==>
              r.Ok? && Delivered(cs) == file[offset..offset + length] && ChunksAligned(cs)
  {
    if length <= 0 {
      return Ok(()), [Completion([], offset, 0, None)];
    }
    var size := Min(TRANSFER_CHUNK, length);
    var sent: int := 0;
    cs := [];
    while sent < length
      invariant SoFar(readAt, file, offset, length, cs, sent)
    {
      ReadStep(readAt, file, offset, length, cs, sent);
      var want := Min(length - sent, size);
      var at := Wrap64(offset + sent);
      var answer := readAt(AsU64(at), want);
      if answer.Err? || answer.value.reported == 0 {
        // A read of nothing is an unexpected end of file.
        var e := if answer.Err? then answer.error else Io;
        var c := Completion([], at, length - sent, Some(e));
        FailureTold(readAt, file, offset, length, cs, sent, e);
        return Err(e), cs + [c];
      }
      // Clamped, not trusted.
      var c := Success(at, want, answer.value);
      cs, sent := cs + [c], sent + c.length;
    }
    return Ok(()), cs;
  }

  /** What one fetch did with file handles. */
  datatype HandleCall = Opened(handle: u64) | Released(handle: u64)

  /** Reading through one open file. */
  function HandleReads(fs: Fs, h: u64): Reads {
    (at: u64, want: nat) => fs.readAt(h, at, want)
  }

  /**
   * A fetch opens and releases one handle around its reads. The platform hears
   * about the range, empty or not, exactly when the open succeeds; a failed open
   * leaves it without any completion.
   */
  method StreamFetch(fs: Fs, ino: u64, offset: i64, length: i64, ghost file: bytes)
    returns (r: FsResult<()>, cs: seq<Completion>, calls: seq<HandleCall>)
    ensures cs != [] <==> fs.open(ino).Ok?
    ensures match fs.open(ino)
            case Ok(h) =>
              && calls == [Opened(h), Released(h)] && Completes(r, cs, offset, length)
              && (length > 0 && Honest(HandleReads(fs, h), file, offset, length) ==>
                    r.Ok? && Delivered(cs) == file[offset..offset + length] && ChunksAligned(cs))
            case Err(e) => calls == [] && cs == [] && r == Err(e)
    ensures fs.open(ino).Ok? ==> TellsReads(HandleReads(fs, fs.open(ino).value), cs, length)
  {
    var attempt := fs.open(ino);
    if attempt.Err? {
      return Err(attempt.error), [], [];
    }
    var h := attempt.value;
    r, cs := StreamChunks(HandleReads(fs, h), offset, length, file);
    calls := [Opened(h), Released(h)];
  }

  // ---------------------------------------------------------------- placeholders

  datatype Placeholder = Placeholder(identity: u64, name: bytes, attr: FileAttr)

  /** The entries whose attributes can be read, in order. */
  function Prepared(fs: Fs, es: seq<Entry>): seq<Placeholder> {
    if es == [] then []
    else
      var a := fs.getattr(es[0].ino);
      (if a.Ok? then [Placeholder(es[0].ino, es[0].name, a.value)] else []) + Prepared(fs, es[1..])
  }

  /** `at` picks the entries whose attributes can be read, each once and in order. */
  predicate Picks(fs: Fs, es: seq<Entry>, at: seq<nat>) {
    && (forall j | 0 <= j < |at| :: at[j] < |es|)
    && (forall j, k | 0 <= j < k < |at| :: at[j] < at[k])
    && forall i: nat | i < |es| :: i in at <==> fs.getattr(es[i].ino).Ok?
  }

  /** The placeholders of those entries: inode, name and attributes. */
  predicate PlaceholdersOf(fs: Fs, es: seq<Entry>, at: seq<nat>, ps: seq<Placeholder>)
    requires forall j | 0 <= j < |at| :: at[j] < |es|
  {
    && |ps| == |at|
    && forall j | 0 <= j < |ps| ::
         && fs.getattr(es[at[j]].ino) == Ok(ps[j].attr)
         && ps[j].identity == es[at[j]].ino && ps[j].name == es[at[j]].name
  }

  ghost predicate OneEach(fs: Fs, es: seq<Entry>, ps: seq<Placeholder>) {
    exists at :: Picks(fs, es, at) && PlaceholdersOf(fs, es, at, ps)
  }

  /** Positions in a sequence whose first element is left out. */
  function Shifted(at: seq<nat>): (r: seq<nat>)
    ensures |r| == |at| && forall j | 0 <= j < |at| :: r[j] == at[j] + 1
    ensures forall i: nat :: i in r <==> i > 0 && i - 1 in at
  {
    var r := seq(|at|, j requires 0 <= j < |at| => at[j] + 1);
    assert forall i: nat | i > 0 && i - 1 in at :: i in r by {
      forall i: nat | i > 0 && i - 1 in at
        ensures i in r
      {
        var j :| 0 <= j < |at| && at[j] == i - 1;
        assert r[j] == i;
      }
    }
    r
  }

  lemma PicksMore(fs: Fs, es: seq<Entry>, later: seq<nat>)
    requires es != [] && Picks(fs, es[1..], later)
    ensures Picks(fs, es, if fs.getattr(es[0].ino).Ok? then [0] + Shifted(later) else Shifted(later))
  {
    forall i: nat | 0 < i < |es|
      ensures i in Shifted(later) <==> fs.getattr(es[i].ino).Ok?
    {
      assert es[1..][i - 1] == es[i];
    }
  }

  lemma PlacedLater(fs: Fs, es: seq<Entry>, later: seq<nat>, ps: seq<Placeholder>)
    requires es != [] && (forall j | 0 <= j < |later| :: later[j] < |es| - 1) && PlaceholdersOf(fs, es[1..], later, ps)
    ensures PlaceholdersOf(fs, es, Shifted(later), ps)
  {
    forall j | 0 <= j < |ps|
      ensures es[Shifted(later)[j]] == es[1..][later[j]]
    {
    }
  }

  lemma PlacedFirst(fs: Fs, es: seq<Entry>, at: seq<nat>, ps: seq<Placeholder>, p: Placeholder)
    requires es != [] && fs.getattr(es[0].ino) == Ok(p.attr) && p.identity == es[0].ino && p.name == es[0].name
    requires (forall j | 0 <= j < |at| :: at[j] < |es|) && PlaceholdersOf(fs, es, at, ps)
    ensures (forall j | 0 <= j < |[0] + at| :: ([0] + at)[j] < |es|) && PlaceholdersOf(fs, es, [0] + at, [p] + ps)
  {
  }

  lemma OneMore(fs: Fs, es: seq<Entry>, later: seq<nat>, ps: seq<Placeholder>)
    requires es != [] && Picks(fs, es[1..], later) && PlaceholdersOf(fs, es[1..], later, ps)
    ensures
      match fs.getattr(es[0].ino)
      case Ok(a) => OneEach(fs, es, [Placeholder(es[0].ino, es[0].name, a)] + ps)
      case Err(_) => OneEach(fs, es, ps)
  {
    PicksMore(fs, es, later);
    PlacedLater(fs, es, later, ps);
    var a := fs.getattr(es[0].ino);
    if a.Ok? {
      PlacedFirst(fs, es, Shifted(later), ps, Placeholder(es[0].ino, es[0].name, a.value));
    }
  }

  lemma OneMoreEach(fs: Fs, es: seq<Entry>, ps: seq<Placeholder>)
    requires es != [] && OneEach(fs, es[1..], ps)
    ensures
      match fs.getattr(es[0].ino)
      case Ok(a) => OneEach(fs, es, [Placeholder(es[0].ino, es[0].name, a)] + ps)
      case Err(_) => OneEach(fs, es, ps)
  {
    var later :| Picks(fs, es[1..], later) && PlaceholdersOf(fs, es[1..], later, ps);
    OneMore(fs, es, later, ps);
  }

  lemma {:induction false} PreparedOneEach(fs: Fs, es: seq<Entry>)
    ensures OneEach(fs, es, Prepared(fs, es))
  {
    if es == [] {
      assert Picks(fs, es, []);
    } else {
      PreparedOneEach(fs, es[1..]);
      OneMoreEach(fs, es, Prepared(fs, es[1..]));
      assert [] + Prepared(fs, es[1..]) == Prepared(fs, es[1..]);
    }
  }

  function KeepAll(): (seq<Entry>, Entry) -> (seq<Entry>, Sink) {
    (listed: seq<Entry>, e: Entry) => (listed + [e], Accepted)
  }

  lemma {:induction false} KeepAllKeeps(listed: seq<Entry>, es: seq<Entry>)
    ensures Feed(KeepAll(), listed, es) == Fed(listed + es, |es|, true)
    decreases |es|
  {
    if es == [] {
      assert listed + es == listed;
    } else {
      KeepAllKeeps(listed + [es[0]], es[1..]);
      assert listed + [es[0]] + es[1..] == listed + es;
    }
  }

  /** The listing ended behind `n` entries, and these are the ones with attributes; or a page failed there. */
  ghost predicate Placed(fs: Fs, dir: u64, n: nat, r: FsResult<seq<Placeholder>>) {
    var t := TailAfter(fs, dir, Omit, 0);
    && PageAnswered(fs, dir, t, n, if r.Ok? then Ok([]) else Err(r.error))
    && (r.Ok? ==> OneEach(fs, Offered(t, n), r.value))
  }

  /**
   * Over any implementation whose pages end: every entry handed out, in order
   * and once, save those without attributes; or the failure of a page. For a
   * directory that keeps the contract of `readdir` that is the directory.
   */
  method ListPlaceholders(fs: Fs, dir: u64, ghost limit: nat) returns (r: FsResult<seq<Placeholder>>)
    requires Settles(TailAfter(fs, dir, Omit, 0), KeepAll(), [], limit)
    ensures exists n: nat :: Placed(fs, dir, n, r)
    ensures forall entries | Lists(fs, dir, entries) :: r.Ok? ==> OneEach(fs, OwnEntries(entries), r.value)
  {
    var done, listed;
    done, listed := Emit(fs, dir, 0, Omit, KeepAll(), [], limit);
    ghost var n: nat :| Walked(fs, dir, TailAfter(fs, dir, Omit, 0), KeepAll(), [], n, done, listed);
    KeepAllKeeps([], Offered(TailAfter(fs, dir, Omit, 0), if done == Ok(false) then n + 1 else n));
    if done.Err? {
      assert Placed(fs, dir, n, Err(done.error));
      return Err(done.error);
    }
    assert listed == Offered(TailAfter(fs, dir, Omit, 0), n);
    var prepared := Prepare(fs, listed);
    forall entries | Lists(fs, dir, entries)
      ensures OneEach(fs, OwnEntries(entries), prepared)
    {
      AllHandedOut(fs, dir, entries, n);
      PreparedOneEach(fs, listed);
    }
    PreparedOneEach(fs, listed);
    assert Placed(fs, dir, n, Ok(prepared));
    return Ok(prepared);
  }

  lemma NothingSeen(fs: Fs, dir: u64, entries: seq<DirEntry>)
    requires |entries| <= MAX_ENTRIES
    ensures Unseen(fs, dir, Omit, entries, 0) == OwnEntries(entries)
  {
    UnseenIsDotsThenOwn(fs, dir, Omit, entries, 0);
    assert OwnEntries(entries)[0..] == OwnEntries(entries);
  }

  lemma AllHandedOut(fs: Fs, dir: u64, entries: seq<DirEntry>, n: nat)
    requires Lists(fs, dir, entries) && PageAnswered(fs, dir, TailAfter(fs, dir, Omit, 0), n, Ok([]))
    ensures Offered(TailAfter(fs, dir, Omit, 0), n) == OwnEntries(entries)
  {
    NothingSeen(fs, dir, entries);
    AsksLawful(fs, dir, Omit, entries, 0, n, Ok([]));
    assert OwnEntries(entries)[..n] == OwnEntries(entries);
  }

  method Prepare(fs: Fs, listed: seq<Entry>) returns (prepared: seq<Placeholder>)
    ensures prepared == Prepared(fs, listed)
  {
    prepared := [];
    assert listed[0..] == listed;
    for i := 0 to |listed|
      invariant prepared + Prepared(fs, listed[i..]) == Prepared(fs, listed)
    {
      var a := fs.getattr(listed[i].ino);
      assert listed[i..][1..] == listed[i + 1..];
      if a.Ok? {
        prepared := prepared + [Placeholder(listed[i].ino, listed[i].name, a.value)];
      }
    }
  }

  /** It ends for every directory that keeps the contract, */
  lemma PlaceholdersEnd(fs: Fs, dir: u64, entries: seq<DirEntry>)
    requires Lists(fs, dir, entries)
    ensures Settles(TailAfter(fs, dir, Omit, 0), KeepAll(), [], |entries| + 1)
  {
    NothingSeen(fs, dir, entries);
    LawfulSettles(fs, dir, Omit, entries, 0, KeepAll(), []);
  }

  /** and for none whose implementation answers every offset with the same page. */
  lemma PlaceholdersNeverEnd(fs: Fs, dir: u64, page: seq<DirEntry>, limit: nat)
    requires IgnoresOffset(fs, dir, page)
    ensures !Settles(TailAfter(fs, dir, Omit, 0), KeepAll(), [], limit)
  {
    NeverSettles(fs, dir, TailAfter(fs, dir, Omit, 0), page, KeepAll(), [], limit);
  }
}
