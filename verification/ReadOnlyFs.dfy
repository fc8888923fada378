/**
 * The filesystem an implementor supplies, as the record of its answers.
 *
 * One value of `Fs` is what the implementation says during one call; different
 * calls may see different values, so nothing fixes how a directory is split
 * into pages from one call to the next.
 */
module ReadOnlyFs {
  import opened Wrappers
  import opened Xdr

  datatype FsError =
    | NotFound | PermissionDenied | NotADirectory | IsADirectory | InvalidArgument
    | NoXattr | ReadOnly | Unsupported | Io | Other
    | Context(errnoAs: FsError)      // an explanation around another error

  type FsResult<+T> = Result<T, FsError>

  /** `nfsstat3` for an error, through any explanations; never zero, which is what a client reads as success. */
  function ToNfsStat3(e: FsError): (code: u32)
    ensures code in {2, 5, 13, 20, 21, 22, 30, 10004, 10006}
  {
    match e
    case NotFound => 2
    case PermissionDenied => 13
    case NotADirectory => 20
    case IsADirectory => 21
    case InvalidArgument => 22
    case NoXattr => 10004
    case ReadOnly => 30
    case Unsupported => 10004
    case Io => 5
    case Other => 10006
    case Context(inner) => ToNfsStat3(inner)
  }

  type u16 = x: int | 0 <= x < 0x1_0000
  type nanos = x: int | 0 <= x < 1_000_000_000

  datatype FileKind = File | Directory

  /** A point in time; `secs` counts from the Unix epoch and may precede it. */
  datatype SystemTime = SystemTime(secs: int, nanos: nanos)

  datatype FileAttr = FileAttr(
    ino: u64, kind: FileKind, size: u64, perm: u16, nlink: u32, uid: u32, gid: u32,
    atime: SystemTime, mtime: SystemTime, ctime: SystemTime)

  datatype DirEntry = DirEntry(ino: u64, name: bytes, kind: FileKind)

  datatype StatFs = StatFs(blocks: u64, bfree: u64, bavail: u64, files: u64, ffree: u64, frsize: u32)

  /** What `read_at` did: the count it reported, and what it stored at the front of the buffer. */
  datatype ReadOut = ReadOut(reported: nat, stored: bytes)

  datatype Fs = Fs(
    lookup: (u64, bytes) -> FsResult<FileAttr>,
    getattr: u64 -> FsResult<FileAttr>,
    readdir: (u64, u64) -> FsResult<seq<DirEntry>>,
    open: u64 -> FsResult<u64>,
    readAt: (u64, u64, nat) -> FsResult<ReadOut>,
    statfs: FsResult<StatFs>)

  /** The buffer after `read_at` stored `stored` at its front; the length cannot change. */
  function Overlay(buf: bytes, stored: bytes): (r: bytes)
    ensures |r| == |buf|
  {
    if |stored| <= |buf| then stored + buf[|stored|..] else stored[..|buf|]
  }

  const DOT_NAME: bytes := [46]
  const DOTDOT_NAME: bytes := [46, 46]
  const ROOT_INO: u64 := 1

  /** More entries than this and the cookie of the last one would not fit 64 bits. */
  const MAX_ENTRIES: nat := 0x1_0000_0000_0000_0000 - 3

  /**
   * A page that `readdir` may return at `offset`: some of what remains, in
   * order, and empty only when nothing remains.
   */
  predicate LegalPage(page: seq<DirEntry>, entries: seq<DirEntry>, offset: nat) {
    if offset < |entries| then page != [] && page <= entries[offset..] else page == []
  }

  /** Every page the implementation hands out for `dir` comes from `entries`. */
  ghost predicate Lists(fs: Fs, dir: u64, entries: seq<DirEntry>) {
    && |entries| <= MAX_ENTRIES
    && forall offset: u64 :: fs.readdir(dir, offset).Ok? ==> LegalPage(fs.readdir(dir, offset).value, entries, offset)
  }
}
