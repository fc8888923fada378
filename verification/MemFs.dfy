/** The in-memory example filesystem: a concrete instance of the trait, with real open-handle state. */
module MemFs {
  import opened Wrappers
  import opened Xdr
  import opened ReadOnlyFs

  datatype Node = Dir(children: seq<(bytes, u64)>) | Data(bytes: bytes)

  /** The tree, which never changes once built. */
  datatype Tree = Tree(nodes: map<u64, Node>, parents: map<u64, u64>)

  const EPOCH := SystemTime(0, 0)

  function Attr(t: Tree, ino: u64): FsResult<FileAttr> {
    if ino !in t.nodes then Err(NotFound)
    else
      match t.nodes[ino]
      case Dir(_) => Ok(FileAttr(ino, Directory, 0, 0x16D, 2, 0, 0, EPOCH, EPOCH, EPOCH))
      case Data(d) => Ok(FileAttr(ino, File, if |d| <= U64_MAX then |d| else U64_MAX, 0x124, 1, 0, 0, EPOCH, EPOCH, EPOCH))
  }

  function Find(children: seq<(bytes, u64)>, name: bytes): Option<u64> {
    if children == [] then None
    else if children[0].0 == name then Some(children[0].1)
    else Find(children[1..], name)
  }

  function Lookup(t: Tree, parent: u64, name: bytes): FsResult<FileAttr> {
    if name == DOT_NAME then Attr(t, parent)
    else if name == DOTDOT_NAME then (if parent in t.parents then Attr(t, t.parents[parent]) else Err(NotFound))
    else if parent !in t.nodes then Err(NotFound)
    else
      match t.nodes[parent]
      case Data(_) => Err(NotADirectory)
      case Dir(children) =>
        match Find(children, name)
        case None => Err(NotFound)
        case Some(ino) => Attr(t, ino)
  }

  /** The children as entries; one that names no node fails the whole listing. */
  function Entries(t: Tree, children: seq<(bytes, u64)>): FsResult<seq<DirEntry>> {
    if children == [] then Ok([])
    else if children[0].1 !in t.nodes then Err(NotFound)
    else
      match Entries(t, children[1..])
      case Err(e) => Err(e)
      case Ok(rest) =>
        Ok([DirEntry(children[0].1, children[0].0, if t.nodes[children[0].1].Dir? then Directory else File)] + rest)
  }

  function Readdir(t: Tree, ino: u64, offset: u64): FsResult<seq<DirEntry>> {
    if ino !in t.nodes then Err(NotFound)
    else
      match t.nodes[ino]
      case Data(_) => Err(NotADirectory)
      case Dir(children) => if offset >= |children| then Ok([]) else Entries(t, children[offset..])
  }

  /** Every child names a node, and directories are small enough to have cookies. */
  predicate WellFormed(t: Tree) {
    forall ino | ino in t.nodes && t.nodes[ino].Dir? ::
      && |t.nodes[ino].children| <= MAX_ENTRIES
      && forall i | 0 <= i < |t.nodes[ino].children| :: t.nodes[ino].children[i].1 in t.nodes
  }

  /** The entries of a directory: a child each, in order, of its node's kind. */
  function Listed(t: Tree, ino: u64): seq<DirEntry>
    requires WellFormed(t)
  {
    if ino !in t.nodes || t.nodes[ino].Data? then []
    else
      var children := t.nodes[ino].children;
      seq(|children|, i requires 0 <= i < |children| =>
        DirEntry(children[i].1, children[i].0, match t.nodes[children[i].1] case Dir(_) => Directory case Data(_) => File))
  }

  lemma {:induction false} EntriesEach(t: Tree, children: seq<(bytes, u64)>)
    requires forall i | 0 <= i < |children| :: children[i].1 in t.nodes
    ensures
      && Entries(t, children).Ok? && |Entries(t, children).value| == |children|
      && forall i | 0 <= i < |children| ::
           Entries(t, children).value[i]
           == DirEntry(children[i].1, children[i].0, if t.nodes[children[i].1].Dir? then Directory else File)
  {
    if children != [] {
      EntriesEach(t, children[1..]);
    }
  }

  /** Listing a directory from any offset gives exactly its children from there on, each as its node is; else it is an error. */
  lemma ListsChildren(t: Tree, ino: u64, offset: u64)
    requires WellFormed(t)
    ensures
      Readdir(t, ino, offset) ==
      if ino !in t.nodes then Err(NotFound)
      else if t.nodes[ino].Data? then Err(NotADirectory)
      else Ok(if offset < |Listed(t, ino)| then Listed(t, ino)[offset..] else [])
  {
    if ino in t.nodes && t.nodes[ino].Dir? && offset < |t.nodes[ino].children| {
      var rest := t.nodes[ino].children[offset..];
      EntriesEach(t, rest);
      assert Entries(t, rest).value == Listed(t, ino)[offset..];
    }
  }

  lemma {:induction false} FirstFound(children: seq<(bytes, u64)>, i: nat)
    requires i < |children| && forall j | 0 <= j < i :: children[j].0 != children[i].0
    ensures Find(children, children[i].0) == Some(children[i].1)
  {
    if i > 0 {
      FirstFound(children[1..], i - 1);
    }
  }

  /** What is listed is found under its name, with the inode and kind it is listed with; `..` finds the parent. */
  lemma ListedIsFound(t: Tree, dir: u64, i: nat)
    requires WellFormed(t) && i < |Listed(t, dir)|
    requires Listed(t, dir)[i].name != [46] && Listed(t, dir)[i].name != [46, 46]
    requires forall j | 0 <= j < i :: Listed(t, dir)[j].name != Listed(t, dir)[i].name
    ensures
      var e := Listed(t, dir)[i];
      var found := Lookup(t, dir, e.name);
      && found.Ok? && found.value.ino == e.ino && found.value.kind == e.kind
      && found == Attr(t, e.ino)
    ensures dir in t.parents && t.parents[dir] in t.nodes ==>
              Lookup(t, dir, [46, 46]).Ok? && Lookup(t, dir, [46, 46]).value.ino == t.parents[dir]
  {
    var children := t.nodes[dir].children;
    forall j | 0 <= j < i
      ensures children[j].0 != children[i].0
    {
      assert Listed(t, dir)[j].name != Listed(t, dir)[i].name;
    }
    FirstFound(children, i);
  }

  /** The answers of this filesystem, for calls that do not touch open files. */
  function AsFs(t: Tree, open: u64 -> FsResult<u64>, readAt: (u64, u64, nat) -> FsResult<ReadOut>): Fs {
    Fs((parent: u64, name: bytes) => Lookup(t, parent, name), (ino: u64) => Attr(t, ino),
       (ino: u64, offset: u64) => Readdir(t, ino, offset), open, readAt, Ok(StatFs(0, 0, 0, 0, 0, 512)))
  }

  /** The example honours the listing contract: one page with everything that remains. */
  lemma HonoursListing(t: Tree, open: u64 -> FsResult<u64>, readAt: (u64, u64, nat) -> FsResult<ReadOut>, dir: u64)
    requires WellFormed(t)
    ensures Lists(AsFs(t, open, readAt), dir, Listed(t, dir))
  {
    var fs := AsFs(t, open, readAt);
    forall offset: u64 | fs.readdir(dir, offset).Ok?
      ensures LegalPage(fs.readdir(dir, offset).value, Listed(t, dir), offset)
    {
      ListsChildren(t, dir, offset);
    }
  }

  // ---------------------------------------------------------------- open files

  const HANDLES: nat := 0x1_0000_0000_0000_0000

  /** The handle given out after `i` others: the counter starts at one and wraps. */
  function HandleAt(i: nat): u64 {
    Low64(1 + i)
  }

  lemma {:induction false} Low64Differ(a: nat, b: nat)
    requires a < b < a + HANDLES
    ensures Low64(a) != Low64(b)
  {
    if a > U64_MAX {
      Low64Differ(a - HANDLES, b - HANDLES);
    }
  }

  /** The handles given out are all different if and only if there are at most 2^64 of them. */
  lemma HandlesDistinct(count: nat)
    ensures (forall i, j | 0 <= i < j < count :: HandleAt(i) != HandleAt(j)) <==> count <= HANDLES
  {
    if count <= HANDLES {
      forall i, j | 0 <= i < j < count
        ensures HandleAt(i) != HandleAt(j)
      {
        Low64Differ(1 + i, 1 + j);
      }
    } else {
      HandlesComeAround(0);
    }
  }

  /** The one after that is the first again. */
  lemma HandlesComeAround(i: nat)
    ensures HandleAt(i + HANDLES) == HandleAt(i)
  {
  }

  /** `h` is one of the first `issued` handles. */
  ghost predicate GivenOut(h: u64, issued: nat) {
    exists i: nat | i < issued :: h == HandleAt(i)
  }

  class Files {
    const tree: Tree
    var openFiles: map<u64, u64>
    var nextHandle: u64
    ghost var issued: nat   // how many handles have been given out

    ghost predicate Valid()
      reads this
    {
      && nextHandle == HandleAt(issued)
      && forall h | h in openFiles :: GivenOut(h, issued)
    }

    constructor (t: Tree)
      ensures Valid() && tree == t && openFiles == map[] && issued == 0
    {
      tree, openFiles, nextHandle, issued := t, map[], 1, 0;
    }

    /** Each file opened gets the next handle, which no open file has while at most 2^64 have been given out. */
    method Open(ino: u64) returns (r: FsResult<u64>)
      requires Valid()
      modifies this
      ensures Valid()
      ensures ino !in tree.nodes ==> r == Err(NotFound)
      ensures ino in tree.nodes && tree.nodes[ino].Dir? ==> r == Err(IsADirectory)
      ensures ino in tree.nodes && tree.nodes[ino].Data? ==> r == Ok(HandleAt(old(issued)))
      ensures r.Ok? ==> openFiles == old(openFiles)[r.value := ino] && issued == old(issued) + 1
      ensures r.Ok? && issued <= HANDLES ==> r.value !in old(openFiles)
      ensures r.Err? ==> openFiles == old(openFiles) && issued == old(issued)
    {
      if ino !in tree.nodes {
        return Err(NotFound);
      }
      if tree.nodes[ino].Dir? {
        return Err(IsADirectory);
      }
      var fh := nextHandle;
      HandlesDistinct(issued + 1);
      Low64Twice(1 + issued, 1);
      nextHandle := Low64(nextHandle + 1);
      openFiles := openFiles[fh := ino];
      issued := issued + 1;
      return Ok(fh);
    }

    /** A read is short only at the end of the file the handle was opened on. */
    method ReadAt(fh: u64, offset: u64, len: nat) returns (r: FsResult<ReadOut>)
      ensures fh !in openFiles ==> r == Err(InvalidArgument)
      ensures fh in openFiles && openFiles[fh] in tree.nodes && tree.nodes[openFiles[fh]].Data? ==>
                var data := tree.nodes[openFiles[fh]].bytes;
                var n := if offset >= |data| then 0 else if len <= |data| - offset then len else |data| - offset;
                r.Ok? && r.value.reported == n == |r.value.stored|
                && (offset <= |data| ==> r.value.stored == data[offset..offset + n])
    {
      if fh !in openFiles {
        return Err(InvalidArgument);
      }
      var ino := openFiles[fh];
      if ino !in tree.nodes {
        return Err(NotFound);
      }
      match tree.nodes[ino]
      case Dir(_) => return Err(IsADirectory);
      case Data(data) =>
        var start := if offset <= |data| then offset else |data|;
        var n := if len <= |data| - start then len else |data| - start;
        return Ok(ReadOut(n, data[start..start + n]));
    }

    /** Unknown handles are accepted and change nothing. */
    method Release(fh: u64)
      requires Valid()
      modifies this`openFiles
      ensures Valid() && openFiles == old(openFiles) - {fh}
    {
      openFiles := openFiles - {fh};
    }
  }
}
