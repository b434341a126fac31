/** The file-system walker (core/parsers/pytsk_parser.py) over an abstract
    directory tree in place of The Sleuth Kit: how a listed name becomes a
    `FileEntry` or fails to, the directory listing that skips "." and ".."
    and every name whose entry failed, the pre-order walk that descends only
    into live directories, the partition table in bytes with the whole-disk
    fallback, file content, and the mock parser used when the library is
    missing. */
module FileSystemParser {
  import opened Wrappers
  import opened Bytes
  import opened Text
  import opened FileEntries

  const SECTOR_SIZE: int := 512
  /** `TSK_FS_META_TYPE_DIR`. */
  const META_TYPE_DIR: int := 2
  /** `TSK_FS_META_FLAG_UNALLOC`, the bit set on deleted metadata. */
  const META_FLAG_UNALLOC: nat := 2
  /** `TSK_VS_PART_FLAG_ALLOC`. */
  const PART_FLAG_ALLOC: int := 1

  /** The metadata of a name, as the library reports it; times are whole
      seconds since the epoch and 0 when unset. */
  datatype Meta = Meta(metaType: int, size: int, flags: nat, crtime: int, mtime: int, atime: int, addr: int)

  /** One name in a directory: its metadata, if any, and, for a directory,
      what listing it yields. */
  datatype FsNode = FsNode(name: string, meta: Option<Meta>, children: seq<FsNode>)

  // Building entries

  /** The path of a child of `parent`: trailing slashes of the parent are
      dropped, so the root "/" and "a" give "/a". */
  function ChildPath(parent: string, name: string): (r: string)
    ensures IsSuffix("/" + name, r)
    ensures IsPrefix(RStrip(parent, '/') + "/", r)
    ensures |r| == |RStrip(parent, '/')| + 1 + |name|
  {
    RStrip(parent, '/') + "/" + name
  }

  /** Whether bit `bit` (a power of two) is set in `flags`. */
  predicate HasFlag(flags: nat, bit: nat)
    requires bit > 0
  {
    (flags / bit) % 2 == 1
  }

  /** A raw time is present when it is not 0; the instant is kept in
      microseconds. */
  function RawTime(seconds: int): (r: Option<Timestamp>)
    ensures r.None? <==> seconds == 0
    ensures r.Some? ==> r.value % 1000000 == 0 && r.value / 1000000 == seconds
  {
    if seconds == 0 then None else Some(seconds * 1000000)
  }

  /** The entry `_create_file_entry` builds when no conversion raises: a
      default entry named after the node, with the flags, size, times and
      metadata address filled in when there is metadata. */
  function BuildEntry(node: FsNode, parentPath: string): (e: FileEntry)
    ensures e.name == node.name && e.path == ChildPath(parentPath, node.name)
    ensures node.meta.None? ==> e == NewFileEntry().(name := node.name, path := e.path)
    ensures node.meta.Some? ==>
      && (e.isDirectory <==> node.meta.value.metaType == META_TYPE_DIR)
      && (e.isDeleted <==> HasFlag(node.meta.value.flags, META_FLAG_UNALLOC))
      && e.size == node.meta.value.size
      && (e.createdTime.None? <==> node.meta.value.crtime == 0)
      && (e.modifiedTime.None? <==> node.meta.value.mtime == 0)
      && (e.accessedTime.None? <==> node.meta.value.atime == 0)
      && e.mftEntry == Some(node.meta.value.addr)
    ensures e.parentMft.None? && e.attributes == map[] && e.children == []
  {
    var base := NewFileEntry().(name := node.name, path := ChildPath(parentPath, node.name));
    match node.meta
    case None => base
    case Some(m) =>
      base.(isDirectory := m.metaType == META_TYPE_DIR,
            size := m.size,
            isDeleted := HasFlag(m.flags, META_FLAG_UNALLOC),
            createdTime := RawTime(m.crtime),
            modifiedTime := RawTime(m.mtime),
            accessedTime := RawTime(m.atime),
            mftEntry := Some(m.addr))
  }

  /** Whether every set time of the metadata converts: `fits` tells which
      raw times `datetime.fromtimestamp` accepts, which depends on the local
      zone and the platform (a date outside the years 1 to 9999 raises). */
  predicate TimesFit(m: Meta, fits: int -> bool) {
    && (m.crtime == 0 || fits(m.crtime))
    && (m.mtime == 0 || fits(m.mtime))
    && (m.atime == 0 || fits(m.atime))
  }

  /** Whether `_create_file_entry` returns an entry for the node rather than
      None. */
  predicate Creatable(node: FsNode, fits: int -> bool) {
    node.meta.None? || TimesFit(node.meta.value, fits)
  }

  /** `_create_file_entry`: None when converting one of the times raises,
      which the `except` turns into None; otherwise the built entry. */
  function CreateFileEntry(node: FsNode, parentPath: string, fits: int -> bool): (r: Option<FileEntry>)
    ensures r.None? <==> (node.meta.Some? &&
      exists t :: t in [node.meta.value.crtime, node.meta.value.mtime, node.meta.value.atime] && t != 0 && !fits(t))
    ensures r.Some? ==> r.value == BuildEntry(node, parentPath)
  {
    if Creatable(node, fits) then Some(BuildEntry(node, parentPath)) else None
  }

  predicate IsDotName(name: string) {
    name == "." || name == ".."
  }

  /** The images under `f` of the elements of `s` that `keep` admits, in
      order. */
  function KeepMap<T(!new), U(!new)>(s: seq<T>, keep: T -> bool, f: T -> U): (r: seq<U>)
    ensures |r| <= |s|
  {
    if s == [] then [] else (if keep(s[0]) then [f(s[0])] else []) + KeepMap(s[1..], keep, f)
  }

  lemma {:induction false} KeepMapMembers<T(!new), U(!new)>(s: seq<T>, keep: T -> bool, f: T -> U)
    ensures forall y :: y in KeepMap(s, keep, f) <==> exists x :: x in s && keep(x) && y == f(x)
  {
    if s != [] {
      KeepMapMembers(s[1..], keep, f);
      assert forall x :: x in s <==> x == s[0] || x in s[1..];
    }
  }

  lemma {:induction false} KeepMapAppend<T(!new), U(!new)>(a: seq<T>, b: seq<T>, keep: T -> bool, f: T -> U)
    ensures KeepMap(a + b, keep, f) == KeepMap(a, keep, f) + KeepMap(b, keep, f)
  {
    if a == [] {
      assert a + b == b;
    } else {
      var head := if keep(a[0]) then [f(a[0])] else [];
      var x, y := KeepMap(a[1..], keep, f), KeepMap(b, keep, f);
      assert (a + b)[0] == a[0];
      assert (a + b)[1..] == a[1..] + b;
      assert KeepMap(a + b, keep, f) == head + KeepMap(a[1..] + b, keep, f);
      KeepMapAppend(a[1..], b, keep, f);
      assert head + (x + y) == (head + x) + y;
    }
  }

  /** Whether a node of a directory is listed: every name but "." and
      "..", when its entry can be created. */
  predicate Listed(n: FsNode, fits: int -> bool) {
    !IsDotName(n.name) && Creatable(n, fits)
  }

  function ListedBy(fits: int -> bool): FsNode -> bool {
    n => Listed(n, fits)
  }

  /** The entry a node of the directory at `path` gives. */
  function EntryIn(path: string): FsNode -> FileEntry {
    n => BuildEntry(n, path)
  }

  /** `get_file_entries` on a directory node: its entries in order, "."
      and ".." left out, and so is every node whose entry came back None. */
  function ListEntries(nodes: seq<FsNode>, path: string, fits: int -> bool): (r: seq<FileEntry>)
    ensures |r| <= |nodes|
    ensures forall e :: e in r ==> !IsDotName(e.name) && e.path == ChildPath(path, e.name)
    ensures forall n :: n in nodes && !IsDotName(n.name) && CreateFileEntry(n, path, fits).Some? ==>
              CreateFileEntry(n, path, fits).value in r
  {
    KeepMapMembers(nodes, ListedBy(fits), EntryIn(path));
    KeepMap(nodes, ListedBy(fits), EntryIn(path))
  }

  /** Every listed entry is what `_create_file_entry` returned for a node
      of the directory other than "." and "..". */
  lemma ListEntriesFromNodes(nodes: seq<FsNode>, path: string, fits: int -> bool)
    ensures forall e :: e in ListEntries(nodes, path, fits) ==>
              exists n :: n in nodes && !IsDotName(n.name) && CreateFileEntry(n, path, fits) == Some(e)
  {
    forall e | e in ListEntries(nodes, path, fits)
      ensures exists n :: n in nodes && !IsDotName(n.name) && CreateFileEntry(n, path, fits) == Some(e)
    {
      KeepMapMembers(nodes, ListedBy(fits), EntryIn(path));
      var n :| n in nodes && ListedBy(fits)(n) && e == EntryIn(path)(n);
    }
  }

  /** The listing keeps the order of the directory: listing two runs of
      nodes laid end to end lists each in turn. */
  lemma ListEntriesAppend(a: seq<FsNode>, b: seq<FsNode>, path: string, fits: int -> bool)
    ensures ListEntries(a + b, path, fits) == ListEntries(a, path, fits) + ListEntries(b, path, fits)
  {
    KeepMapAppend(a, b, ListedBy(fits), EntryIn(path));
  }

  /** A node whose entry cannot be created is dropped from the listing. */
  lemma UncreatableNotListed(n: FsNode, rest: seq<FsNode>, path: string, fits: int -> bool)
    requires CreateFileEntry(n, path, fits).None?
    ensures ListEntries([n] + rest, path, fits) == ListEntries(rest, path, fits)
  {
    ListEntriesAppend([n], rest, path, fits);
    assert ListEntries([n], path, fits) == [] + ListEntries([], path, fits);
  }

  // The walk

  /** Whether the walk descends below an entry. */
  predicate Descends(e: FileEntry) {
    e.isDirectory && !e.isDeleted
  }

  /** `walk_directory(path)` over the nodes of a directory from index `i`
      on: each entry, then, for a live directory, the walk of its own
      listing under its own path. */
  function WalkFrom(dir: FsNode, i: nat, path: string, fits: int -> bool): (r: seq<FileEntry>)
    decreases dir, |dir.children| - i
  {
    if i >= |dir.children| then []
    else
      var node := dir.children[i];
      var rest := WalkFrom(dir, i + 1, path, fits);
      if !Listed(node, fits) then rest
      else
        var e := BuildEntry(node, path);
        [e] + (if Descends(e) then WalkFrom(node, 0, e.path, fits) else []) + rest
  }

  /** `walk_file_system`: nothing without an open file system, else the
      walk from the root "/". */
  function WalkFileSystem(root: Option<FsNode>, fits: int -> bool): (r: seq<FileEntry>)
    ensures root.None? ==> r == []
  {
    if root.None? then [] else WalkFrom(root.value, 0, "/", fits)
  }

  /** `c` sits directly below the live directory `p`, children's paths
      being built by `child`. */
  predicate ParentOfBy(p: FileEntry, c: FileEntry, child: (string, string) -> string) {
    Descends(p) && c.path == child(p.path, c.name)
  }

  /** Every entry either sits directly in the listing of `path`, or comes
      after the live directory that holds it. */
  predicate PreOrderBy(r: seq<FileEntry>, path: string, child: (string, string) -> string) {
    forall j :: 0 <= j < |r| ==>
      r[j].path == child(path, r[j].name) || exists i :: 0 <= i < j && ParentOfBy(r[i], r[j], child)
  }

  predicate ParentOf(p: FileEntry, c: FileEntry) {
    ParentOfBy(p, c, ChildPath)
  }

  /** The walk is pre-order and only enters live directories: every entry
      either sits directly in the listing the walk started from, or comes
      after the live directory that holds it. */
  predicate PreOrder(r: seq<FileEntry>, path: string) {
    PreOrderBy(r, path, ChildPath)
  }

  lemma PreOrderAppend(a: seq<FileEntry>, b: seq<FileEntry>, path: string, child: (string, string) -> string)
    requires PreOrderBy(a, path, child) && PreOrderBy(b, path, child)
    ensures PreOrderBy(a + b, path, child)
  {
    var r := a + b;
    forall j | 0 <= j < |r|
      ensures r[j].path == child(path, r[j].name) || exists i :: 0 <= i < j && ParentOfBy(r[i], r[j], child)
    {
      if j >= |a| {
        assert r[j] == b[j - |a|];
        if b[j - |a|].path != child(path, b[j - |a|].name) {
          var i :| 0 <= i < j - |a| && ParentOfBy(b[i], b[j - |a|], child);
          assert r[i + |a|] == b[i];
        }
      } else {
        assert r[j] == a[j];
        if a[j].path != child(path, a[j].name) {
          var i :| 0 <= i < j && ParentOfBy(a[i], a[j], child);
          assert r[i] == a[i];
        }
      }
    }
  }

  /** A live directory followed by the walk below it is in pre-order. */
  lemma PreOrderBlock(e: FileEntry, below: seq<FileEntry>, path: string, child: (string, string) -> string)
    requires e.path == child(path, e.name)
    requires Descends(e) && PreOrderBy(below, e.path, child)
    ensures PreOrderBy([e] + below, path, child)
  {
    var r := [e] + below;
    assert r[0] == e;
    forall j | 0 < j < |r|
      ensures exists i :: 0 <= i < j && ParentOfBy(r[i], r[j], child)
    {
      var c := below[j - 1];
      assert r[j] == c;
      if c.path == child(e.path, c.name) {
        assert ParentOfBy(e, c, child);
      } else {
        var i :| 0 <= i < j - 1 && ParentOfBy(below[i], c, child);
        assert r[i + 1] == below[i];
      }
    }
  }

  /** One step of the walk: an entry of the listing, what lies below it,
      then the rest of the listing. */
  lemma PreOrderStep(e: FileEntry, below: seq<FileEntry>, rest: seq<FileEntry>, path: string, child: (string, string) -> string)
    requires e.path == child(path, e.name)
    requires if Descends(e) then PreOrderBy(below, e.path, child) else below == []
    requires PreOrderBy(rest, path, child)
    ensures PreOrderBy([e] + below + rest, path, child)
  {
    if Descends(e) {
      PreOrderBlock(e, below, path, child);
    } else {
      assert [e] + below == [e];
    }
    PreOrderAppend([e] + below, rest, path, child);
  }

  lemma {:induction false} WalkIsPreOrder(dir: FsNode, i: nat, path: string, fits: int -> bool)
    ensures PreOrder(WalkFrom(dir, i, path, fits), path)
    decreases dir, |dir.children| - i
  {
    if i < |dir.children| {
      var node := dir.children[i];
      WalkIsPreOrder(dir, i + 1, path, fits);
      if Listed(node, fits) {
        var e := BuildEntry(node, path);
        if Descends(e) {
          WalkIsPreOrder(node, 0, e.path, fits);
        }
        PreOrderStep(e, if Descends(e) then WalkFrom(node, 0, e.path, fits) else [], WalkFrom(dir, i + 1, path, fits), path, ChildPath);
      }
    }
  }

  /** No entry of the walk is named "." or "..". */
  lemma {:induction false} WalkSkipsDots(dir: FsNode, i: nat, path: string, fits: int -> bool)
    ensures forall e :: e in WalkFrom(dir, i, path, fits) ==> !IsDotName(e.name)
    decreases dir, |dir.children| - i
  {
    if i < |dir.children| {
      var node := dir.children[i];
      WalkSkipsDots(dir, i + 1, path, fits);
      if Listed(node, fits) {
        var e := BuildEntry(node, path);
        if Descends(e) {
          WalkSkipsDots(node, 0, e.path, fits);
        }
      }
    }
  }

  /** Every entry of the listing is also walked, first among its own
      descendants: the walk starts with the listing's first entry. */
  lemma WalkStartsWithListing(dir: FsNode, path: string, fits: int -> bool)
    requires dir.children != [] && Listed(dir.children[0], fits)
    ensures WalkFrom(dir, 0, path, fits) != [] && WalkFrom(dir, 0, path, fits)[0] == ListEntries(dir.children, path, fits)[0]
  {
  }

  /** The walk from the root: pre-order from "/", never a dot name. */
  lemma WalkFileSystemFacts(root: Option<FsNode>, fits: int -> bool)
    ensures PreOrder(WalkFileSystem(root, fits), "/")
    ensures forall e :: e in WalkFileSystem(root, fits) ==> !IsDotName(e.name)
  {
    if root.Some? {
      WalkIsPreOrder(root.value, 0, "/", fits);
      WalkSkipsDots(root.value, 0, "/", fits);
    }
  }

  /** Deleted directories are listed but never entered: a node whose
      metadata carries the unallocated flag contributes its own entry and
      nothing from below it, and the walk goes straight on with the next
      node of the listing. */
  lemma DeletedDirectoryNotEntered(dir: FsNode, i: nat, path: string, fits: int -> bool)
    requires i < |dir.children| && Listed(dir.children[i], fits)
    requires dir.children[i].meta.Some? && HasFlag(dir.children[i].meta.value.flags, META_FLAG_UNALLOC)
    ensures WalkFrom(dir, i, path, fits) == [BuildEntry(dir.children[i], path)] + WalkFrom(dir, i + 1, path, fits)
  {
  }

  /** A node whose entry comes back None is skipped together with
      everything below it: the walk goes straight on with the next node. */
  lemma UncreatableSubtreeDropped(dir: FsNode, i: nat, path: string, fits: int -> bool)
    requires i < |dir.children| && CreateFileEntry(dir.children[i], path, fits).None?
    ensures WalkFrom(dir, i, path, fits) == WalkFrom(dir, i + 1, path, fits)
  {
  }

  /** Every node of the listing from index `i` on, other than "." and "..",
      whose entry can be created, is walked. */
  lemma {:induction false} WalkListsEveryNode(dir: FsNode, i: nat, path: string, k: nat, fits: int -> bool)
    requires i <= k < |dir.children| && Listed(dir.children[k], fits)
    ensures BuildEntry(dir.children[k], path) in WalkFrom(dir, i, path, fits)
    decreases k - i
  {
    var node := dir.children[i];
    if k > i {
      WalkListsEveryNode(dir, i + 1, path, k, fits);
      if Listed(node, fits) {
        var e := BuildEntry(node, path);
        var below := if Descends(e) then WalkFrom(node, 0, e.path, fits) else [];
        assert WalkFrom(dir, i, path, fits) == [e] + below + WalkFrom(dir, i + 1, path, fits);
      }
    }
  }

  /** Everything the walk finds below a live directory of the listing,
      whose entry can be created, is also part of the walk of the listing. */
  lemma {:induction false} WalkEntersLiveDirectories(dir: FsNode, i: nat, path: string, k: nat, fits: int -> bool)
    requires i <= k < |dir.children| && Listed(dir.children[k], fits)
    requires Descends(BuildEntry(dir.children[k], path))
    ensures var e := BuildEntry(dir.children[k], path);
      forall x :: x in WalkFrom(dir.children[k], 0, e.path, fits) ==> x in WalkFrom(dir, i, path, fits)
    decreases k - i
  {
    var node := dir.children[i];
    if k > i {
      WalkEntersLiveDirectories(dir, i + 1, path, k, fits);
      if Listed(node, fits) {
        var e := BuildEntry(node, path);
        var below := if Descends(e) then WalkFrom(node, 0, e.path, fits) else [];
        assert WalkFrom(dir, i, path, fits) == [e] + below + WalkFrom(dir, i + 1, path, fits);
      }
    } else {
      var e := BuildEntry(node, path);
      assert WalkFrom(dir, i, path, fits) == [e] + WalkFrom(node, 0, e.path, fits) + WalkFrom(dir, i + 1, path, fits);
    }
  }

  // Partitions

  /** One entry of the volume system's table, in sectors. */
  datatype VolumePart = VolumePart(addr: int, desc: string, start: int, len: int, flags: int)

  datatype Partition = Partition(index: int, partType: string, start: int, length: int, flags: int)

  function ToBytes(v: VolumePart): (p: Partition)
    ensures p.start == v.start * SECTOR_SIZE && p.length == v.len * SECTOR_SIZE
  {
    Partition(v.addr, v.desc, v.start * SECTOR_SIZE, v.len * SECTOR_SIZE, v.flags)
  }

  function LiveParts(parts: seq<VolumePart>): (r: seq<Partition>)
    ensures |r| <= |parts|
    ensures forall p :: p in r <==> exists v :: v in parts && v.len > 0 && p == ToBytes(v)
  {
    if parts == [] then []
    else
      var rest := LiveParts(parts[1..]);
      assert forall v :: v in parts <==> v == parts[0] || v in parts[1..];
      (if parts[0].len > 0 then [ToBytes(parts[0])] else []) + rest
  }

  /** The byte partitions keep the order of the table. */
  lemma {:induction false} LivePartsAppend(a: seq<VolumePart>, b: seq<VolumePart>)
    ensures LiveParts(a + b) == LiveParts(a) + LiveParts(b)
  {
    if a != [] {
      assert (a + b)[1..] == a[1..] + b;
      LivePartsAppend(a[1..], b);
    } else {
      assert a + b == b;
    }
  }

  /** `get_partitions`: nothing without an image; the table's non-empty
      entries in bytes; a single whole-disk partition when there is no
      volume system (`volumes` is None). */
  function GetPartitions(imageOpen: bool, volumes: Option<seq<VolumePart>>, imageSize: int): (r: seq<Partition>)
    ensures !imageOpen ==> r == []
    ensures imageOpen && volumes.None? ==> r == [Partition(0, "Whole Disk", 0, imageSize, PART_FLAG_ALLOC)]
    ensures imageOpen && volumes.Some? ==> forall p :: p in r ==> p.length > 0 && p.length % SECTOR_SIZE == 0 && p.start % SECTOR_SIZE == 0
    ensures imageOpen && volumes.Some? ==> r == LiveParts(volumes.value)
  {
    if !imageOpen then []
    else if volumes.None? then [Partition(0, "Whole Disk", 0, imageSize, PART_FLAG_ALLOC)]
    else LiveParts(volumes.value)
  }

  // File content

  /** `get_file_content`: None without a file system or when the path does
      not open; empty for a file of size 0 or less; else the first `size`
      bytes of its data. */
  function GetFileContent(fsOpen: bool, meta: Option<Meta>, data: seq<Byte>): (r: Option<seq<Byte>>)
    ensures r.None? <==> !fsOpen || meta.None?
    ensures r.Some? && meta.value.size <= 0 ==> r.value == []
    ensures r.Some? ==> IsPrefix(r.value, data)
    ensures r.Some? ==> |r.value| == if meta.value.size <= 0 then 0 else if meta.value.size <= |data| then meta.value.size else |data|
  {
    if !fsOpen || meta.None? then None
    else if meta.value.size > 0 then Some(if meta.value.size <= |data| then data[..meta.value.size] else data)
    else Some([])
  }

  // The mock parser

  datatype MockParser = MockParser(isOpen: bool)

  /** `open_image`: open exactly when the image file exists. */
  function MockOpen(p: MockParser, imageExists: bool): (r: (MockParser, bool))
    ensures r.0.isOpen == imageExists && r.1 == imageExists
  {
    (MockParser(imageExists), imageExists)
  }

  function MockClose(p: MockParser): (r: MockParser)
    ensures !r.isOpen
  {
    MockParser(false)
  }

  function MockPartitions(p: MockParser): (r: seq<Partition>)
    ensures !p.isOpen ==> r == []
    ensures p.isOpen ==> |r| == 1 && r[0].start == 0 && r[0].length == 1024 * 1024
  {
    if !p.isOpen then [] else [Partition(0, "Mock Partition", 0, 1024 * 1024, 0)]
  }

  function MockEntry(i: nat, path: string, now: Timestamp): FileEntry {
    var name := "MockFile" + IntToString(i) + ".txt";
    NewFileEntry().(name := name, path := path + "/" + name, size := 1024 * (i + 1), createdTime := Some(now))
  }

  /** `get_file_entries` of the mock: three files when open; `now` is the
      creation time it stamps on them. */
  function MockEntries(p: MockParser, path: string, now: Timestamp): (r: seq<FileEntry>)
    ensures !p.isOpen ==> r == []
    ensures p.isOpen ==> |r| == 3 && forall i :: 0 <= i < 3 ==> !r[i].isDirectory && r[i].size == 1024 * (i + 1)
  {
    if !p.isOpen then [] else [MockEntry(0, path, now), MockEntry(1, path, now), MockEntry(2, path, now)]
  }

  /** The mock joins the path and the name without stripping, so the walk
      from "/" yields paths that start with "//", unlike the real parser. */
  lemma MockEntryPath(i: nat, now: Timestamp)
    ensures var e := MockEntry(i, "/", now); IsPrefix("//", e.path) && e.path != ChildPath("/", e.name)
  {
    var e := MockEntry(i, "/", now);
    assert RStrip("/", '/') == "";
    assert |e.path| == |e.name| + 2;
    assert |ChildPath("/", e.name)| == |e.name| + 1;
    assert e.path[..2] == "//";
  }

  lemma MockWalkPaths(p: MockParser, now: Timestamp)
    requires p.isOpen
    ensures forall e :: e in MockEntries(p, "/", now) ==> IsPrefix("//", e.path)
    ensures forall e :: e in MockEntries(p, "/", now) ==> e.path != ChildPath("/", e.name)
  {
    MockEntryPath(0, now);
    MockEntryPath(1, now);
    MockEntryPath(2, now);
  }

  /** A closed mock lists nothing. */
  lemma MockClosedListsNothing(p: MockParser, path: string, now: Timestamp)
    ensures MockEntries(MockClose(p), path, now) == [] && MockPartitions(MockClose(p)) == []
  {
  }

  /** `get_file_content` of the mock: the ASCII bytes of "Mock file
      content" for every path, whether or not the mock is open. */
  function MockContent(path: string): (r: seq<Byte>)
    ensures |r| == |"Mock file content"|
    ensures forall i :: 0 <= i < |r| ==> r[i] == "Mock file content"[i] as int
  {
    [77, 111, 99, 107, 32, 102, 105, 108, 101, 32, 99, 111, 110, 116, 101, 110, 116]
  }
}
