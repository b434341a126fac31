/** The pure helpers inside the file-system viewer
    (gui/widgets/file_system_viewer.py), lifted out of the widget: the
    search, type and size filter on one entry, the recursive visibility of
    the tree, the path of a tree item, the hexadecimal preview of a file's
    first bytes, and the order of the exported file list. */
module FileSystemViewer {
  import opened Wrappers
  import opened Bytes
  import opened Text
  import opened FileEntries

  // The filter on one entry

  /** The choices of the type combo box. */
  datatype TypeFilter = AllFiles | DeletedOnly | Images | Documents | Archives

  /** The choices of the size combo box. */
  datatype SizeFilter = AnySize | Over1MB | Over10MB | Over100MB | Under1MB

  const MB: int := 1024 * 1024

  const IMAGE_EXTS: seq<string> := [".jpg", ".jpeg", ".png", ".gif", ".bmp", ".tiff", ".ico"]
  const DOC_EXTS: seq<string> := [".pdf", ".doc", ".docx", ".txt", ".rtf", ".odt", ".xls", ".xlsx"]
  const ARCHIVE_EXTS: seq<string> := [".zip", ".rar", ".7z", ".tar", ".gz", ".bz2"]

  predicate EndsWithAny(name: string, exts: seq<string>) {
    exists i :: 0 <= i < |exts| && IsSuffix(exts[i], name)
  }

  /** `sub in s` on strings. */
  predicate Contains(s: string, sub: string) {
    Find(s, sub) >= 0
  }

  predicate PassesType(e: FileEntry, t: TypeFilter) {
    match t
    case AllFiles => true
    case DeletedOnly => e.isDeleted
    case Images => EndsWithAny(Lower(e.name), IMAGE_EXTS)
    case Documents => EndsWithAny(Lower(e.name), DOC_EXTS)
    case Archives => EndsWithAny(Lower(e.name), ARCHIVE_EXTS)
  }

  predicate PassesSize(size: int, f: SizeFilter) {
    match f
    case AnySize => true
    case Over1MB => size > MB
    case Over10MB => size > 10 * MB
    case Over100MB => size > 100 * MB
    case Under1MB => size < MB
  }

  /** `should_show_item`: `search` is the text of the search box, which
      the viewer lower-cases before comparing. Directories pass every size
      filter. */
  predicate ShouldShow(e: FileEntry, search: string, t: TypeFilter, f: SizeFilter) {
    var text := Lower(search);
    if text != [] && !Contains(Lower(e.name), text) then false
    else if !PassesType(e, t) then false
    else e.isDirectory || PassesSize(e.size, f)
  }

  /** A non-empty search hides every entry whose lower-cased name does not
      contain it, whatever the other filters say. */
  lemma SearchHides(e: FileEntry, search: string, t: TypeFilter, f: SizeFilter)
    requires search != [] && Find(Lower(e.name), Lower(search)) < 0
    ensures !ShouldShow(e, search, t, f)
  {
  }

  /** The size filter never changes whether a directory is shown. */
  lemma SizeIgnoredForDirectories(e: FileEntry, search: string, t: TypeFilter, f: SizeFilter)
    requires e.isDirectory
    ensures ShouldShow(e, search, t, f) == ShouldShow(e, search, t, AnySize)
  {
  }

  /** With no search text, the type and size tests decide alone. */
  lemma EmptySearchShows(e: FileEntry, t: TypeFilter, f: SizeFilter)
    ensures ShouldShow(e, "", t, f) <==> PassesType(e, t) && (e.isDirectory || PassesSize(e.size, f))
  {
  }

  /** An image name passes the image filter in any letter case. */
  lemma ImageExtensionAnyCase(e: FileEntry, search: string)
    requires IsSuffix(".jpg", Lower(e.name))
    ensures PassesType(e, Images)
  {
    assert IsSuffix(IMAGE_EXTS[0], Lower(e.name));
  }

  // Tree items and their paths

  /** A row of the tree: the text of its first column (the entry's name)
      and its children. */
  datatype Item = Item(text: string, children: seq<Item>)

  /** `get_item_path`: "/" and the texts from the top-level item down to
      the item itself, joined with "/". */
  function ItemPath(texts: seq<string>): (r: string)
    ensures |r| >= 1 && r[0] == '/'
  {
    "/" + Join(texts, "/")
  }

  lemma {:induction false} JoinAppend(parts: seq<string>, last: string, sep: string)
    requires |parts| >= 1
    ensures Join(parts + [last], sep) == Join(parts, sep) + sep + last
  {
    if |parts| == 1 {
      assert (parts + [last])[1..] == [last];
    } else {
      assert (parts + [last])[1..] == parts[1..] + [last];
      JoinAppend(parts[1..], last, sep);
    }
  }

  /** The path of a child item is its parent's path, "/" and its text: the
      same path the file-system walker gives the child entry. */
  lemma ItemPathChild(texts: seq<string>, name: string)
    requires |texts| >= 1
    ensures ItemPath(texts + [name]) == ItemPath(texts) + "/" + name
  {
    JoinAppend(texts, name, "/");
  }

  /** The names can be read back from a path when none contains "/". */
  lemma ItemPathSplits(texts: seq<string>)
    requires |texts| >= 1
    requires forall k :: 0 <= k < |texts| ==> '/' !in texts[k]
    ensures Split(ItemPath(texts)[1..], '/') == texts
  {
    assert ItemPath(texts)[1..] == Join(texts, "/");
    SplitJoin(texts, '/');
  }

  // Recursive visibility

  /** What `filter_item_recursive` did to an item: nothing, when no entry
      is known for its path, or set it hidden or shown after visiting every
      child. */
  datatype Visit = Untouched | Visited(hidden: bool, children: seq<Visit>)

  /** The filter settings of one pass. */
  datatype Filters = Filters(search: string, typeFilter: TypeFilter, sizeFilter: SizeFilter)

  predicate Matches(e: FileEntry, f: Filters) {
    ShouldShow(e, f.search, f.typeFilter, f.sizeFilter)
  }

  /** `filter_item_recursive` on the item whose texts from the top are
      `texts`: returns whether it is visible, and what was done to it and
      below it. */
  function FilterItem(entries: map<string, FileEntry>, f: Filters, texts: seq<string>, item: Item): (r: (bool, Visit))
    requires |texts| >= 1
    ensures r.1.Untouched? <==> ItemPath(texts) !in entries
    ensures r.1.Untouched? ==> !r.0
    ensures r.1.Visited? ==> r.1.hidden == !r.0 && |r.1.children| == |item.children|
    decreases item
  {
    var path := ItemPath(texts);
    if path !in entries then (false, Untouched)
    else
      var show := Matches(entries[path], f);
      var kids := seq(|item.children|, i requires 0 <= i < |item.children| =>
        FilterItem(entries, f, texts + [item.children[i].text], item.children[i]));
      var childVisible := exists i :: 0 <= i < |kids| && kids[i].0;
      var visible := show || childVisible;
      (visible, Visited(!visible, seq(|kids|, i requires 0 <= i < |kids| => kids[i].1)))
  }

  /** A way down the tree from an item, by child index, along which every
      item has a known entry and whose last item matches the filters. */
  predicate MatchingRoute(entries: map<string, FileEntry>, f: Filters, texts: seq<string>, item: Item, route: seq<nat>)
    requires |texts| >= 1
    decreases |route|
  {
    var path := ItemPath(texts);
    if path !in entries then false
    else if route == [] then Matches(entries[path], f)
    else (route[0] < |item.children|
      && MatchingRoute(entries, f, texts + [item.children[route[0]].text], item.children[route[0]], route[1..]))
  }

  /** A visible item has a matching route below it. */
  lemma {:induction false} VisibleHasRoute(entries: map<string, FileEntry>, f: Filters, texts: seq<string>, item: Item)
    requires |texts| >= 1 && FilterItem(entries, f, texts, item).0
    ensures exists route :: MatchingRoute(entries, f, texts, item, route)
    decreases item
  {
    var path := ItemPath(texts);
    if Matches(entries[path], f) {
      assert MatchingRoute(entries, f, texts, item, []);
    } else {
      var i :| 0 <= i < |item.children| && FilterItem(entries, f, texts + [item.children[i].text], item.children[i]).0;
      var child := item.children[i];
      VisibleHasRoute(entries, f, texts + [child.text], child);
      var route :| MatchingRoute(entries, f, texts + [child.text], child, route);
      assert ([i] + route)[1..] == route;
      assert MatchingRoute(entries, f, texts, item, [i] + route);
    }
  }

  /** The end of a matching route makes every item along it visible. */
  lemma {:induction false} RouteMakesVisible(entries: map<string, FileEntry>, f: Filters, texts: seq<string>, item: Item, route: seq<nat>)
    requires |texts| >= 1 && MatchingRoute(entries, f, texts, item, route)
    ensures FilterItem(entries, f, texts, item).0
    decreases route
  {
    if route == [] {
      MatchShows(entries, f, texts, item);
    } else {
      var i := route[0];
      var child := item.children[i];
      RouteMakesVisible(entries, f, texts + [child.text], child, route[1..]);
      VisibleChildShowsParent(entries, f, texts, item, i);
    }
  }

  /** An item is visible exactly when some matching item can be reached
      from it through items with known entries. */
  lemma VisibleIffRoute(entries: map<string, FileEntry>, f: Filters, texts: seq<string>, item: Item)
    requires |texts| >= 1
    ensures FilterItem(entries, f, texts, item).0 <==> exists route :: MatchingRoute(entries, f, texts, item, route)
  {
    if FilterItem(entries, f, texts, item).0 {
      VisibleHasRoute(entries, f, texts, item);
    }
    if exists route :: MatchingRoute(entries, f, texts, item, route) {
      var route :| MatchingRoute(entries, f, texts, item, route);
      RouteMakesVisible(entries, f, texts, item, route);
    }
  }

  /** A matching item with a known entry is shown. */
  lemma MatchShows(entries: map<string, FileEntry>, f: Filters, texts: seq<string>, item: Item)
    requires |texts| >= 1 && ItemPath(texts) in entries && Matches(entries[ItemPath(texts)], f)
    ensures FilterItem(entries, f, texts, item).0
  {
  }

  /** Every child of a visited item is itself visited or left untouched,
      never skipped: a visible child makes its parent visible. */
  lemma VisibleChildShowsParent(entries: map<string, FileEntry>, f: Filters, texts: seq<string>, item: Item, i: nat)
    requires |texts| >= 1 && i < |item.children| && ItemPath(texts) in entries
    requires FilterItem(entries, f, texts + [item.children[i].text], item.children[i]).0
    ensures FilterItem(entries, f, texts, item).0
  {
    var kids := seq(|item.children|, j requires 0 <= j < |item.children| =>
      FilterItem(entries, f, texts + [item.children[j].text], item.children[j]));
    assert kids[i].0;
  }

  /** `filter_tree`: every top-level item is filtered. */
  function FilterTree(entries: map<string, FileEntry>, f: Filters, top: seq<Item>): (r: seq<Visit>)
    ensures |r| == |top|
    ensures forall i :: 0 <= i < |top| ==> r[i] == FilterItem(entries, f, [top[i].text], top[i]).1
  {
    seq(|top|, i requires 0 <= i < |top| => FilterItem(entries, f, [top[i].text], top[i]).1)
  }

  /** A top-level item is left shown by `filter_tree` exactly when some
      matching item can be reached from it through items with known
      entries; otherwise it is hidden, or untouched when its own entry is
      unknown. */
  lemma FilterTreeShows(entries: map<string, FileEntry>, f: Filters, top: seq<Item>, i: nat)
    requires i < |top|
    ensures var v := FilterTree(entries, f, top)[i];
      (v.Visited? && !v.hidden) <==> exists route :: MatchingRoute(entries, f, [top[i].text], top[i], route)
  {
    VisibleIffRoute(entries, f, [top[i].text], top[i]);
  }

  // The hexadecimal preview

  const PREVIEW_BYTES: nat := 512
  const BYTES_PER_LINE: nat := 16
  const HEX_COLUMN_WIDTH: nat := 48

  /** The bytes of one line: `content[i:i+16]`. */
  function LineBytes(content: seq<Byte>, i: nat): (r: seq<Byte>)
    requires i < |content|
    ensures 1 <= |r| <= BYTES_PER_LINE && i + |r| <= |content|
    ensures forall j :: 0 <= j < |r| ==> r[j] == content[i + j]
  {
    content[i..if i + BYTES_PER_LINE <= |content| then i + BYTES_PER_LINE else |content|]
  }

  /** The printable character of a byte, or '.'. */
  function AsciiChar(b: Byte): (c: char)
    ensures 32 <= b < 127 ==> c as int == b
    ensures !(32 <= b < 127) ==> c == '.'
  {
    if 32 <= b < 127 then b as char else '.'
  }

  function AsciiColumn(bytes: seq<Byte>): (r: string)
    ensures |r| == |bytes|
    ensures forall j :: 0 <= j < |bytes| ==> r[j] == AsciiChar(bytes[j])
  {
    seq(|bytes|, j requires 0 <= j < |bytes| => AsciiChar(bytes[j]))
  }

  function HexPairs(bytes: seq<Byte>): (r: seq<string>)
    ensures |r| == |bytes|
    ensures forall j :: 0 <= j < |bytes| ==> r[j] == Hex(bytes[j], 2)
  {
    seq(|bytes|, j requires 0 <= j < |bytes| => Hex(bytes[j], 2))
  }

  /** `" ".join(f"{b:02x}" for b in bytes)`. */
  function HexColumn(bytes: seq<Byte>): string {
    Join(HexPairs(bytes), " ")
  }

  /** One line: offset, two spaces, the hex column padded to 48, two
      spaces, the ASCII column. */
  function HexLine(offset: nat, bytes: seq<Byte>): string {
    Hex(offset, 8) + "  " + LJust(HexColumn(bytes), HEX_COLUMN_WIDTH) + "  " + AsciiColumn(bytes)
  }

  /** The lines for start offsets `i`, `i + 16`, ... below `limit`. */
  function LinesFrom(content: seq<Byte>, i: nat, limit: nat, line: (nat, seq<Byte>) -> string): (r: seq<string>)
    requires limit <= |content|
    decreases limit - i
  {
    if i >= limit then []
    else [line(i, LineBytes(content, i))] + LinesFrom(content, i + BYTES_PER_LINE, limit, line)
  }

  function Min(a: int, b: int): int {
    if a <= b then a else b
  }

  /** The preview lines of `load_file_preview`. */
  function HexLines(content: seq<Byte>): seq<string> {
    LinesFrom(content, 0, Min(|content|, PREVIEW_BYTES), HexLine)
  }

  /** The preview text; nothing is shown for empty content. */
  function HexPreview(content: seq<Byte>): (r: Option<string>)
    ensures r.None? <==> content == []
  {
    if content == [] then None else Some(Join(HexLines(content), "\n"))
  }

  lemma {:induction false} LinesFromLength(content: seq<Byte>, i: nat, limit: nat, line: (nat, seq<Byte>) -> string)
    requires limit <= |content|
    ensures |LinesFrom(content, i, limit, line)| == (if i >= limit then 0 else (limit - i + BYTES_PER_LINE - 1) / BYTES_PER_LINE)
    decreases limit - i
  {
    if i < limit {
      LinesFromLength(content, i + BYTES_PER_LINE, limit, line);
    }
  }

  /** Line `k` of the lines from `i` is the line at offset `i + 16k`. */
  lemma {:induction false} LinesFromAt(content: seq<Byte>, i: nat, limit: nat, line: (nat, seq<Byte>) -> string, k: nat)
    requires limit <= |content| && k < |LinesFrom(content, i, limit, line)|
    ensures i + BYTES_PER_LINE * k < limit
    ensures LinesFrom(content, i, limit, line)[k] == line(i + BYTES_PER_LINE * k, LineBytes(content, i + BYTES_PER_LINE * k))
    decreases k
  {
    if k > 0 {
      LinesFromAt(content, i + BYTES_PER_LINE, limit, line, k - 1);
      assert i + BYTES_PER_LINE + BYTES_PER_LINE * (k - 1) == i + BYTES_PER_LINE * k;
    }
  }

  /** The preview covers at most the first 512 bytes in lines of 16, so at
      most 32 lines. */
  lemma HexLinesCount(content: seq<Byte>)
    ensures |HexLines(content)| == (Min(|content|, PREVIEW_BYTES) + BYTES_PER_LINE - 1) / BYTES_PER_LINE
    ensures |HexLines(content)| <= 32
  {
    LinesFromLength(content, 0, Min(|content|, PREVIEW_BYTES), HexLine);
  }

  /** Line `k` of the preview holds the bytes from offset 16k, which lies
      within the first 512 bytes. */
  lemma HexLineAt(content: seq<Byte>, k: nat)
    requires k < |HexLines(content)|
    ensures 16 * k < Min(|content|, PREVIEW_BYTES)
    ensures HexLines(content)[k] == HexLine(16 * k, LineBytes(content, 16 * k))
  {
    PreviewLineAt(content, HexLine, k);
  }

  /** Line `k` of the lines from offset 0 starts at offset 16k. */
  lemma PreviewLineAt(content: seq<Byte>, line: (nat, seq<Byte>) -> string, k: nat)
    requires k < |LinesFrom(content, 0, Min(|content|, PREVIEW_BYTES), line)|
    ensures 16 * k < Min(|content|, PREVIEW_BYTES)
    ensures LinesFrom(content, 0, Min(|content|, PREVIEW_BYTES), line)[k] == line(16 * k, LineBytes(content, 16 * k))
  {
    LinesFromAt(content, 0, Min(|content|, PREVIEW_BYTES), line, k);
    assert 0 + BYTES_PER_LINE * k == 16 * k;
  }

  /** Two hexadecimal digits per byte, one space between. */
  lemma {:induction false} JoinPairsLayout(pairs: seq<string>)
    requires |pairs| >= 1
    requires forall j :: 0 <= j < |pairs| ==> |pairs[j]| == 2
    ensures |Join(pairs, " ")| == 3 * |pairs| - 1
    ensures forall j :: 0 <= j < |pairs| ==> Join(pairs, " ")[3 * j..3 * j + 2] == pairs[j]
  {
    if |pairs| > 1 {
      JoinPairsLayout(pairs[1..]);
      var rest := Join(pairs[1..], " ");
      var s := Join(pairs, " ");
      assert s == pairs[0] + " " + rest;
      forall j | 0 <= j < |pairs| ensures s[3 * j..3 * j + 2] == pairs[j] {
        if j == 0 {
          assert s[0..2] == pairs[0];
        } else {
          assert s[3 * j..3 * j + 2] == rest[3 * (j - 1)..3 * (j - 1) + 2];
          assert pairs[j] == pairs[1..][j - 1];
        }
      }
    }
  }

  lemma HexPairWidth(b: Byte)
    ensures |Hex(b, 2)| == 2 && ParseHex(Hex(b, 2)) == b
  {
    HexWidth(b, 2);
    ParseHexRoundTrip(b, 2);
  }

  /** The hex column of a line is 3n - 1 characters, byte `j` at column 3j. */
  lemma HexColumnLayout(bytes: seq<Byte>)
    requires 1 <= |bytes| <= BYTES_PER_LINE
    ensures |HexColumn(bytes)| == 3 * |bytes| - 1 <= 47
    ensures forall j :: 0 <= j < |bytes| ==> ParseHex(HexColumn(bytes)[3 * j..3 * j + 2]) == bytes[j]
  {
    var pairs := HexPairs(bytes);
    forall j | 0 <= j < |pairs| ensures |pairs[j]| == 2 && ParseHex(pairs[j]) == bytes[j] {
      HexPairWidth(bytes[j]);
    }
    JoinPairsLayout(pairs);
  }

  /** Where the parts of a line sit: an 8-character offset, two spaces,
      a 48-character hex column, two spaces, the ASCII column. */
  lemma LineLayout(off: string, col: string, ascii: string)
    requires |off| == 8 && |col| == HEX_COLUMN_WIDTH
    ensures var line := off + "  " + col + "  " + ascii;
      && |line| == 60 + |ascii|
      && line[..8] == off && line[8..10] == "  " && line[10..58] == col
      && line[58..60] == "  " && line[60..] == ascii
  {
  }

  lemma HexOffset(offset: nat)
    requires offset < PREVIEW_BYTES
    ensures |Hex(offset, 8)| == 8 && ParseHex(Hex(offset, 8)) == offset
  {
    assert Pow16(8) == 4294967296 by {
      assert Pow16(4) == 65536;
    }
    HexWidth(offset, 8);
    ParseHexRoundTrip(offset, 8);
  }

  /** A preview line reads back: its first eight characters are the offset
      in hexadecimal, byte `j` sits at columns 10 + 3j and 11 + 3j, and
      the ASCII column starts at column 60. */
  lemma HexLineReadsBack(offset: nat, bytes: seq<Byte>)
    requires offset < PREVIEW_BYTES && 1 <= |bytes| <= BYTES_PER_LINE
    ensures var line := HexLine(offset, bytes);
      && |line| == 60 + |bytes|
      && ParseHex(line[..8]) == offset
      && line[8..10] == "  " && line[58..60] == "  "
      && (forall j :: 0 <= j < |bytes| ==> ParseHex(line[10 + 3 * j..12 + 3 * j]) == bytes[j])
      && line[60..] == AsciiColumn(bytes)
  {
    var hex := HexColumn(bytes);
    HexOffset(offset);
    HexColumnLayout(bytes);
    var col := LJust(hex, HEX_COLUMN_WIDTH);
    assert col[..|hex|] == hex;
    LineLayout(Hex(offset, 8), col, AsciiColumn(bytes));
    var line := HexLine(offset, bytes);
    forall j | 0 <= j < |bytes| ensures ParseHex(line[10 + 3 * j..12 + 3 * j]) == bytes[j] {
      assert line[10 + 3 * j..12 + 3 * j] == col[3 * j..3 * j + 2];
      assert col[3 * j..3 * j + 2] == hex[3 * j..3 * j + 2];
    }
  }

  // The exported file list

  /** A list of strings in strictly increasing order. */
  predicate StrictlySorted(s: seq<string>) {
    forall i, j :: 0 <= i < j < |s| ==> StrLe(s[i], s[j]) && s[i] != s[j]
  }

  lemma ConsStrictlySorted(h: string, t: seq<string>)
    requires StrictlySorted(t)
    requires forall j :: 0 <= j < |t| ==> StrLe(h, t[j]) && h != t[j]
    ensures StrictlySorted([h] + t)
  {
    var r := [h] + t;
    forall i, j | 0 <= i < j < |r| ensures StrLe(r[i], r[j]) && r[i] != r[j] {
      assert r[j] == t[j - 1];
      if i > 0 {
        assert r[i] == t[i - 1];
      }
    }
  }

  /** Inserts a new key into a strictly sorted list. */
  function InsertKey(k: string, s: seq<string>): (r: seq<string>)
    requires StrictlySorted(s) && k !in s
    ensures StrictlySorted(r)
    ensures |r| == |s| + 1
    ensures forall x :: x in r <==> x == k || x in s
  {
    if s == [] then [k]
    else if StrLe(k, s[0]) then
      assert forall j :: 0 <= j < |s| ==> StrLe(k, s[j]) && k != s[j] by {
        forall j | 0 <= j < |s| ensures StrLe(k, s[j]) && k != s[j] {
          assert s[j] in s;
          if j > 0 {
            StrLeTransitive(k, s[0], s[j]);
          }
        }
      }
      ConsStrictlySorted(k, s);
      [k] + s
    else
      StrLeTotal(k, s[0]);
      var rest := InsertKey(k, s[1..]);
      assert forall j :: 0 <= j < |rest| ==> StrLe(s[0], rest[j]) && s[0] != rest[j] by {
        forall j | 0 <= j < |rest| ensures StrLe(s[0], rest[j]) && s[0] != rest[j] {
          assert rest[j] in rest;
          if rest[j] != k {
            assert rest[j] in s[1..];
            var m :| 0 <= m < |s[1..]| && s[1..][m] == rest[j];
            assert s[0] == s[0] && rest[j] == s[m + 1];
          }
        }
      }
      ConsStrictlySorted(s[0], rest);
      [s[0]] + rest
  }

  /** The paths `export_file_list` writes, in the order it writes them:
      every known path once, in increasing order. */
  method ExportOrder(entries: map<string, FileEntry>) returns (paths: seq<string>)
    ensures StrictlySorted(paths)
    ensures forall p :: p in paths <==> p in entries
    ensures |paths| == |entries|
  {
    paths := [];
    var left := entries.Keys;
    while left != {}
      invariant StrictlySorted(paths)
      invariant forall p :: p in paths <==> p in entries && p !in left
      invariant left <= entries.Keys
      invariant |paths| + |left| == |entries|
      decreases |left|
    {
      var k :| k in left;
      paths := InsertKey(k, paths);
      left := left - {k};
    }
  }

  const EXPORT_HEADER: string := "Path,Name,Size,Type,Deleted,Created,Modified,Accessed,MFT Entry\n"

  function TimeCell(t: Option<Timestamp>, date: Timestamp -> string): string {
    if t.Some? then date(t.value) else ""
  }

  /** The nine cells of an exported row, in column order: the quoted path
      and name, the size, the kind, the deletion flag, the three rendered
      times and the MFT entry. An absent time or entry leaves its cell
      empty. */
  function ExportCells(e: FileEntry, date: Timestamp -> string): (c: seq<string>)
    ensures |c| == 9
    ensures c[0] == "\"" + e.path + "\"" && c[1] == "\"" + e.name + "\""
    ensures c[2] == IntToString(e.size)
    ensures c[3] in {"Directory", "File"} && (c[3] == "Directory" <==> e.isDirectory)
    ensures c[4] in {"Yes", "No"} && (c[4] == "Yes" <==> e.isDeleted)
    ensures e.createdTime.None? ==> c[5] == ""
    ensures e.createdTime.Some? ==> c[5] == date(e.createdTime.value)
    ensures e.modifiedTime.None? ==> c[6] == ""
    ensures e.modifiedTime.Some? ==> c[6] == date(e.modifiedTime.value)
    ensures e.accessedTime.None? ==> c[7] == ""
    ensures e.accessedTime.Some? ==> c[7] == date(e.accessedTime.value)
    ensures c[8] == "" <==> e.mftEntry.None?
    ensures e.mftEntry.Some? ==> c[8] == IntToString(e.mftEntry.value)
  {
    ["\"" + e.path + "\"", "\"" + e.name + "\"", IntToString(e.size),
     if e.isDirectory then "Directory" else "File", if e.isDeleted then "Yes" else "No",
     TimeCell(e.createdTime, date), TimeCell(e.modifiedTime, date), TimeCell(e.accessedTime, date),
     if e.mftEntry.Some? then IntToString(e.mftEntry.value) else ""]
  }

  /** One row of the exported list: the nine cells joined by commas, ended
      by a newline. */
  function ExportRow(e: FileEntry, date: Timestamp -> string): (r: string)
    ensures IsPrefix("\"" + e.path + "\",\"" + e.name + "\",", r)
    ensures r[|r| - 1] == '\n'
  {
    var c := ExportCells(e, date);
    assert c[1..][0] == c[1] && c[1..][1..] == c[2..];
    assert Join(c, ",") == c[0] + "," + (c[1] + "," + Join(c[2..], ","));
    Join(c, ",") + "\n"
  }

  /** A row reads back as its nine cells when split at commas, as long as
      neither the path nor the name holds a comma and the date rendering
      never writes one. */
  lemma ExportRowFields(e: FileEntry, date: Timestamp -> string)
    requires ',' !in e.path && ',' !in e.name
    requires forall u :: ',' !in date(u)
    ensures var r := ExportRow(e, date);
      Split(r[..|r| - 1], ',') == ExportCells(e, date)
  {
    var r := ExportRow(e, date);
    var c := ExportCells(e, date);
    assert r[..|r| - 1] == Join(c, ",");
    CellsHaveNoComma(e, date);
    SplitJoin(c, ',');
  }

  lemma CellsHaveNoComma(e: FileEntry, date: Timestamp -> string)
    requires ',' !in e.path && ',' !in e.name
    requires forall u :: ',' !in date(u)
    ensures forall k :: 0 <= k < 9 ==> ',' !in ExportCells(e, date)[k]
  {
    var c := ExportCells(e, date);
    NumberHasNoComma(e.size);
    if e.mftEntry.Some? {
      NumberHasNoComma(e.mftEntry.value);
    }
    TimeCellHasNoComma(e.createdTime, date);
    TimeCellHasNoComma(e.modifiedTime, date);
    TimeCellHasNoComma(e.accessedTime, date);
    assert c[5] == TimeCell(e.createdTime, date) && c[6] == TimeCell(e.modifiedTime, date)
      && c[7] == TimeCell(e.accessedTime, date);
  }

  lemma TimeCellHasNoComma(t: Option<Timestamp>, date: Timestamp -> string)
    requires forall u :: ',' !in date(u)
    ensures ',' !in TimeCell(t, date)
  {
    if t.Some? {
      var v := t.value;
      assert ',' !in date(v);
    }
  }

  /** A number written in decimal holds no comma. */
  lemma NumberHasNoComma(n: int)
    ensures ',' !in IntToString(n)
  {
    var s := IntToString(n);
    forall j | 0 <= j < |s|
      ensures s[j] != ','
    {
    }
  }

  /** The exported file: the header, then one row per path in order. */
  method ExportFileList(entries: map<string, FileEntry>, date: Timestamp -> string) returns (text: string, paths: seq<string>)
    ensures StrictlySorted(paths) && (forall p :: p in paths <==> p in entries)
    ensures IsPrefix(EXPORT_HEADER, text)
    ensures text == EXPORT_HEADER + Rows(entries, paths, date)
    ensures forall i :: 0 <= i < |paths| ==>
              text == EXPORT_HEADER + Rows(entries, paths[..i], date) + ExportRow(entries[paths[i]], date)
                      + Rows(entries, paths[i + 1..], date)
  {
    paths := ExportOrder(entries);
    text := EXPORT_HEADER + Rows(entries, paths, date);
    forall i | 0 <= i < |paths|
      ensures text == EXPORT_HEADER + Rows(entries, paths[..i], date) + ExportRow(entries[paths[i]], date)
                      + Rows(entries, paths[i + 1..], date)
    {
      ExportTextAt(EXPORT_HEADER, entries, paths, date, i);
    }
  }

  /** A header followed by the rows, split around path `i`. */
  lemma ExportTextAt(header: string, entries: map<string, FileEntry>, paths: seq<string>,
                     date: Timestamp -> string, i: nat)
    requires forall p :: p in paths ==> p in entries
    requires i < |paths|
    ensures header + Rows(entries, paths, date)
            == header + Rows(entries, paths[..i], date) + ExportRow(entries[paths[i]], date)
               + Rows(entries, paths[i + 1..], date)
  {
    RowsAt(entries, paths, date, i);
    assert paths[i] in paths;
    RowOfRecorded(entries, date, paths[i]);
    var x, y, z := Rows(entries, paths[..i], date), ExportRow(entries[paths[i]], date), Rows(entries, paths[i + 1..], date);
    AppendAssoc(header, x + y, z);
    AppendAssoc(header, x, y);
  }

  /** The texts of a run of items, one after the other. */
  function ConcatMap<T>(xs: seq<T>, f: T -> string): string {
    if xs == [] then "" else f(xs[0]) + ConcatMap(xs[1..], f)
  }

  /** The texts of two runs laid end to end are the texts of each. */
  lemma {:induction false} ConcatMapAppend<T>(a: seq<T>, b: seq<T>, f: T -> string)
    ensures ConcatMap(a + b, f) == ConcatMap(a, f) + ConcatMap(b, f)
  {
    if a == [] {
      assert a + b == b;
    } else {
      var head := f(a[0]);
      var x, y := ConcatMap(a[1..], f), ConcatMap(b, f);
      assert (a + b)[0] == a[0];
      assert (a + b)[1..] == a[1..] + b;
      assert ConcatMap(a + b, f) == head + ConcatMap(a[1..] + b, f);
      ConcatMapAppend(a[1..], b, f);
      assert head + (x + y) == (head + x) + y;
    }
  }

  /** The row of a recorded path. */
  function RowOf(entries: map<string, FileEntry>, date: Timestamp -> string): string -> string {
    p => if p in entries then ExportRow(entries[p], date) else ""
  }

  /** The rows of the given paths, one after the other. */
  function Rows(entries: map<string, FileEntry>, paths: seq<string>, date: Timestamp -> string): string {
    ConcatMap(paths, RowOf(entries, date))
  }

  /** The rows of two runs of paths laid end to end are the rows of each. */
  lemma RowsAppend(entries: map<string, FileEntry>, a: seq<string>, b: seq<string>, date: Timestamp -> string)
    ensures Rows(entries, a + b, date) == Rows(entries, a, date) + Rows(entries, b, date)
  {
    ConcatMapAppend(a, b, RowOf(entries, date));
  }

  /** The row written for a recorded path is that entry's row. */
  lemma RowOfRecorded(entries: map<string, FileEntry>, date: Timestamp -> string, p: string)
    requires p in entries
    ensures RowOf(entries, date)(p) == ExportRow(entries[p], date)
  {
  }

  /** The rows of a run of paths split around path `i`: its row sits
      between the rows of the paths before and after it. */
  lemma RowsAt(entries: map<string, FileEntry>, paths: seq<string>, date: Timestamp -> string, i: nat)
    requires i < |paths|
    ensures Rows(entries, paths, date)
            == Rows(entries, paths[..i], date) + RowOf(entries, date)(paths[i]) + Rows(entries, paths[i + 1..], date)
  {
    var f := RowOf(entries, date);
    assert paths == paths[..i] + paths[i..];
    ConcatMapAppend(paths[..i], paths[i..], f);
    assert paths[i..][0] == paths[i] && paths[i..][1..] == paths[i + 1..];
    assert ConcatMap(paths[i..], f) == f(paths[i]) + ConcatMap(paths[i + 1..], f);
  }
}
