/** The carving engine (core/forensics/file_carver.py): a chunked scan of a
    raw image for signature headers, a bounded forward read for each hit that
    stops just after the first footer, the 512-byte minimum, and the smart
    carver's JPEG/PDF structural checks.

    The image is a byte sequence; `img_info.read(offset, length)` returns
    `img[offset..min(offset + length, |img|)]`. The source carves each hit as
    soon as it is found; since carving only reads the image, the model first
    collects the hits of the whole scan and then carves them in the same
    order, which yields the same list of records. The scan, as in the source,
    neither consults the alternative-header table nor removes hits that are
    found a second time in the retained tail of the previous chunk. */
module Carver {
  import opened Wrappers
  import opened Bytes
  import opened Text
  import opened Signatures

  /** Bytes read per scan step and per carve step. */
  const CHUNK_SIZE: nat := 1024 * 1024
  /** Bytes of the previous buffer kept in front of the next chunk. */
  const TAIL_SIZE: nat := 1024
  /** Carves shorter than this are discarded. */
  const MIN_CARVE_SIZE: nat := 512

  function Min(a: int, b: int): int {
    if a <= b then a else b
  }

  /** `img_info.read(offset, length)`: short only at the end of the image. */
  function Read(img: seq<Byte>, offset: nat, length: nat): (r: seq<Byte>)
    ensures |r| <= length
    ensures offset + length <= |img| ==> |r| == length
  {
    if offset >= |img| then [] else img[offset..Min(offset + length, |img|)]
  }

  /** `b[-n:]`: the last `n` bytes, or all of `b` when it is shorter. */
  function Tail(b: seq<Byte>, n: nat): (r: seq<Byte>)
    ensures IsSuffix(r, b) && |r| == Min(|b|, n)
  {
    if |b| <= n then b else b[|b| - n..]
  }

  // Signature selection

  /** The dict comprehension over a non-empty `file_types` list: the tags
      that are keys of `table`, each once, at the place of its first
      mention. */
  function SelectFrom(types: seq<string>, table: seq<(string, FileSignature)>): (r: seq<(string, FileSignature)>)
    ensures forall i :: 0 <= i < |r| ==> r[i].0 in types && r[i] in table
    ensures forall i, j :: 0 <= i < j < |r| ==> r[i].0 != r[j].0
    ensures forall t :: t in types && t in Keys(table) ==> t in Keys(r)
  {
    if types == [] then []
    else
      var prev := SelectFrom(types[..|types| - 1], table);
      var t := types[|types| - 1];
      assert types == types[..|types| - 1] + [t];
      match Lookup(table, t)
      case Some(sig) =>
        if t in Keys(prev) then prev
        else
          assert Keys(prev + [(t, sig)]) == Keys(prev) + [t];
          prev + [(t, sig)]
      case None =>
        prev
  }

  /** The place of the first mention of `t` in `types`. */
  function FirstMention(types: seq<string>, t: string): (i: nat)
    requires t in types
    ensures i < |types| && types[i] == t
    ensures forall k :: 0 <= k < i ==> types[k] != t
  {
    if types[0] == t then 0 else 1 + FirstMention(types[1..], t)
  }

  /** Mentioning one more tag moves no first mention. */
  lemma FirstMentionExtend(types: seq<string>, x: string, t: string)
    requires t in types
    ensures FirstMention(types + [x], t) == FirstMention(types, t)
  {
    assert (types + [x])[FirstMention(types, t)] == t;
  }

  /** Every tag of `r` is mentioned in `types`, and the tags of `r` come in
      the order of their first mention. */
  predicate MentionOrdered(types: seq<string>, r: seq<(string, FileSignature)>) {
    && (forall i :: 0 <= i < |r| ==> r[i].0 in types)
    && (forall i, j :: 0 <= i < j < |r| ==> FirstMention(types, r[i].0) < FirstMention(types, r[j].0))
  }

  lemma OrderedExtend(types: seq<string>, x: string, r: seq<(string, FileSignature)>)
    requires MentionOrdered(types, r)
    ensures MentionOrdered(types + [x], r)
  {
    forall i | 0 <= i < |r|
      ensures FirstMention(types + [x], r[i].0) == FirstMention(types, r[i].0)
    {
      FirstMentionExtend(types, x, r[i].0);
    }
  }

  lemma OrderedAppendNew(types: seq<string>, e: (string, FileSignature), r: seq<(string, FileSignature)>)
    requires MentionOrdered(types, r) && e.0 !in types
    ensures MentionOrdered(types + [e.0], r + [e])
  {
    OrderedExtend(types, e.0, r);
    var all := types + [e.0];
    assert FirstMention(all, e.0) == |types| by {
      assert all[|types|] == e.0;
    }
    forall i | 0 <= i < |r|
      ensures FirstMention(all, r[i].0) < |types|
    {
      FirstMentionExtend(types, e.0, r[i].0);
    }
  }

  /** The selection is ordered by first mention: of two selected tags, the
      one named first in `types` comes first. */
  lemma {:induction false} SelectFromOrder(types: seq<string>, table: seq<(string, FileSignature)>)
    ensures MentionOrdered(types, SelectFrom(types, table))
  {
    if types != [] {
      var init, t := types[..|types| - 1], types[|types| - 1];
      assert types == init + [t];
      var prev := SelectFrom(init, table);
      SelectFromOrder(init, table);
      var r := SelectFrom(types, table);
      if r == prev {
        OrderedExtend(init, t, prev);
      } else {
        var sig := Lookup(table, t).value;
        assert r == prev + [(t, sig)];
        assert t in Keys(table) by {
          var i :| 0 <= i < |table| && table[i] == (t, sig);
          assert Keys(table)[i] == t;
        }
        OrderedAppendNew(init, (t, sig), prev);
      }
    }
  }

  /** Keys of a selection from a table are keys of the table. */
  lemma SelectedKeysInTable(r: seq<(string, FileSignature)>, table: seq<(string, FileSignature)>)
    requires forall i :: 0 <= i < |r| ==> r[i] in table
    ensures forall t :: t in Keys(r) ==> t in Keys(table)
  {
    forall t | t in Keys(r)
      ensures t in Keys(table)
    {
      var i :| 0 <= i < |r| && Keys(r)[i] == t;
      var j :| 0 <= j < |table| && table[j] == r[i];
      assert Keys(table)[j] == t;
    }
  }

  /** The signatures `carve_files` searches for: the whole registry when
      `file_types` is None or empty, otherwise the known tags it names. */
  function SelectSignatures(fileTypes: Option<seq<string>>): (r: seq<(string, FileSignature)>)
    ensures fileTypes.None? || fileTypes.value == [] ==> r == Registry
    ensures fileTypes.Some? && fileTypes.value != [] ==>
      && (forall i :: 0 <= i < |r| ==> r[i].0 in fileTypes.value)
      && (forall t :: t in fileTypes.value ==> (t in Keys(r) <==> t in Keys(Registry)))
    ensures forall i :: 0 <= i < |r| ==> r[i] in Registry
    ensures forall i, j :: 0 <= i < j < |r| ==> r[i].0 != r[j].0
    ensures forall i :: 0 <= i < |r| ==> r[i].1.extension == r[i].0
  {
    RegistryFacts();
    if fileTypes.None? || fileTypes.value == [] then
      Registry
    else
      var r := SelectFrom(fileTypes.value, Registry);
      SelectedKeysInTable(r, Registry);
      r
  }

  /** With a non-empty `file_types` list, the selected signatures come in
      the order their tags are first named. */
  lemma SelectSignaturesOrder(fileTypes: seq<string>)
    requires fileTypes != []
    ensures MentionOrdered(fileTypes, SelectSignatures(Some(fileTypes)))
  {
    SelectFromOrder(fileTypes, Registry);
  }

  // Scanning

  /** One header hit: the signature and its absolute offset in the image. */
  datatype Hit = Hit(signature: FileSignature, offset: nat)

  /** The inner `while True` loop: every position at or after `from` where
      `header` occurs in `buffer`, visited in increasing order, resuming one
      byte past each match. */
  function Positions(buffer: seq<Byte>, header: seq<Byte>, from: nat): (r: seq<nat>)
    requires header != []
    ensures forall k :: 0 <= k < |r| ==> from <= r[k] && OccursAt(header, buffer, r[k])
    ensures forall k, l :: 0 <= k < l < |r| ==> r[k] < r[l]
    ensures forall p :: from <= p && OccursAt(header, buffer, p) ==> p in r
    decreases |buffer| - from
  {
    var p := FindFrom(buffer, header, from);
    if p < 0 then [] else [p] + Positions(buffer, header, p + 1)
  }

  /** The hits of one signature in one buffer whose first byte sits at
      image offset `base`. */
  function SignatureHits(sig: FileSignature, positions: seq<nat>, base: nat): (r: seq<Hit>)
    ensures |r| == |positions|
    ensures forall k :: 0 <= k < |r| ==> r[k] == Hit(sig, base + positions[k])
  {
    seq(|positions|, k requires 0 <= k < |positions| => Hit(sig, base + positions[k]))
  }

  /** The signatures of a selection, in order. */
  function SigsOf(sigs: seq<(string, FileSignature)>): (r: seq<FileSignature>)
    ensures |r| == |sigs| && forall i :: 0 <= i < |sigs| ==> r[i] == sigs[i].1
  {
    seq(|sigs|, i requires 0 <= i < |sigs| => sigs[i].1)
  }

  /** `h` is a header occurrence in `buffer`, whose first byte is at image
      offset `base`. */
  predicate InBuffer(h: Hit, buffer: seq<Byte>, base: nat) {
    h.signature.header != [] && base <= h.offset && OccursAt(h.signature.header, buffer, h.offset - base)
  }

  lemma SignatureHitsSound(buffer: seq<Byte>, base: nat, sig: FileSignature)
    requires sig.header != []
    ensures forall h :: h in SignatureHits(sig, Positions(buffer, sig.header, 0), base) ==>
      InBuffer(h, buffer, base) && h.signature == sig
  {
    var ps := Positions(buffer, sig.header, 0);
    var hs := SignatureHits(sig, ps, base);
    forall h | h in hs
      ensures InBuffer(h, buffer, base) && h.signature == sig
    {
      var k :| 0 <= k < |hs| && hs[k] == h;
      assert OccursAt(sig.header, buffer, ps[k]);
    }
  }

  lemma SignatureHitsComplete(buffer: seq<Byte>, base: nat, sig: FileSignature)
    requires sig.header != []
    ensures forall p :: OccursAt(sig.header, buffer, p) ==>
      Hit(sig, base + p) in SignatureHits(sig, Positions(buffer, sig.header, 0), base)
  {
    var ps := Positions(buffer, sig.header, 0);
    var hs := SignatureHits(sig, ps, base);
    forall p | OccursAt(sig.header, buffer, p)
      ensures Hit(sig, base + p) in hs
    {
      assert p in ps;
      var k :| 0 <= k < |ps| && ps[k] == p;
      assert hs[k] == Hit(sig, base + p);
    }
  }

  /** Every hit in `r` is an occurrence in `buffer` of a header of `sigs`. */
  ghost predicate HitsSound(r: seq<Hit>, buffer: seq<Byte>, base: nat, sigs: seq<(string, FileSignature)>) {
    forall h :: h in r ==> InBuffer(h, buffer, base) && h.signature in SigsOf(sigs)
  }

  /** Every occurrence in `buffer` of a non-empty header of `sigs` is in `r`. */
  ghost predicate HitsComplete(r: seq<Hit>, buffer: seq<Byte>, base: nat, sigs: seq<(string, FileSignature)>) {
    forall i, p ::
      (0 <= i < |sigs| && sigs[i].1.header != [] && OccursAt(sigs[i].1.header, buffer, p))
      ==> Hit(sigs[i].1, base + p) in r
  }

  /** The hits of one signature in one buffer; none when it has no header. */
  function HeaderHits(buffer: seq<Byte>, base: nat, entry: (string, FileSignature)): (r: seq<Hit>)
    ensures HitsSound(r, buffer, base, [entry])
    ensures HitsComplete(r, buffer, base, [entry])
  {
    var sig := entry.1;
    if sig.header == [] then []
    else
      SignatureHitsSound(buffer, base, sig);
      SignatureHitsComplete(buffer, base, sig);
      assert SigsOf([entry]) == [sig];
      SignatureHits(sig, Positions(buffer, sig.header, 0), base)
  }

  /** Soundness and completeness carry over from the first signature and the
      rest to the whole selection. */
  lemma ConsHits(buffer: seq<Byte>, base: nat, sigs: seq<(string, FileSignature)>, here: seq<Hit>, rest: seq<Hit>)
    requires sigs != []
    requires HitsSound(here, buffer, base, [sigs[0]]) && HitsComplete(here, buffer, base, [sigs[0]])
    requires HitsSound(rest, buffer, base, sigs[1..]) && HitsComplete(rest, buffer, base, sigs[1..])
    ensures HitsSound(here + rest, buffer, base, sigs) && HitsComplete(here + rest, buffer, base, sigs)
  {
    assert SigsOf(sigs) == SigsOf([sigs[0]]) + SigsOf(sigs[1..]);
    forall i, p | 0 <= i < |sigs| && sigs[i].1.header != [] && OccursAt(sigs[i].1.header, buffer, p)
      ensures Hit(sigs[i].1, base + p) in here + rest
    {
      if i == 0 {
        assert [sigs[0]][0] == sigs[i];
      } else {
        assert sigs[1..][i - 1] == sigs[i];
      }
    }
  }

  /** The `for ext, sig in signatures.items()` loop over one buffer;
      signatures without a header are skipped. */
  function BufferHits(buffer: seq<Byte>, base: nat, sigs: seq<(string, FileSignature)>): (r: seq<Hit>)
    ensures HitsSound(r, buffer, base, sigs) && HitsComplete(r, buffer, base, sigs)
  {
    if sigs == [] then []
    else
      var here := HeaderHits(buffer, base, sigs[0]);
      var rest := BufferHits(buffer, base, sigs[1..]);
      ConsHits(buffer, base, sigs, here, rest);
      here + rest
  }

  /** The image offset of the first byte of the search buffer of the chunk
      at `offset`: up to `TAIL_SIZE` retained bytes precede the chunk. */
  function WindowStart(offset: nat): (r: nat)
    ensures r <= offset && offset - r <= TAIL_SIZE
    ensures offset >= TAIL_SIZE ==> r == offset - TAIL_SIZE
  {
    offset - Min(offset, TAIL_SIZE)
  }

  /** The end of the chunk at `offset`: short only at the end of the image. */
  function WindowEnd(img: seq<Byte>, offset: nat): (r: nat)
    requires offset < |img|
    ensures offset < r <= |img| && r <= offset + CHUNK_SIZE
    ensures offset + CHUNK_SIZE <= |img| ==> r == offset + CHUNK_SIZE
  {
    Min(offset + CHUNK_SIZE, |img|)
  }

  /** The search buffer of the chunk at `offset`, as a window of the image. */
  function Window(img: seq<Byte>, offset: nat): seq<Byte>
    requires offset < |img|
  {
    img[WindowStart(offset)..WindowEnd(img, offset)]
  }

  /** An occurrence inside a window of the image is an occurrence in the
      image, shifted by the window's start. */
  lemma OccursInWindow(img: seq<Byte>, lo: nat, hi: nat, pat: seq<Byte>, p: int)
    requires lo <= hi <= |img|
    ensures OccursAt(pat, img[lo..hi], p) <==> (0 <= p && p + |pat| <= hi - lo && OccursAt(pat, img, lo + p))
  {
    if 0 <= p && p + |pat| <= hi - lo {
      SliceOfSlice(img, lo, hi, p, p + |pat|);
    }
  }

  /** `h` is a header occurrence in the image itself. */
  predicate InImage(h: Hit, img: seq<Byte>) {
    h.signature.header != [] && OccursAt(h.signature.header, img, h.offset)
  }

  /** The hits of one chunk are header occurrences in the image. */
  lemma WindowHitsInImage(img: seq<Byte>, offset: nat, sigs: seq<(string, FileSignature)>)
    requires offset < |img|
    ensures forall h :: h in BufferHits(Window(img, offset), WindowStart(offset), sigs) ==> InImage(h, img)
  {
    var lo := WindowStart(offset);
    forall h | h in BufferHits(Window(img, offset), lo, sigs)
      ensures InImage(h, img)
    {
      assert InBuffer(h, Window(img, offset), lo);
      OccursInWindow(img, lo, WindowEnd(img, offset), h.signature.header, h.offset - lo);
    }
  }

  /** A header occurrence lying wholly inside the search buffer of the chunk
      at `offset` is hit by that chunk. */
  lemma HitInWindow(img: seq<Byte>, sigs: seq<(string, FileSignature)>, offset: nat, i: nat, o: nat)
    requires offset < |img|
    requires i < |sigs| && sigs[i].1.header != [] && OccursAt(sigs[i].1.header, img, o)
    requires WindowStart(offset) <= o && o + |sigs[i].1.header| <= WindowEnd(img, offset)
    ensures Hit(sigs[i].1, o) in BufferHits(Window(img, offset), WindowStart(offset), sigs)
  {
    var lo := WindowStart(offset);
    OccursInWindow(img, lo, WindowEnd(img, offset), sigs[i].1.header, o - lo);
    assert Hit(sigs[i].1, lo + (o - lo)) in BufferHits(Window(img, offset), lo, sigs);
  }

  /** The hits of the chunks from `offset` on, chunk by chunk. */
  function ScanFrom(img: seq<Byte>, sigs: seq<(string, FileSignature)>, offset: nat): (r: seq<Hit>)
    ensures forall h :: h in r ==> InImage(h, img) && h.signature in SigsOf(sigs)
    decreases |img| - offset
  {
    if offset >= |img| then []
    else
      WindowHitsInImage(img, offset, sigs);
      BufferHits(Window(img, offset), WindowStart(offset), sigs) + ScanFrom(img, sigs, offset + CHUNK_SIZE)
  }

  /** One step of the scan: the hits of the chunk at `offset`, then the rest. */
  lemma ScanFromStep(img: seq<Byte>, sigs: seq<(string, FileSignature)>, offset: nat)
    requires offset < |img|
    ensures ScanFrom(img, sigs, offset)
      == BufferHits(Window(img, offset), WindowStart(offset), sigs) + ScanFrom(img, sigs, offset + CHUNK_SIZE)
  {
  }

  /** The hits of a whole scan, in the order the source finds them. */
  function ScanHits(img: seq<Byte>, sigs: seq<(string, FileSignature)>): seq<Hit> {
    ScanFrom(img, sigs, 0)
  }

  /** The loop invariant of the chunk loop: the previous buffer ends where
      the chunk at `offset` starts and holds at least the bytes to keep. */
  predicate ScanInvariant(img: seq<Byte>, offset: nat, buffer: seq<Byte>) {
    offset < |img| ==> IsSuffix(buffer, img[..offset]) && |buffer| >= Min(offset, TAIL_SIZE)
  }

  /** The bytes retained from the previous buffer are the image bytes just
      before the chunk at `offset`. */
  lemma RetainedTail(img: seq<Byte>, offset: nat, buffer: seq<Byte>)
    requires offset < |img| && ScanInvariant(img, offset, buffer)
    ensures Tail(buffer, TAIL_SIZE) == img[WindowStart(offset)..offset]
  {
    var t := Tail(buffer, TAIL_SIZE);
    assert buffer == img[offset - |buffer|..offset] by {
      assert img[..offset][offset - |buffer|..] == img[offset - |buffer|..offset];
    }
    assert buffer[|buffer| - |t|..] == img[offset - |t|..offset];
  }

  /** The window of a chunk ends where the next chunk starts. */
  lemma WindowKeepsInvariant(img: seq<Byte>, offset: nat)
    requires offset < |img|
    ensures ScanInvariant(img, offset + CHUNK_SIZE, Window(img, offset))
  {
    var next := offset + CHUNK_SIZE;
    if next < |img| {
      assert img[..next][WindowStart(offset)..] == img[WindowStart(offset)..next];
    }
  }

  /** One pass of the chunk loop: `buffer[-1024:] + chunk` is the window of
      the chunk at `offset`, `len(buffer) - len(chunk)` is the number of
      retained bytes, and the invariant holds for the next chunk. */
  lemma ScanStep(img: seq<Byte>, offset: nat, buffer: seq<Byte>)
    requires offset < |img| && ScanInvariant(img, offset, buffer)
    ensures var chunk := Read(img, offset, CHUNK_SIZE);
      var buf := Tail(buffer, TAIL_SIZE) + chunk;
      && buf == Window(img, offset)
      && offset - (|buf| - |chunk|) == WindowStart(offset)
      && ScanInvariant(img, offset + CHUNK_SIZE, buf)
  {
    var chunk := Read(img, offset, CHUNK_SIZE);
    assert chunk == img[offset..WindowEnd(img, offset)];
    RetainedTail(img, offset, buffer);
    SplitSlice(img, WindowStart(offset), offset, WindowEnd(img, offset));
    WindowKeepsInvariant(img, offset);
  }

  /** A header occurrence that does not end before the current chunk is hit
      from that chunk on, also when it straddles a chunk boundary, provided
      the header is no longer than the retained tail. */
  lemma {:induction false} ScanFindsOccurrence(img: seq<Byte>, sigs: seq<(string, FileSignature)>,
                                              offset: nat, i: nat, o: nat)
    requires i < |sigs| && sigs[i].1.header != [] && |sigs[i].1.header| <= TAIL_SIZE
    requires OccursAt(sigs[i].1.header, img, o)
    requires WindowStart(offset) <= o && offset < o + |sigs[i].1.header|
    ensures Hit(sigs[i].1, o) in ScanFrom(img, sigs, offset)
    decreases |img| - offset
  {
    if o + |sigs[i].1.header| <= WindowEnd(img, offset) {
      HitInWindow(img, sigs, offset, i, o);
    } else {
      ScanFindsOccurrence(img, sigs, offset + CHUNK_SIZE, i, o);
    }
  }

  /** Every occurrence anywhere in the image of a selected header of at most
      `TAIL_SIZE` bytes is hit by the scan. */
  lemma ScanFindsEveryOccurrence(img: seq<Byte>, sigs: seq<(string, FileSignature)>, i: nat, o: nat)
    requires i < |sigs| && sigs[i].1.header != [] && |sigs[i].1.header| <= TAIL_SIZE
    requires OccursAt(sigs[i].1.header, img, o)
    ensures Hit(sigs[i].1, o) in ScanHits(img, sigs)
  {
    ScanFindsOccurrence(img, sigs, 0, i, o);
  }

  /** An element of two consecutive parts of a sequence occurs in it twice. */
  lemma TwiceInConcat<T>(r: seq<T>, here: seq<T>, there: seq<T>, rest: seq<T>, x: T)
    requires r == here + (there + rest) && x in here && x in there
    ensures exists a, b :: 0 <= a < b < |r| && r[a] == x && r[b] == x
  {
    var a :| 0 <= a < |here| && here[a] == x;
    var b :| 0 <= b < |there| && there[b] == x;
    assert r[a] == x && r[|here| + b] == x;
  }

  /** As written, the scan reports a header lying wholly inside the bytes
      retained from one chunk twice: once in that chunk's buffer and once
      more in the next buffer, which starts with those bytes. */
  lemma RetainedTailHitTwice(img: seq<Byte>, sigs: seq<(string, FileSignature)>, offset: nat, i: nat, o: nat)
    requires offset + CHUNK_SIZE < |img|
    requires i < |sigs| && sigs[i].1.header != []
    requires OccursAt(sigs[i].1.header, img, o)
    requires offset + CHUNK_SIZE - TAIL_SIZE <= o && o + |sigs[i].1.header| <= offset + CHUNK_SIZE
    ensures var r := ScanFrom(img, sigs, offset);
      exists a, b :: 0 <= a < b < |r| && r[a] == Hit(sigs[i].1, o) && r[b] == Hit(sigs[i].1, o)
  {
    var next := offset + CHUNK_SIZE;
    HitInWindow(img, sigs, offset, i, o);
    HitInWindow(img, sigs, next, i, o);
    ScanFromStep(img, sigs, offset);
    ScanFromStep(img, sigs, next);
    TwiceInConcat(ScanFrom(img, sigs, offset),
                  BufferHits(Window(img, offset), WindowStart(offset), sigs),
                  BufferHits(Window(img, next), WindowStart(next), sigs),
                  ScanFrom(img, sigs, next + CHUNK_SIZE), Hit(sigs[i].1, o));
  }

  /** Reading from `start` up to `current` and then `n` more bytes reads
      from `start` up to `current + n`. */
  lemma ReadExtends(img: seq<Byte>, start: nat, current: nat, n: nat)
    requires start <= current < |img|
    ensures Read(img, start, current - start) + Read(img, current, n) == Read(img, start, current + n - start)
  {
    var hi := Min(current + n, |img|);
    assert Read(img, start, current - start) == img[start..current];
    assert Read(img, current, n) == img[current..hi];
    assert Read(img, start, current + n - start) == img[start..hi];
    SplitSlice(img, start, current, hi);
  }

  /** A shorter read from the same place is a prefix of a longer one. */
  lemma ReadPrefix(img: seq<Byte>, start: nat, a: nat, b: nat)
    requires a <= b
    ensures IsPrefix(Read(img, start, a), Read(img, start, b))
  {
    if start < |img| {
      assert Read(img, start, b)[..|Read(img, start, a)|] == Read(img, start, a);
    }
  }

  /** A read that stops at the end of the image or at the cap is the whole
      capped read. */
  lemma ReadWhole(img: seq<Byte>, start: nat, len: nat, cap: nat)
    requires len <= cap && (start + len >= |img| || len == cap)
    ensures Read(img, start, len) == Read(img, start, cap)
  {
  }

  // Carving one file

  /** The bytes a carve reads and whether it stopped at a footer. */
  datatype Extent = Extent(data: seq<Byte>, footerFound: bool)

  /** `max(n, 0)`: a non-positive cap reads nothing. */
  function Cap(n: int): nat {
    if n <= 0 then 0 else n
  }

  /** The extent `_carve_single_file` reads, in closed form: up to the cap,
      and when a non-empty footer occurs in that stretch, up to the end of
      its first occurrence. */
  function CarveExtent(img: seq<Byte>, sig: FileSignature, start: nat): (e: Extent)
    ensures |e.data| <= Cap(sig.maxSize)
  {
    var full := Read(img, start, Cap(sig.maxSize));
    if sig.footer == [] then Extent(full, false)
    else
      var p := Find(full, sig.footer);
      if p < 0 then Extent(full, false)
      else Extent(full[..p + |sig.footer|], true)
  }

  /** A carve's data is a prefix of the image from the hit on, within the
      cap. With a footer found, the data ends with the footer and holds no
      earlier occurrence of it; without, the data is the whole capped
      stretch and holds no occurrence of a non-empty footer. */
  lemma CarveExtentSpec(img: seq<Byte>, sig: FileSignature, start: nat)
    ensures var e := CarveExtent(img, sig, start);
      && IsPrefix(e.data, Read(img, start, Cap(sig.maxSize)))
      && |e.data| <= Cap(sig.maxSize)
      && (e.footerFound ==>
            sig.footer != [] && IsSuffix(sig.footer, e.data) && Find(e.data, sig.footer) == |e.data| - |sig.footer|)
      && (!e.footerFound ==>
            e.data == Read(img, start, Cap(sig.maxSize))
            && (sig.footer == [] || forall p :: !OccursAt(sig.footer, e.data, p)))
  {
    var full := Read(img, start, Cap(sig.maxSize));
    if sig.footer != [] {
      var p := Find(full, sig.footer);
      if p >= 0 {
        FindInPrefix(full[..p + |sig.footer|], full, sig.footer);
      }
    }
  }

  /** Data read so far that already holds the footer decides the extent:
      the footer's first occurrence there is its first in the whole read. */
  lemma CarveStopsAtFooter(img: seq<Byte>, sig: FileSignature, start: nat, len: nat, data: seq<Byte>)
    requires len <= Cap(sig.maxSize) && data == Read(img, start, len)
    requires sig.footer != [] && Find(data, sig.footer) >= 0
    ensures CarveExtent(img, sig, start) == Extent(data[..Find(data, sig.footer) + |sig.footer|], true)
  {
    var full := Read(img, start, Cap(sig.maxSize));
    ReadPrefix(img, start, len, Cap(sig.maxSize));
    var p := Find(data, sig.footer);
    FindInExtension(data, full, sig.footer);
    assert full[..p + |sig.footer|] == data[..p + |sig.footer|];
  }

  /** A whole capped read without the footer is the extent. */
  lemma CarveReadsAll(img: seq<Byte>, sig: FileSignature, start: nat, data: seq<Byte>)
    requires data == Read(img, start, Cap(sig.maxSize))
    requires sig.footer != [] ==> Find(data, sig.footer) == -1
    ensures CarveExtent(img, sig, start) == Extent(data, false)
  {
  }

  /** One pass of the read loop: the next chunk continues the data read so
      far, without passing the cap. */
  lemma CarveReadStep(img: seq<Byte>, sig: FileSignature, start: nat, current: nat, data: seq<Byte>, n: int)
    requires start <= current < |img| && current - start <= Cap(sig.maxSize)
    requires |data| == current - start
    requires |data| < sig.maxSize && n == Min(CHUNK_SIZE, sig.maxSize - |data|)
    ensures 0 < n && current + n - start <= Cap(sig.maxSize)
  {
  }

  /** When the read loop ends without a footer, it has read the whole
      capped stretch. */
  lemma CarveReadExit(img: seq<Byte>, sig: FileSignature, start: nat, current: nat, data: seq<Byte>)
    requires start <= current && current - start <= Cap(sig.maxSize)
    requires data == Read(img, start, current - start)
    requires current <= |img| ==> |data| == current - start
    requires !(current < |img| && |data| < sig.maxSize)
    requires sig.footer != [] ==> Find(data, sig.footer) == -1
    ensures CarveExtent(img, sig, start) == Extent(data, false)
  {
    ReadWhole(img, start, current - start, Cap(sig.maxSize));
    CarveReadsAll(img, sig, start, data);
  }

  /** The read loop of `_carve_single_file`: chunks of at most 1 MiB and at
      most the remaining cap, appended to the data, which is searched for the
      footer after every chunk and cut just after its first occurrence. A
      chunk is never empty while `current` is inside the image, so the
      loop's `break` on an empty chunk does not arise. */
  method CarveRead(img: seq<Byte>, sig: FileSignature, start: nat) returns (data: seq<Byte>, found: bool)
    ensures Extent(data, found) == CarveExtent(img, sig, start)
  {
    data := [];
    found := false;
    var current: nat := start;
    while current < |img| && |data| < sig.maxSize
      invariant start <= current && current - start <= Cap(sig.maxSize)
      invariant data == Read(img, start, current - start)
      invariant current <= |img| ==> |data| == current - start
      invariant sig.footer != [] ==> Find(data, sig.footer) == -1
      decreases |img| - current
    {
      var n: nat := Min(CHUNK_SIZE, sig.maxSize - |data|);
      var chunk := Read(img, current, n);
      CarveReadStep(img, sig, start, current, data, n);
      ReadExtends(img, start, current, n);
      data := data + chunk;
      if sig.footer != [] {
        var p := Find(data, sig.footer);
        if p != -1 {
          CarveStopsAtFooter(img, sig, start, current + n - start, data);
          data := data[..p + |sig.footer|];
          found := true;
          return;
        }
      }
      current := current + n;
    }
    CarveReadExit(img, sig, start, current, data);
  }

  // Carved records

  /** What the environment supplies to a carve: the output directory, the
      two clock readings (the `%Y%m%d_%H%M%S` stamp of the file name and the
      ISO stamp of the record), the MD5 hex digest, and whether a file can be
      written at a path. */
  datatype CarveEnv = CarveEnv(
    outputDir: string,
    fileStamp: string,
    isoStamp: string,
    md5: seq<Byte> -> string,
    writable: string -> bool)

  /** The dict `_carve_single_file` returns. */
  datatype CarveRecord = CarveRecord(
    filename: string,
    path: string,
    fileType: string,
    size: nat,
    offset: nat,
    footerFound: bool,
    hashMd5: string,
    timestamp: string)

  /** A carve's record together with the bytes written to its path. */
  datatype Carved = Carved(record: CarveRecord, content: seq<Byte>)

  /** `carved_{timestamp}_{md5(data[:1024])[:8]}.{extension}`: the clock
      stamp, then the first eight digits of the MD5 of the first 1024 bytes,
      then the extension. */
  function CarveName(env: CarveEnv, data: seq<Byte>, extension: string): (r: string)
    ensures IsPrefix("carved_" + env.fileStamp + "_", r)
    ensures IsSuffix("." + extension, r)
    ensures var head, tag := "carved_" + env.fileStamp + "_", Take(env.md5(Take(data, 1024)), 8);
      && |r| == |head| + |tag| + 1 + |extension|
      && r[|head|..|head| + |tag|] == tag
      && r[|head| + |tag|] == '.'
  {
    var head, tag := "carved_" + env.fileStamp + "_", Take(env.md5(Take(data, 1024)), 8);
    var name := head + tag + "." + extension;
    assert name == head + (tag + "." + extension);
    assert name == (head + tag) + ("." + extension);
    assert (head + tag + ".")[|head| + |tag|] == '.';
    name
  }

  /** A hexdigest as `hashlib` gives it: 32 lower-case hexadecimal digits. */
  predicate IsHexDigest(s: string) {
    |s| == 32 && forall i :: 0 <= i < |s| ==> '0' <= s[i] <= '9' || 'a' <= s[i] <= 'f'
  }

  /** With a genuine MD5 hexdigest, a carved file name is `carved_`, the
      stamp, `_`, eight lower-case hexadecimal digits, `.` and the
      extension. */
  lemma CarveNameTag(env: CarveEnv, data: seq<Byte>, extension: string)
    requires IsHexDigest(env.md5(Take(data, 1024)))
    ensures var r, head := CarveName(env, data, extension), "carved_" + env.fileStamp + "_";
      && |r| == |head| + 9 + |extension|
      && (forall i :: |head| <= i < |head| + 8 ==> '0' <= r[i] <= '9' || 'a' <= r[i] <= 'f')
      && r[|head|..|head| + 8] == env.md5(Take(data, 1024))[..8]
      && r[|head| + 8] == '.'
  {
    var r, head := CarveName(env, data, extension), "carved_" + env.fileStamp + "_";
    var digest := env.md5(Take(data, 1024));
    assert Take(digest, 8) == digest[..8];
    forall i | |head| <= i < |head| + 8
      ensures '0' <= r[i] <= '9' || 'a' <= r[i] <= 'f'
    {
      assert r[i] == r[|head|..|head| + 8][i - |head|] == digest[i - |head|];
    }
  }

  /** `BasicFileCarver._carve_single_file`: the extent, then the 512-byte
      minimum, then the file write (a failing write is caught and yields
      None like every other error). */
  function CarveSingle(img: seq<Byte>, sig: FileSignature, start: nat, env: CarveEnv): (r: Option<Carved>)
    ensures var e := CarveExtent(img, sig, start);
      r.Some? ==>
        && r.value.content == e.data
        && r.value.record.size == |e.data| >= MIN_CARVE_SIZE
        && r.value.record.offset == start
        && r.value.record.fileType == sig.extension
        && r.value.record.footerFound == e.footerFound
        && r.value.record.hashMd5 == env.md5(e.data)
        && r.value.record.timestamp == env.isoStamp
        && r.value.record.path == PathJoin(env.outputDir, r.value.record.filename)
        && r.value.record.filename == CarveName(env, e.data, sig.extension)
        && IsSuffix("." + sig.extension, r.value.record.filename)
    ensures var e := CarveExtent(img, sig, start);
      r.None? <==> |e.data| < MIN_CARVE_SIZE
                   || !env.writable(PathJoin(env.outputDir, CarveName(env, e.data, sig.extension)))
  {
    var e := CarveExtent(img, sig, start);
    if |e.data| < MIN_CARVE_SIZE then None
    else
      var name := CarveName(env, e.data, sig.extension);
      var path := PathJoin(env.outputDir, name);
      if !env.writable(path) then None
      else
        Some(Carved(CarveRecord(name, path, sig.extension, |e.data|, start, e.footerFound,
                                env.md5(e.data), env.isoStamp), e.data))
  }

  /** `_validate_jpeg`: the file starts with FF D8 and ends with FF D9. */
  predicate ValidJpeg(content: seq<Byte>) {
    IsPrefix([0xFF, 0xD8], content) && IsSuffix([0xFF, 0xD9], content)
  }

  /** `_validate_pdf`: the first 1024 bytes of the file start with `%PDF`. */
  predicate ValidPdf(content: seq<Byte>) {
    IsPrefix([0x25, 0x50, 0x44, 0x46], Take(content, 1024))
  }

  /** The structural check the smart carver applies to a type. */
  predicate PassesCheck(extension: string, content: seq<Byte>) {
    if extension in ["jpg", "jpeg"] then ValidJpeg(content)
    else if extension == "pdf" then ValidPdf(content)
    else true
  }

  /** `SmartFileCarver._carve_single_file`: the basic carve, dropped (and its
      file removed) when the check for its type fails. */
  function SmartCarveSingle(img: seq<Byte>, sig: FileSignature, start: nat, env: CarveEnv): (r: Option<Carved>)
    ensures r.Some? ==> r == CarveSingle(img, sig, start, env) && PassesCheck(sig.extension, r.value.content)
    ensures CarveSingle(img, sig, start, env).Some? && PassesCheck(sig.extension, CarveSingle(img, sig, start, env).value.content)
            ==> r.Some?
  {
    match CarveSingle(img, sig, start, env)
    case None => None
    case Some(c) =>
      if sig.extension in ["jpg", "jpeg"] then
        if !ValidJpeg(c.content) then None else Some(c)
      else if sig.extension == "pdf" then
        if !ValidPdf(c.content) then None else Some(c)
      else Some(c)
  }

  /** The smart carver lets every type other than JPEG and PDF through. */
  lemma SmartPassesOtherTypes(img: seq<Byte>, sig: FileSignature, start: nat, env: CarveEnv)
    requires sig.extension !in ["jpg", "jpeg", "pdf"]
    ensures SmartCarveSingle(img, sig, start, env) == CarveSingle(img, sig, start, env)
  {
  }

  /** A carve read from a header occurrence starts with that header once it
      is at least as long. */
  lemma CarveStartsWithHeader(img: seq<Byte>, sig: FileSignature, start: nat)
    requires sig.header != [] && OccursAt(sig.header, img, start)
    requires |CarveExtent(img, sig, start).data| >= |sig.header|
    ensures IsPrefix(sig.header, CarveExtent(img, sig, start).data)
  {
    var d := CarveExtent(img, sig, start).data;
    var full := Read(img, start, Cap(sig.maxSize));
    CarveExtentSpec(img, sig, start);
    assert d[..|sig.header|] == full[..|sig.header|];
    assert full[..|sig.header|] == img[start..start + |sig.header|];
  }

  /** A JPEG carved from a header hit that stopped at its footer always
      passes the smart carver's JPEG check. */
  lemma JpegWithFooterIsValid(img: seq<Byte>, start: nat, env: CarveEnv)
    requires OccursAt(Registry[0].1.header, img, start)
    requires CarveSingle(img, Registry[0].1, start, env).Some?
    requires CarveSingle(img, Registry[0].1, start, env).value.record.footerFound
    ensures SmartCarveSingle(img, Registry[0].1, start, env) == CarveSingle(img, Registry[0].1, start, env)
  {
    var sig := Registry[0].1;
    var d := CarveExtent(img, sig, start).data;
    CarveStartsWithHeader(img, sig, start);
    CarveExtentSpec(img, sig, start);
    assert d[..2] == sig.header[..2];
  }

  /** A PDF carved from a header hit always passes the smart carver's PDF
      check: the header it was found by is the one the check looks for. */
  lemma PdfFromHitIsValid(img: seq<Byte>, start: nat, env: CarveEnv)
    requires OccursAt(Registry[3].1.header, img, start)
    ensures SmartCarveSingle(img, Registry[3].1, start, env) == CarveSingle(img, Registry[3].1, start, env)
  {
    var sig := Registry[3].1;
    if CarveSingle(img, sig, start, env).Some? {
      var d := CarveExtent(img, sig, start).data;
      CarveStartsWithHeader(img, sig, start);
      assert Take(d, 1024)[..4] == d[..4];
    }
  }

  // The whole carve

  /** One hit carved by the basic or the smart carver. */
  function CarveHit(img: seq<Byte>, h: Hit, env: CarveEnv, smart: bool): Option<Carved> {
    if smart then SmartCarveSingle(img, h.signature, h.offset, env)
    else CarveSingle(img, h.signature, h.offset, env)
  }

  /** The carver of an image, as a function of the hit. */
  function CarverFor(img: seq<Byte>, env: CarveEnv, smart: bool): Hit -> Option<Carved> {
    h => CarveHit(img, h, env, smart)
  }

  /** Record `rec` comes from hit `h`: it starts at the hit's offset, has
      the hit's type, and is at least `MIN_CARVE_SIZE` bytes long. */
  predicate CarvedFrom(rec: CarveRecord, h: Hit) {
    rec.size >= MIN_CARVE_SIZE && rec.offset == h.offset && rec.fileType == h.signature.extension
  }

  /** Whatever either carver returns for a hit comes from that hit. */
  lemma CarverSound(img: seq<Byte>, env: CarveEnv, smart: bool, h: Hit)
    ensures CarverFor(img, env, smart)(h).Some? ==> CarvedFrom(CarverFor(img, env, smart)(h).value.record, h)
  {
  }

  /** The record a hit contributes: none, or the one it carves to. */
  function HitRecords(h: Hit, carve: Hit -> Option<Carved>): (r: seq<CarveRecord>)
    ensures |r| <= 1
    ensures carve(h).Some? <==> |r| == 1
    ensures |r| == 1 ==> r[0] == carve(h).value.record
  {
    match carve(h)
    case Some(c) => [c.record]
    case None => []
  }

  /** The records of the hits that carve successfully, in hit order. */
  function CarveAll(hits: seq<Hit>, carve: Hit -> Option<Carved>): (r: seq<CarveRecord>)
    ensures |r| <= |hits|
  {
    if hits == [] then []
    else HitRecords(hits[0], carve) + CarveAll(hits[1..], carve)
  }

  /** Every record of a carve comes from one of the hits, when every record
      the carver returns comes from its hit. */
  lemma {:induction false} CarveAllFromHits(hits: seq<Hit>, carve: Hit -> Option<Carved>, k: nat)
    returns (j: nat)
    requires forall h :: carve(h).Some? ==> CarvedFrom(carve(h).value.record, h)
    requires k < |CarveAll(hits, carve)|
    ensures j < |hits| && CarvedFrom(CarveAll(hits, carve)[k], hits[j])
    decreases |hits|
  {
    var here := HitRecords(hits[0], carve);
    var rest := CarveAll(hits[1..], carve);
    assert CarveAll(hits, carve) == here + rest;
    if k < |here| {
      j := 0;
    } else {
      var j' := CarveAllFromHits(hits[1..], carve, k - |here|);
      assert hits[1..][j'] == hits[j' + 1];
      j := j' + 1;
    }
  }

  /** Carving two runs of hits one after the other carves their
      concatenation. */
  lemma {:induction false} CarveAllAppend(a: seq<Hit>, b: seq<Hit>, carve: Hit -> Option<Carved>)
    ensures CarveAll(a + b, carve) == CarveAll(a, carve) + CarveAll(b, carve)
    decreases |a|
  {
    if a == [] {
      assert a + b == b;
    } else {
      assert (a + b)[0] == a[0] && (a + b)[1..] == a[1..] + b;
      CarveAllAppend(a[1..], b, carve);
      AppendAssoc(HitRecords(a[0], carve), CarveAll(a[1..], carve), CarveAll(b, carve));
    }
  }

  /** Every hit the carver accepts contributes its record, between the
      records of the hits before it and those after it. */
  lemma CarveAllAt(hits: seq<Hit>, carve: Hit -> Option<Carved>, j: nat)
    requires j < |hits|
    ensures CarveAll(hits, carve) == CarveAll(hits[..j], carve) + HitRecords(hits[j], carve) + CarveAll(hits[j + 1..], carve)
    ensures carve(hits[j]).Some? ==> carve(hits[j]).value.record in CarveAll(hits, carve)
  {
    assert hits == hits[..j] + ([hits[j]] + hits[j + 1..]);
    CarveAllAppend(hits[..j], [hits[j]] + hits[j + 1..], carve);
    assert ([hits[j]] + hits[j + 1..])[1..] == hits[j + 1..];
    var x, y, z := CarveAll(hits[..j], carve), HitRecords(hits[j], carve), CarveAll(hits[j + 1..], carve);
    assert x + (y + z) == x + y + z;
    if carve(hits[j]).Some? {
      assert (x + y + z)[|x|] == y[0];
    }
  }

  /** Carving one more hit appends its record, if any. */
  lemma CarveOneMore(hits: seq<Hit>, k: nat, carve: Hit -> Option<Carved>)
    requires k < |hits|
    ensures CarveAll(hits[..k + 1], carve) == CarveAll(hits[..k], carve) + HitRecords(hits[k], carve)
  {
    assert hits[..k + 1] == hits[..k] + [hits[k]];
    CarveAllAppend(hits[..k], [hits[k]], carve);
    assert CarveAll([hits[k]], carve) == HitRecords(hits[k], carve) + CarveAll([], carve);
  }

  /** `carve_files` in closed form: nothing without a known signature or an
      image that opens, otherwise the carve of every scan hit in order.
      `image` is None when `open_image` fails. */
  function CarvedFiles(image: Option<seq<Byte>>, fileTypes: Option<seq<string>>, env: CarveEnv, smart: bool)
    : (r: seq<CarveRecord>)
    ensures SelectSignatures(fileTypes) == [] || image.None? ==> r == []
  {
    var sigs := SelectSignatures(fileTypes);
    if sigs == [] || image.None? then []
    else CarveAll(ScanHits(image.value, sigs), CarverFor(image.value, env, smart))
  }

  /** Nothing a scan finds is lost: every hit of the selected signatures
      that carves successfully has its record among the carved files. */
  lemma CarvedFilesComplete(img: seq<Byte>, fileTypes: Option<seq<string>>, env: CarveEnv, smart: bool, j: nat)
    requires j < |ScanHits(img, SelectSignatures(fileTypes))|
    ensures var h := ScanHits(img, SelectSignatures(fileTypes))[j];
      CarveHit(img, h, env, smart).Some? ==>
        CarveHit(img, h, env, smart).value.record in CarvedFiles(Some(img), fileTypes, env, smart)
  {
    CarvedFilesOfImage(img, fileTypes, env, smart);
    CarveAllAt(ScanHits(img, SelectSignatures(fileTypes)), CarverFor(img, env, smart), j);
  }

  /** On an image that opens, the carved files are the carve of every scan
      hit, also when no signature is selected: then nothing is found. */
  lemma CarvedFilesOfImage(img: seq<Byte>, fileTypes: Option<seq<string>>, env: CarveEnv, smart: bool)
    ensures CarvedFiles(Some(img), fileTypes, env, smart)
         == CarveAll(ScanHits(img, SelectSignatures(fileTypes)), CarverFor(img, env, smart))
  {
    var hits := ScanHits(img, SelectSignatures(fileTypes));
    if hits != [] {
      assert hits[0] in hits;
    }
  }

  /** Every carved record starts at an occurrence, in the image, of the
      header of a selected signature of its own type, and is at least
      `MIN_CARVE_SIZE` bytes long. */
  lemma CarvedAtHeaders(img: seq<Byte>, fileTypes: Option<seq<string>>, env: CarveEnv, smart: bool, k: nat)
    requires k < |CarvedFiles(Some(img), fileTypes, env, smart)|
    ensures var rec := CarvedFiles(Some(img), fileTypes, env, smart)[k];
      && rec.size >= MIN_CARVE_SIZE
      && exists i :: 0 <= i < |SelectSignatures(fileTypes)|
           && SelectSignatures(fileTypes)[i].0 == rec.fileType
           && OccursAt(SelectSignatures(fileTypes)[i].1.header, img, rec.offset)
  {
    var sigs := SelectSignatures(fileTypes);
    var carve := CarverFor(img, env, smart);
    forall h | carve(h).Some?
      ensures CarvedFrom(carve(h).value.record, h)
    {
      CarverSound(img, env, smart, h);
    }
    var j := CarveAllFromHits(ScanHits(img, sigs), carve, k);
    var i := ScanHitSelected(img, sigs, j);
  }

  /** Each scan hit is an occurrence of the header of one of the selected
      signatures. */
  lemma ScanHitSelected(img: seq<Byte>, sigs: seq<(string, FileSignature)>, j: nat) returns (i: nat)
    requires j < |ScanHits(img, sigs)|
    ensures i < |sigs| && sigs[i].1 == ScanHits(img, sigs)[j].signature
    ensures OccursAt(sigs[i].1.header, img, ScanHits(img, sigs)[j].offset)
  {
    var h := ScanHits(img, sigs)[j];
    assert h in ScanHits(img, sigs);
    assert h.signature in SigsOf(sigs);
    var i' :| 0 <= i' < |sigs| && SigsOf(sigs)[i'] == h.signature;
    i := i';
  }

  /** The carving of the hits of one buffer, each as soon as it is found. */
  method CarveHits(hits: seq<Hit>, carve: Hit -> Option<Carved>) returns (records: seq<CarveRecord>)
    ensures records == CarveAll(hits, carve)
  {
    records := [];
    var k := 0;
    while k < |hits|
      invariant k <= |hits|
      invariant records == CarveAll(hits[..k], carve)
    {
      CarveOneMore(hits, k, carve);
      var carved := carve(hits[k]);
      if carved.Some? {
        records := records + [carved.value.record];
      }
      k := k + 1;
    }
    assert hits[..k] == hits;
  }

  /** `carve_files`: the signature selection, then, when the image opens,
      the chunk scan. */
  method CarveFiles(image: Option<seq<Byte>>, fileTypes: Option<seq<string>>, env: CarveEnv, smart: bool)
    returns (records: seq<CarveRecord>)
    ensures records == CarvedFiles(image, fileTypes, env, smart)
  {
    var sigs := SelectSignatures(fileTypes);
    if sigs == [] || image.None? {
      return [];
    }
    records := CarveScan(image.value, sigs, CarverFor(image.value, env, smart));
  }

  /** The chunk loop of `carve_files`: `buffer = buffer[-1024:] + chunk`,
      every occurrence of every selected header in it at image offset
      `offset + header_pos - (len(buffer) - len(chunk))`, each carved as soon
      as it is found. A chunk is never empty while `offset` is inside the
      image, so the loop's `break` on an empty chunk does not arise. */
  method CarveScan(img: seq<Byte>, sigs: seq<(string, FileSignature)>, carve: Hit -> Option<Carved>)
    returns (records: seq<CarveRecord>)
    ensures records == CarveAll(ScanHits(img, sigs), carve)
  {
    var offset: nat := 0;
    var buffer: seq<Byte> := [];
    records := [];
    while offset < |img|
      invariant ScanInvariant(img, offset, buffer)
      invariant records + CarveAll(ScanFrom(img, sigs, offset), carve) == CarveAll(ScanHits(img, sigs), carve)
      decreases |img| - offset
    {
      var chunk := Read(img, offset, CHUNK_SIZE);
      ScanStep(img, offset, buffer);
      ScanFromStep(img, sigs, offset);
      buffer := Tail(buffer, TAIL_SIZE) + chunk;
      var found := BufferHits(buffer, offset - (|buffer| - |chunk|), sigs);
      CarveAllAppend(found, ScanFrom(img, sigs, offset + CHUNK_SIZE), carve);
      AppendAssoc(records, CarveAll(found, carve), CarveAll(ScanFrom(img, sigs, offset + CHUNK_SIZE), carve));
      var carved := CarveHits(found, carve);
      records := records + carved;
      offset := offset + CHUNK_SIZE;
    }
  }
}
