/** The hash and integrity service (core/forensics/hash_verifier.py): which
    algorithms a request selects, file and data hashing with the digest as a
    parameter, the per-case store keyed on (file path, source type), the
    integrity check, the batch pass, the comparison against another hash set
    and the CSV export.

    The digest function `digest(algorithm, bytes)` stands for hashlib and
    returns the hexadecimal digest; the file system maps each existing path
    to its state; the clock reading `now` is the ISO text of `datetime.now()`. */
module HashVerifier {
  import opened Wrappers
  import opened Bytes
  import opened Text
  import opened Sorting

  const SUPPORTED_ALGORITHMS: seq<string> := ["md5", "sha1", "sha256", "sha512"]
  const DEFAULT_ALGORITHMS: seq<string> := ["md5", "sha256"]
  /** Files are read in 64 KiB chunks. */
  const READ_CHUNK: nat := 64 * 1024

  type Digest = (string, seq<Byte>) -> string

  /** A path as `os.path.exists` sees it: a file whose content can be read,
      or a path that exists but whose `open(path, 'rb')` raises (a
      directory, a file without read permission), with the size
      `os.path.getsize` reports and the text of the error. */
  datatype FileState = Readable(content: seq<Byte>) | Unreadable(size: nat, reason: string)

  /** The existing paths and their states. */
  type FileSystem = map<string, FileState>

  /** The path exists and its content can be read. */
  predicate CanRead(fs: FileSystem, path: string) {
    path in fs && fs[path].Readable?
  }

  /** `os.path.getsize` of an existing path. */
  function SizeOf(f: FileState): nat {
    match f
    case Readable(content) => |content|
    case Unreadable(size, _) => size
  }

  // Algorithm selection

  /** The supported names are already lower case. */
  lemma SupportedAreLower()
    ensures forall a :: a in SUPPORTED_ALGORITHMS ==> Lower(a) == a
  {
    forall a | a in SUPPORTED_ALGORITHMS
      ensures Lower(a) == a
    {
      var k :| 0 <= k < 4 && SUPPORTED_ALGORITHMS[k] == a;
      assert k == 0 || k == 1 || k == 2 || k == 3;
    }
  }

  /** `[alg.lower() for alg in algorithms if alg.lower() in SUPPORTED_ALGORITHMS]`. */
  function KeepSupported(algorithms: seq<string>): (r: seq<string>)
    ensures |r| <= |algorithms|
    ensures forall a :: a in r <==> a in SUPPORTED_ALGORITHMS && exists b :: b in algorithms && Lower(b) == a
  {
    if algorithms == [] then []
    else
      var rest := KeepSupported(algorithms[1..]);
      assert forall b :: b in algorithms <==> b == algorithms[0] || b in algorithms[1..];
      var a := Lower(algorithms[0]);
      (if a in SUPPORTED_ALGORITHMS then [a] else []) + rest
  }

  /** The selection keeps the order of the request: selecting from two
      requests laid end to end selects from each in turn. */
  lemma {:induction false} KeepSupportedAppend(a: seq<string>, b: seq<string>)
    ensures KeepSupported(a + b) == KeepSupported(a) + KeepSupported(b)
  {
    if a != [] {
      assert (a + b)[1..] == a[1..] + b;
      KeepSupportedAppend(a[1..], b);
    } else {
      assert a + b == b;
    }
  }

  /** Selecting again changes nothing. */
  lemma {:induction false} KeepSupportedIdempotent(algorithms: seq<string>)
    ensures KeepSupported(KeepSupported(algorithms)) == KeepSupported(algorithms)
  {
    if algorithms != [] {
      SupportedAreLower();
      var a := Lower(algorithms[0]);
      var head := if a in SUPPORTED_ALGORITHMS then [a] else [];
      KeepSupportedAppend(head, KeepSupported(algorithms[1..]));
      KeepSupportedIdempotent(algorithms[1..]);
      if a in SUPPORTED_ALGORITHMS {
        assert KeepSupported(head) == [a];
      }
    }
  }

  /** The algorithms a request selects; `None` asks for md5 and sha256. */
  function SelectAlgorithms(algorithms: Option<seq<string>>): (r: seq<string>)
    ensures algorithms.None? ==> r == DEFAULT_ALGORITHMS
    ensures algorithms.Some? ==> r == KeepSupported(algorithms.value)
    ensures forall a :: a in r ==> a in SUPPORTED_ALGORITHMS
  {
    DefaultSelection();
    KeepSupported(algorithms.GetOr(DEFAULT_ALGORITHMS))
  }

  lemma DefaultSelection()
    ensures KeepSupported(DEFAULT_ALGORITHMS) == DEFAULT_ALGORITHMS
  {
    SupportedAreLower();
    assert SUPPORTED_ALGORITHMS[0] == "md5" && SUPPORTED_ALGORITHMS[2] == "sha256";
    assert DEFAULT_ALGORITHMS[1..] == ["sha256"] && ["sha256"][1..] == [];
    assert KeepSupported(["sha256"]) == ["sha256"];
  }

  // Hashing

  /** `calculate_data_hash`: one digest per selected algorithm. */
  function DataHash(data: seq<Byte>, algorithms: Option<seq<string>>, digest: Digest): (r: map<string, string>)
    ensures forall a :: a in r <==> a in SelectAlgorithms(algorithms)
    ensures forall a :: a in r ==> r[a] == digest(a, data)
  {
    map a | a in SelectAlgorithms(algorithms) :: digest(a, data)
  }

  /** The chunks `while chunk := f.read(size)` yields: none of them empty,
      none longer than `size`, together the whole content. */
  function Chunks(data: seq<Byte>, size: nat): (r: seq<seq<Byte>>)
    requires size > 0
    ensures forall k :: 0 <= k < |r| ==> 0 < |r[k]| <= size
    ensures Concat(r) == data
    decreases |data|
  {
    if data == [] then []
    else if |data| <= size then
      assert Concat([data]) == data + Concat([]);
      [data]
    else
      var rest := Chunks(data[size..], size);
      assert [data[..size]] + rest == [data[..size]] + rest;
      ConcatCons(data[..size], rest);
      [data[..size]] + rest
  }

  /** The bytes a hasher absorbs through successive `update` calls. */
  function Concat(chunks: seq<seq<Byte>>): seq<Byte> {
    if chunks == [] then [] else chunks[0] + Concat(chunks[1..])
  }

  lemma ConcatCons(c: seq<Byte>, rest: seq<seq<Byte>>)
    ensures Concat([c] + rest) == c + Concat(rest)
  {
    assert ([c] + rest)[1..] == rest;
  }

  /** `calculate_file_hash`: the digests of a file read chunk by chunk; a
      missing file raises `FileNotFoundError`, and a path that exists but
      cannot be read raises "Error reading file". The read is the same as
      hashing the content in one go. */
  function FileHash(fs: FileSystem, path: string, algorithms: Option<seq<string>>, digest: Digest)
    : (r: Result<map<string, string>, string>)
    ensures r.Failure? <==> !CanRead(fs, path)
    ensures path !in fs ==> r.error == "File not found: " + path
    ensures path in fs && fs[path].Unreadable? ==>
              r.error == "Error reading file " + path + ": " + fs[path].reason
    ensures r.Success? ==> r.value == DataHash(fs[path].content, algorithms, digest)
  {
    if path !in fs then Failure("File not found: " + path)
    else if fs[path].Unreadable? then Failure("Error reading file " + path + ": " + fs[path].reason)
    else
      var absorbed := Concat(Chunks(fs[path].content, READ_CHUNK));
      Success(map a | a in SelectAlgorithms(algorithms) :: digest(a, absorbed))
  }

  // The store

  /** One row of the `file_hashes` table. */
  datatype HashRecord = HashRecord(
    filePath: string,
    fileSize: int,
    md5: Option<string>,
    sha1: Option<string>,
    sha256: Option<string>,
    sha512: Option<string>,
    calculatedAt: string,
    sourceType: string)

  type StoreKey = (string, string)

  /** The per-case database: its path, when a case is open, and the table
      as a map on its unique key (file path, source type). */
  datatype HashStore = HashStore(dbPath: Option<string>, records: map<StoreKey, HashRecord>)

  /** `HashVerifier(case_path)`: a database inside the case directory when
      a case path is given; `existing` stands for the rows already in the
      table, which `CREATE TABLE IF NOT EXISTS` keeps. */
  function OpenStore(casePath: Option<string>, existing: map<StoreKey, HashRecord>): (s: HashStore)
    ensures s.dbPath.Some? <==> casePath.Some? && casePath.value != ""
    ensures s.dbPath.Some? ==> IsSuffix("file_hashes.db", s.dbPath.value)
    ensures s.dbPath.Some? ==> s.dbPath.value == PathJoin(casePath.value, "file_hashes.db") && s.records == existing
    ensures s.dbPath.None? ==> s.records == map[]
  {
    if casePath.Some? && casePath.value != "" then HashStore(Some(PathJoin(casePath.value, "file_hashes.db")), existing)
    else HashStore(None, map[])
  }

  /** `hashes.get(alg)`. */
  function Get(hashes: map<string, string>, alg: string): Option<string> {
    if alg in hashes then Some(hashes[alg]) else None
  }

  /** `store_file_hash`: `INSERT OR REPLACE` on (path, source type). There
      is no store without a case. */
  function StoreFileHash(store: HashStore, fs: FileSystem, path: string, hashes: map<string, string>,
                         sourceType: string, now: string): (r: (bool, HashStore))
    ensures !r.0 <==> store.dbPath.None?
    ensures !r.0 ==> r.1 == store
    ensures r.1.dbPath == store.dbPath
    ensures r.0 ==> r.1.records.Keys == store.records.Keys + {(path, sourceType)}
    ensures r.0 ==> forall k :: k in store.records && k != (path, sourceType) ==> r.1.records[k] == store.records[k]
    ensures r.0 ==> var rec := r.1.records[(path, sourceType)];
      && rec.filePath == path && rec.sourceType == sourceType && rec.calculatedAt == now
      && rec.fileSize == (if path in fs then SizeOf(fs[path]) else 0)
      && (forall a :: a in SUPPORTED_ALGORITHMS ==> StoredDigest(rec, a) == Get(hashes, a))
  {
    if store.dbPath.None? then (false, store)
    else
      var size := if path in fs then SizeOf(fs[path]) else 0;
      var rec := HashRecord(path, size, Get(hashes, "md5"), Get(hashes, "sha1"), Get(hashes, "sha256"),
                            Get(hashes, "sha512"), now, sourceType);
      (true, store.(records := store.records[(path, sourceType) := rec]))
  }

  /** The column of a record that holds the digest for `alg`. */
  function StoredDigest(rec: HashRecord, alg: string): Option<string> {
    if alg == "md5" then rec.md5
    else if alg == "sha1" then rec.sha1
    else if alg == "sha256" then rec.sha256
    else if alg == "sha512" then rec.sha512
    else None
  }

  /** What `get_file_hash` returns for a stored row. */
  datatype StoredHashes = StoredHashes(md5: Option<string>, sha1: Option<string>, sha256: Option<string>,
                                       sha512: Option<string>, calculatedAt: string)

  /** The digest for `alg` in what `get_file_hash` returns. */
  function Returned(h: StoredHashes, alg: string): Option<string> {
    if alg == "md5" then h.md5
    else if alg == "sha1" then h.sha1
    else if alg == "sha256" then h.sha256
    else if alg == "sha512" then h.sha512
    else None
  }

  /** `get_file_hash`: the stored digests under (path, source type). */
  function GetFileHash(store: HashStore, path: string, sourceType: string): (r: Option<StoredHashes>)
    ensures r.None? <==> store.dbPath.None? || (path, sourceType) !in store.records
    ensures r.Some? ==> var rec := store.records[(path, sourceType)];
      && r.value.calculatedAt == rec.calculatedAt
      && (forall a :: a in SUPPORTED_ALGORITHMS ==> Returned(r.value, a) == StoredDigest(rec, a))
  {
    if store.dbPath.None? || (path, sourceType) !in store.records then None
    else
      var rec := store.records[(path, sourceType)];
      Some(StoredHashes(rec.md5, rec.sha1, rec.sha256, rec.sha512, rec.calculatedAt))
  }

  /** Storing and reading back under the same key gives the new digests,
      with `None` for algorithms that were not computed. */
  lemma StoreThenGet(store: HashStore, fs: FileSystem, path: string, hashes: map<string, string>,
                     sourceType: string, now: string)
    requires store.dbPath.Some?
    ensures GetFileHash(StoreFileHash(store, fs, path, hashes, sourceType, now).1, path, sourceType)
            == Some(StoredHashes(Get(hashes, "md5"), Get(hashes, "sha1"), Get(hashes, "sha256"),
                                 Get(hashes, "sha512"), now))
  {
  }

  /** Storing under one key leaves what every other key reads unchanged. */
  lemma StoreKeepsOthers(store: HashStore, fs: FileSystem, path: string, hashes: map<string, string>,
                         sourceType: string, now: string, otherPath: string, otherSource: string)
    requires (otherPath, otherSource) != (path, sourceType)
    ensures GetFileHash(StoreFileHash(store, fs, path, hashes, sourceType, now).1, otherPath, otherSource)
            == GetFileHash(store, otherPath, otherSource)
  {
  }

  /** Storing the same digests twice is the same as storing them once. */
  lemma StoreIdempotent(store: HashStore, fs: FileSystem, path: string, hashes: map<string, string>,
                        sourceType: string, now: string)
    ensures var once := StoreFileHash(store, fs, path, hashes, sourceType, now).1;
      StoreFileHash(once, fs, path, hashes, sourceType, now).1 == once
  {
  }

  // Integrity

  /** The lower-cased supported names among the expected algorithms. */
  function Requested(expected: map<string, string>): (r: set<string>)
    ensures forall a :: a in r <==> a in SUPPORTED_ALGORITHMS && exists b :: b in expected && Lower(b) == a
  {
    set b | b in expected && Lower(b) in SUPPORTED_ALGORITHMS :: Lower(b)
  }

  /** `verify_file_integrity`: every expected algorithm is False for a
      missing file; a path that exists but cannot be read raises the
      hashing error, which the method does not catch; otherwise a name is
      True when a digest was computed under that very key and matches,
      ignoring case. */
  function VerifyFileIntegrity(fs: FileSystem, path: string, expected: map<string, string>, digest: Digest)
    : (r: Result<map<string, bool>, string>)
    ensures r.Failure? <==> path in fs && fs[path].Unreadable?
    ensures r.Failure? ==> r.error == "Error reading file " + path + ": " + fs[path].reason
    ensures r.Success? ==> r.value.Keys == expected.Keys
    ensures path !in fs ==> forall a :: a in r.value ==> !r.value[a]
    ensures CanRead(fs, path) ==> forall a :: a in r.value ==>
              (r.value[a] <==> a in SUPPORTED_ALGORITHMS && Lower(digest(a, fs[path].content)) == Lower(expected[a]))
  {
    if path !in fs then Success(map a | a in expected :: false)
    else if fs[path].Unreadable? then Failure("Error reading file " + path + ": " + fs[path].reason)
    else
      var current := map a | a in Requested(expected) :: digest(a, fs[path].content);
      SupportedAreLower();
      Success(map a | a in expected :: a in current && Lower(current[a]) == Lower(expected[a]))
  }

  /** An expected digest filed under an upper-case name such as "MD5" never
      verifies, even against the file's own digest: the digests are computed
      under the lower-cased name and looked up under the original one. */
  lemma UpperCaseNameNeverVerifies(fs: FileSystem, path: string, digest: Digest)
    requires CanRead(fs, path)
    ensures var expected := map["MD5" := digest("md5", fs[path].content)];
      VerifyFileIntegrity(fs, path, expected, digest) == Success(map["MD5" := false])
  {
    var expected := map["MD5" := digest("md5", fs[path].content)];
    assert "MD5" != "md5" && "MD5" != "sha1" && "MD5" != "sha256" && "MD5" != "sha512";
    var r := VerifyFileIntegrity(fs, path, expected, digest);
    assert r.value.Keys == {"MD5"} && !r.value["MD5"];
    assert r.value == map["MD5" := false];
  }

  /** The check with the lookup under the lower-cased name, so that the
      spelling of an algorithm name does not matter. */
  function VerifyFileIntegrityAnyCase(fs: FileSystem, path: string, expected: map<string, string>, digest: Digest)
    : (r: Result<map<string, bool>, string>)
    ensures r.Failure? <==> path in fs && fs[path].Unreadable?
    ensures r.Failure? ==> r.error == "Error reading file " + path + ": " + fs[path].reason
    ensures r.Success? ==> r.value.Keys == expected.Keys
    ensures path !in fs ==> forall a :: a in r.value ==> !r.value[a]
    ensures CanRead(fs, path) ==> forall a :: a in r.value ==>
              (r.value[a] <==> Lower(a) in SUPPORTED_ALGORITHMS
                               && Lower(digest(Lower(a), fs[path].content)) == Lower(expected[a]))
  {
    if path !in fs then Success(map a | a in expected :: false)
    else if fs[path].Unreadable? then Failure("Error reading file " + path + ": " + fs[path].reason)
    else
      var current := map a | a in Requested(expected) :: digest(a, fs[path].content);
      Success(map a | a in expected :: Lower(a) in current && Lower(current[Lower(a)]) == Lower(expected[a]))
  }

  /** Both checks agree on lower-case names; the corrected one also
      verifies a file against its own digests whatever the spelling. */
  lemma AnyCaseVerifiesOwnDigest(fs: FileSystem, path: string, expected: map<string, string>, digest: Digest)
    requires CanRead(fs, path)
    ensures forall a :: a in expected && Lower(a) == a ==>
              VerifyFileIntegrityAnyCase(fs, path, expected, digest).value[a]
              == VerifyFileIntegrity(fs, path, expected, digest).value[a]
    ensures forall a :: a in expected && Lower(a) in SUPPORTED_ALGORITHMS
                        && expected[a] == digest(Lower(a), fs[path].content) ==>
              VerifyFileIntegrityAnyCase(fs, path, expected, digest).value[a]
  {
  }

  // The batch pass

  /** What the batch pass records for one path: its digests, or the error
      message under the key "error". */
  function Outcome(fs: FileSystem, path: string, algorithms: Option<seq<string>>, digest: Digest)
    : map<string, string>
  {
    match FileHash(fs, path, algorithms, digest)
    case Success(hashes) => hashes
    case Failure(msg) => map["error" := msg]
  }

  /** One call of the progress callback: files done, total, message. */
  datatype Progress = Progress(current: nat, total: nat, message: string)

  /** The progress reports made before each file: its index, the total and
      `Hashing: ` followed by the file's base name. */
  function ProgressBefore(paths: seq<string>, total: nat): (r: seq<Progress>)
    ensures |r| == |paths|
    ensures forall k :: 0 <= k < |r| ==> r[k] == Progress(k, total, "Hashing: " + Basename(paths[k]))
  {
    if paths == [] then []
    else
      var last := paths[|paths| - 1];
      ProgressBefore(paths[..|paths| - 1], total) + [Progress(|paths| - 1, total, "Hashing: " + Basename(last))]
  }

  /** The report after the last file. */
  const PROGRESS_DONE: string := "Hash calculation complete"

  /** A path's entry carries an error exactly when the file is missing or
      cannot be read. */
  lemma OutcomeError(fs: FileSystem, path: string, algorithms: Option<seq<string>>, digest: Digest)
    ensures "error" in Outcome(fs, path, algorithms, digest) <==> !CanRead(fs, path)
  {
    if CanRead(fs, path) {
      SupportedAreLower();
      assert "error" !in SUPPORTED_ALGORITHMS;
    }
  }

  function PathSet(paths: seq<string>): set<string> {
    set p | p in paths
  }

  /** The store keys a batch over `paths` writes. */
  function BatchKeys(paths: seq<string>, fs: FileSystem): set<StoreKey> {
    set p | p in paths && CanRead(fs, p) :: (p, "file_system")
  }

  /** What `get_file_hash` reads back for a key stored with `hashes` at
      time `now`. */
  function StoredOf(hashes: map<string, string>, now: string): StoredHashes {
    StoredHashes(Get(hashes, "md5"), Get(hashes, "sha1"), Get(hashes, "sha256"), Get(hashes, "sha512"), now)
  }

  /** The store step of the batch pass, under source type `file_system`:
      the path then reads back the new digests, and every other key reads
      what it read before. */
  function StoreInBatch(store: HashStore, fs: FileSystem, path: string, hashes: map<string, string>, now: string)
    : (s: HashStore)
    ensures s.dbPath == store.dbPath
    ensures store.dbPath.None? ==> s == store
    ensures store.dbPath.Some? ==> s.records.Keys == store.records.Keys + {(path, "file_system")}
    ensures store.dbPath.Some? ==> GetFileHash(s, path, "file_system") == Some(StoredOf(hashes, now))
    ensures forall q, t :: (q, t) != (path, "file_system") ==> GetFileHash(s, q, t) == GetFileHash(store, q, t)
  {
    StoreFileHash(store, fs, path, hashes, "file_system", now).1
  }

  /** The results of the batch pass after the given paths. */
  function BatchOutcomes(fs: FileSystem, paths: seq<string>, algorithms: Option<seq<string>>, digest: Digest)
    : map<string, map<string, string>>
  {
    if paths == [] then map[]
    else
      var last := paths[|paths| - 1];
      BatchOutcomes(fs, paths[..|paths| - 1], algorithms, digest)[last := Outcome(fs, last, algorithms, digest)]
  }

  /** The store after the batch pass over the given paths. */
  function BatchStore(store: HashStore, fs: FileSystem, paths: seq<string>, algorithms: Option<seq<string>>,
                      digest: Digest, now: string): HashStore
  {
    if paths == [] then store
    else
      var last := paths[|paths| - 1];
      var before := BatchStore(store, fs, paths[..|paths| - 1], algorithms, digest, now);
      if CanRead(fs, last) && store.dbPath.Some? then
        StoreInBatch(before, fs, last, DataHash(fs[last].content, algorithms, digest), now)
      else before
  }

  lemma LastStep(paths: seq<string>, fs: FileSystem)
    requires paths != []
    ensures var init, last := paths[..|paths| - 1], paths[|paths| - 1];
      && PathSet(paths) == PathSet(init) + {last}
      && BatchKeys(paths, fs) == BatchKeys(init, fs) + (if CanRead(fs, last) then {(last, "file_system")} else {})
  {
    assert paths == paths[..|paths| - 1] + [paths[|paths| - 1]];
  }

  lemma {:induction false} BatchOutcomesFacts(fs: FileSystem, paths: seq<string>, algorithms: Option<seq<string>>,
                                              digest: Digest)
    ensures BatchOutcomes(fs, paths, algorithms, digest).Keys == PathSet(paths)
    ensures forall p :: p in BatchOutcomes(fs, paths, algorithms, digest) ==>
              BatchOutcomes(fs, paths, algorithms, digest)[p] == Outcome(fs, p, algorithms, digest)
  {
    if paths != [] {
      var init := paths[..|paths| - 1];
      BatchOutcomesFacts(fs, init, algorithms, digest);
      LastStep(paths, fs);
    }
  }

  lemma {:induction false} BatchStoreFacts(store: HashStore, fs: FileSystem, paths: seq<string>,
                                           algorithms: Option<seq<string>>, digest: Digest, now: string)
    ensures BatchStore(store, fs, paths, algorithms, digest, now).dbPath == store.dbPath
    ensures store.dbPath.None? ==> BatchStore(store, fs, paths, algorithms, digest, now) == store
    ensures store.dbPath.Some? ==>
              BatchStore(store, fs, paths, algorithms, digest, now).records.Keys == store.records.Keys + BatchKeys(paths, fs)
  {
    if paths != [] {
      var init := paths[..|paths| - 1];
      BatchStoreFacts(store, fs, init, algorithms, digest, now);
      BatchStoreStep(store, fs, paths, algorithms, digest, now);
      LastStep(paths, fs);
    }
  }

  /** After the batch, every path that could be read reads back the
      digests of its content, stamped with the batch's clock reading. */
  lemma BatchStoreReads(store: HashStore, fs: FileSystem, paths: seq<string>,
                        algorithms: Option<seq<string>>, digest: Digest, now: string)
    ensures store.dbPath.Some? ==> forall p :: p in paths && CanRead(fs, p) ==>
              GetFileHash(BatchStore(store, fs, paths, algorithms, digest, now), p, "file_system")
              == Some(StoredOf(DataHash(fs[p].content, algorithms, digest), now))
  {
    forall p | store.dbPath.Some? && p in paths && CanRead(fs, p)
      ensures GetFileHash(BatchStore(store, fs, paths, algorithms, digest, now), p, "file_system")
              == Some(StoredOf(DataHash(fs[p].content, algorithms, digest), now))
    {
      BatchStoreReadsAt(store, fs, paths, algorithms, digest, now, p);
    }
  }

  /** The read-back of one path, by induction on the batch. */
  lemma {:induction false} BatchStoreReadsAt(store: HashStore, fs: FileSystem, paths: seq<string>,
                                             algorithms: Option<seq<string>>, digest: Digest, now: string, p: string)
    requires store.dbPath.Some? && p in paths && CanRead(fs, p)
    ensures GetFileHash(BatchStore(store, fs, paths, algorithms, digest, now), p, "file_system")
            == Some(StoredOf(DataHash(fs[p].content, algorithms, digest), now))
  {
    var init, last := paths[..|paths| - 1], paths[|paths| - 1];
    var before := BatchStore(store, fs, init, algorithms, digest, now);
    BatchStoreKeepsCase(store, fs, init, algorithms, digest, now);
    if p == last {
      assert BatchStore(store, fs, paths, algorithms, digest, now)
          == StoreInBatch(before, fs, last, DataHash(fs[last].content, algorithms, digest), now);
    } else {
      assert paths == init + [last];
      assert p in init;
      BatchStoreReadsAt(store, fs, init, algorithms, digest, now, p);
      if CanRead(fs, last) {
        var after := StoreInBatch(before, fs, last, DataHash(fs[last].content, algorithms, digest), now);
        assert BatchStore(store, fs, paths, algorithms, digest, now) == after;
        assert GetFileHash(after, p, "file_system") == GetFileHash(before, p, "file_system");
      }
    }
  }

  /** The batch never opens or closes the case's database. */
  lemma {:induction false} BatchStoreKeepsCase(store: HashStore, fs: FileSystem, paths: seq<string>,
                                               algorithms: Option<seq<string>>, digest: Digest, now: string)
    ensures BatchStore(store, fs, paths, algorithms, digest, now).dbPath == store.dbPath
  {
    if paths != [] {
      BatchStoreKeepsCase(store, fs, paths[..|paths| - 1], algorithms, digest, now);
    }
  }

  /** A key the batch does not write reads after the batch what it read
      before. */
  lemma {:induction false} BatchStoreKeepsOthers(store: HashStore, fs: FileSystem, paths: seq<string>,
                                                 algorithms: Option<seq<string>>, digest: Digest, now: string)
    ensures forall q, t :: (q, t) !in BatchKeys(paths, fs) ==>
              GetFileHash(BatchStore(store, fs, paths, algorithms, digest, now), q, t) == GetFileHash(store, q, t)
  {
    if paths != [] {
      var init, last := paths[..|paths| - 1], paths[|paths| - 1];
      var before := BatchStore(store, fs, init, algorithms, digest, now);
      var after := BatchStore(store, fs, paths, algorithms, digest, now);
      BatchStoreKeepsOthers(store, fs, init, algorithms, digest, now);
      LastStep(paths, fs);
      forall q, t | (q, t) !in BatchKeys(paths, fs)
        ensures GetFileHash(after, q, t) == GetFileHash(store, q, t)
      {
        assert (q, t) !in BatchKeys(init, fs);
        if CanRead(fs, last) && store.dbPath.Some? {
          assert (q, t) != (last, "file_system");
          assert after == StoreInBatch(before, fs, last, DataHash(fs[last].content, algorithms, digest), now);
        }
      }
    }
  }

  lemma BatchStoreStep(store: HashStore, fs: FileSystem, paths: seq<string>,
                       algorithms: Option<seq<string>>, digest: Digest, now: string)
    requires paths != []
    ensures var last := paths[|paths| - 1];
      var before := BatchStore(store, fs, paths[..|paths| - 1], algorithms, digest, now);
      var after := BatchStore(store, fs, paths, algorithms, digest, now);
      && after.dbPath == before.dbPath
      && (store.dbPath.None? ==> after == before)
      && (store.dbPath.Some? && before.dbPath.Some? ==>
            after.records.Keys == before.records.Keys + (if CanRead(fs, last) then {(last, "file_system")} else {}))
  {
  }

  /** What `batch_calculate_hashes` hands back: the per-path results, the
      progress reports made and the store afterwards. */
  datatype Batch = Batch(results: map<string, map<string, string>>, progress: seq<Progress>, stored: HashStore)

  /** `batch_calculate_hashes`: one entry per path, the digests stored
      under source type `file_system` when a case is open, and, with a
      progress callback, one report per file naming its base name and a
      final `(total, total)` report of completion. */
  function BatchCalculateHashes(fs: FileSystem, store: HashStore, paths: seq<string>,
                                algorithms: Option<seq<string>>, digest: Digest, now: string,
                                reportProgress: bool): (r: Batch)
    ensures r.results.Keys == PathSet(paths)
    ensures forall p :: p in r.results ==> r.results[p] == Outcome(fs, p, algorithms, digest)
    ensures forall p :: p in r.results ==> ("error" in r.results[p] <==> !CanRead(fs, p))
    ensures reportProgress ==> r.progress == ProgressBefore(paths, |paths|) + [Progress(|paths|, |paths|, PROGRESS_DONE)]
    ensures !reportProgress ==> r.progress == []
    ensures r.stored.dbPath == store.dbPath
    ensures store.dbPath.None? ==> r.stored == store
    ensures store.dbPath.Some? ==> r.stored.records.Keys == store.records.Keys + BatchKeys(paths, fs)
    ensures store.dbPath.Some? ==> forall p :: p in paths && CanRead(fs, p) ==>
              GetFileHash(r.stored, p, "file_system") == Some(StoredOf(DataHash(fs[p].content, algorithms, digest), now))
    ensures forall q, t :: (q, t) !in BatchKeys(paths, fs) ==> GetFileHash(r.stored, q, t) == GetFileHash(store, q, t)
  {
    BatchOutcomesFacts(fs, paths, algorithms, digest);
    BatchStoreFacts(store, fs, paths, algorithms, digest, now);
    BatchStoreReads(store, fs, paths, algorithms, digest, now);
    BatchStoreKeepsOthers(store, fs, paths, algorithms, digest, now);
    var results := BatchOutcomes(fs, paths, algorithms, digest);
    assert forall p :: p in results ==> ("error" in results[p] <==> !CanRead(fs, p)) by {
      forall p | p in results
        ensures "error" in results[p] <==> !CanRead(fs, p)
      {
        OutcomeError(fs, p, algorithms, digest);
      }
    }
    Batch(results,
          if reportProgress then ProgressBefore(paths, |paths|) + [Progress(|paths|, |paths|, PROGRESS_DONE)] else [],
          BatchStore(store, fs, paths, algorithms, digest, now))
  }

  // Comparing against another hash set

  /** The decision for one path: `not_found` without a stored row; else the
      md5 digest decides when one is expected, else the sha256 digest; with
      neither expected the path gets no result. A stored digest that is
      absent or empty never matches. */
  function CompareOne(stored: Option<HashRecord>, expected: map<string, string>): (r: Option<string>)
    ensures stored.None? ==> r == Some("not_found")
    ensures stored.Some? && "md5" in expected ==>
              r == Some(if DigestMatches(stored.value.md5, expected["md5"]) then "match" else "mismatch")
    ensures stored.Some? && "md5" !in expected && "sha256" in expected ==>
              r == Some(if DigestMatches(stored.value.sha256, expected["sha256"]) then "match" else "mismatch")
    ensures stored.Some? && "md5" !in expected && "sha256" !in expected ==> r.None?
  {
    if stored.None? then Some("not_found")
    else if "md5" in expected then
      Some(if stored.value.md5.Some? && stored.value.md5.value != "" && Lower(stored.value.md5.value) == Lower(expected["md5"])
           then "match" else "mismatch")
    else if "sha256" in expected then
      Some(if stored.value.sha256.Some? && stored.value.sha256.value != ""
              && Lower(stored.value.sha256.value) == Lower(expected["sha256"])
           then "match" else "mismatch")
    else None
  }

  /** A stored digest matches when it is present, not empty, and equal to
      the expected one ignoring case. */
  predicate DigestMatches(stored: Option<string>, expected: string) {
    match stored
    case None => false
    case Some(d) => d != "" && Lower(d) == Lower(expected)
  }

  /** The row a query by path alone returns: some row with that path, and
      one whenever the path is stored at all. Which row comes first when a
      path is stored under several source types is up to the database. */
  ghost predicate RowLookup(store: HashStore, rowFor: string -> Option<HashRecord>) {
    && (forall p :: rowFor(p).Some? ==> exists k :: k in store.records && k.0 == p && store.records[k] == rowFor(p).value)
    && (forall k :: k in store.records ==> rowFor(k.0).Some?)
  }

  /** `compare_hash_sets`: nothing without a case; else one decision per
      path of the other set that has a row or an md5 or sha256 digest. */
  function CompareHashSets(store: HashStore, other: map<string, map<string, string>>,
                           rowFor: string -> Option<HashRecord>): (r: map<string, string>)
    ensures store.dbPath.None? ==> r == map[]
    ensures store.dbPath.Some? ==> forall p :: p in other ==> (p in r <==> CompareOne(rowFor(p), other[p]).Some?)
    ensures store.dbPath.Some? ==> forall p :: p in r ==> p in other && r[p] == CompareOne(rowFor(p), other[p]).value
  {
    if store.dbPath.None? then map[]
    else map p | p in other && CompareOne(rowFor(p), other[p]).Some? :: CompareOne(rowFor(p), other[p]).value
  }

  /** With a well-behaved lookup, a path is `not_found` exactly when no row
      holds it, and a match is reported only for a digest that is stored. */
  lemma CompareNotFoundIff(store: HashStore, other: map<string, map<string, string>>,
                           rowFor: string -> Option<HashRecord>, p: string)
    requires store.dbPath.Some? && RowLookup(store, rowFor) && p in other
    ensures var r := CompareHashSets(store, other, rowFor);
      p in r && r[p] == "not_found" <==> forall k :: k in store.records ==> k.0 != p
  {
    if exists k :: k in store.records && k.0 == p {
      var k :| k in store.records && k.0 == p;
      assert rowFor(p).Some?;
    }
  }

  // Export

  /** The ordering of `ORDER BY calculated_at`. */
  function ByCalculatedAt(a: HashRecord, b: HashRecord): bool {
    StrLe(a.calculatedAt, b.calculatedAt)
  }

  lemma ByCalculatedAtOrders()
    ensures Total(ByCalculatedAt) && Transitive(ByCalculatedAt)
  {
    forall a, b ensures ByCalculatedAt(a, b) || ByCalculatedAt(b, a) {
      StrLeTotal(a.calculatedAt, b.calculatedAt);
    }
    forall a, b, c | ByCalculatedAt(a, b) && ByCalculatedAt(b, c)
      ensures ByCalculatedAt(a, c)
    {
      StrLeTransitive(a.calculatedAt, b.calculatedAt, c.calculatedAt);
    }
  }

  /** The exported rows: the table's rows ordered by calculation time. */
  function ExportRows(rows: seq<HashRecord>): (r: seq<HashRecord>)
    ensures multiset(r) == multiset(rows) && |r| == |rows|
    ensures forall i, j :: 0 <= i < j < |r| ==> StrLe(r[i].calculatedAt, r[j].calculatedAt)
  {
    ByCalculatedAtOrders();
    var s := Sort(rows, ByCalculatedAt);
    assert |multiset(s)| == |multiset(rows)|;
    s
  }

  const CSV_HEADER: string := "File Path,File Size,MD5,SHA1,SHA256,SHA512,Calculated At,Source Type\n"

  /** `str(cell) if cell else ""`: None, 0 and the empty string are falsy. */
  function TextCell(v: Option<string>): string {
    if v.Some? then v.value else ""
  }

  function SizeCell(n: int): (r: string)
    ensures r == "" <==> n == 0
  {
    if n == 0 then "" else IntToString(n)
  }

  /** The cell texts of a row, in column order. */
  function Cells(rec: HashRecord): (r: seq<string>)
    ensures |r| == 8
  {
    [rec.filePath, SizeCell(rec.fileSize), TextCell(rec.md5), TextCell(rec.sha1), TextCell(rec.sha256),
     TextCell(rec.sha512), rec.calculatedAt, rec.sourceType]
  }

  function Quote(cell: string): string {
    "\"" + cell + "\""
  }

  function QuoteAll(cells: seq<string>): (r: seq<string>)
    ensures |r| == |cells| && forall k :: 0 <= k < |r| ==> r[k] == Quote(cells[k])
  {
    seq(|cells|, k requires 0 <= k < |cells| => Quote(cells[k]))
  }

  /** One CSV line: every cell double-quoted, joined by commas. */
  function CsvLine(cells: seq<string>): string {
    Join(QuoteAll(cells), ",") + "\n"
  }

  /** The CSV text of an export: the header, then one line per row of the
      table in `calculated_at` order. */
  function ExportCsv(rows: seq<HashRecord>): (r: string)
    ensures IsPrefix(CSV_HEADER, r)
    ensures r == CSV_HEADER + CsvBody(ExportRows(rows))
  {
    var sorted := ExportRows(rows);
    CSV_HEADER + CsvBody(sorted)
  }

  /** The lines of the given rows, one after the other. */
  function CsvBody(rows: seq<HashRecord>): string {
    if rows == [] then "" else CsvLine(Cells(rows[0])) + CsvBody(rows[1..])
  }

  /** The lines of two runs of rows laid end to end are the lines of each. */
  lemma {:induction false} CsvBodyAppend(a: seq<HashRecord>, b: seq<HashRecord>)
    ensures CsvBody(a + b) == CsvBody(a) + CsvBody(b)
  {
    if a == [] {
      assert a + b == b;
    } else {
      assert (a + b)[1..] == a[1..] + b;
      CsvBodyAppend(a[1..], b);
    }
  }

  /** Row `i` of the export appears as its own quoted line, after the lines
      of the rows before it and before those of the rows after it; the rows
      are the table's, ordered by calculation time. */
  lemma ExportCsvLines(rows: seq<HashRecord>, i: nat)
    requires i < |rows|
    ensures var s := ExportRows(rows);
      && ExportCsv(rows) == CSV_HEADER + CsvBody(s)
      && CsvBody(s) == CsvBody(s[..i]) + CsvLine(Cells(s[i])) + CsvBody(s[i + 1..])
      && multiset(s) == multiset(rows)
      && (forall j :: 0 <= j < i ==> StrLe(s[j].calculatedAt, s[i].calculatedAt))
  {
    CsvBodyAt(ExportRows(rows), i);
  }

  /** The lines of a run of rows split around row `i`. */
  lemma CsvBodyAt(s: seq<HashRecord>, i: nat)
    requires i < |s|
    ensures CsvBody(s) == CsvBody(s[..i]) + CsvLine(Cells(s[i])) + CsvBody(s[i + 1..])
  {
    assert s == s[..i] + s[i..];
    CsvBodyAppend(s[..i], s[i..]);
    assert s[i..][1..] == s[i + 1..];
  }

  /** The cells between the quotes, spelled with the quote as separator:
      "" then each cell followed by a comma part, closed by "". */
  function QuoteFrame(cells: seq<string>): (r: seq<string>)
    requires |cells| >= 1
    ensures |r| == 2 * |cells| + 1
    ensures forall k :: 0 <= k < |cells| ==> r[2 * k + 1] == cells[k]
  {
    if |cells| == 1 then ["", cells[0], ""]
    else ["", cells[0], ","] + QuoteFrame(cells[1..])[1..]
  }

  /** A quoted line is the cells framed by quotes. */
  lemma {:induction false} QuotedLineFrame(cells: seq<string>)
    requires |cells| >= 1
    ensures Join(QuoteAll(cells), ",") == Join(QuoteFrame(cells), "\"")
  {
    if |cells| == 1 {
      assert QuoteAll(cells) == [Quote(cells[0])];
      var f := QuoteFrame(cells);
      assert f[1..] == [cells[0], ""] && f[1..][1..] == [""];
      assert Join(f[1..][1..], "\"") == "";
      assert Join(f[1..], "\"") == cells[0] + "\"" + "";
      assert Join(f, "\"") == "" + "\"" + (cells[0] + "\"" + "");
    } else {
      QuotedLineFrame(cells[1..]);
      var rest := QuoteFrame(cells[1..]);
      assert QuoteAll(cells)[1..] == QuoteAll(cells[1..]);
      assert QuoteFrame(cells)[1..] == [cells[0], ","] + rest[1..];
      JoinFrameTail(cells[0], rest);
    }
  }

  lemma JoinFrameTail(first: string, rest: seq<string>)
    requires |rest| >= 3 && rest[0] == ""
    ensures Join(["", first, ","] + rest[1..], "\"") == Quote(first) + "," + Join(rest, "\"")
  {
    var tail := rest[1..];
    var t := Join(tail, "\"");
    var a := [","] + tail;
    var b := [first] + a;
    FrameShape(first, tail);
    JoinCons(",", tail);
    JoinCons(first, a);
    JoinCons("", b);
    RestShape(rest);
    JoinCons("", tail);
    QuoteConcat(first, t);
  }

  lemma FrameShape(first: string, tail: seq<string>)
    ensures ["", first, ","] + tail == [""] + ([first] + ([","] + tail))
  {
  }

  lemma RestShape(rest: seq<string>)
    requires |rest| >= 1 && rest[0] == ""
    ensures rest == [""] + rest[1..]
  {
  }

  /** Joining a non-empty list after a first part. */
  lemma JoinCons(first: string, rest: seq<string>)
    requires |rest| >= 1
    ensures Join([first] + rest, "\"") == first + "\"" + Join(rest, "\"")
  {
    assert ([first] + rest)[1..] == rest;
  }

  lemma QuoteConcat(first: string, t: string)
    ensures "" + "\"" + (first + "\"" + ("," + "\"" + t)) == Quote(first) + "," + ("" + "\"" + t)
  {
  }

  /** The cells of a CSV line read back: the parts between quotes. */
  function ReadCsvLine(line: string): seq<string> {
    var parts := Split(line, '"');
    seq((|parts| - 1) / 2, k requires 0 <= k < (|parts| - 1) / 2 => parts[2 * k + 1])
  }

  /** A line reads back as its cells, as long as no cell holds a quote. */
  lemma CsvLineRoundTrip(cells: seq<string>)
    requires |cells| >= 1
    requires forall k :: 0 <= k < |cells| ==> '"' !in cells[k]
    ensures ReadCsvLine(Join(QuoteAll(cells), ",")) == cells
  {
    QuotedLineFrame(cells);
    var frame := QuoteFrame(cells);
    forall k | 0 <= k < |frame|
      ensures '"' !in frame[k]
    {
      FrameParts(cells, k);
    }
    SplitJoin(frame, '"');
  }

  lemma {:induction false} FrameParts(cells: seq<string>, k: nat)
    requires |cells| >= 1 && k < 2 * |cells| + 1
    requires forall j :: 0 <= j < |cells| ==> '"' !in cells[j]
    ensures '"' !in QuoteFrame(cells)[k]
  {
    if |cells| > 1 && k >= 3 {
      assert QuoteFrame(cells)[k] == QuoteFrame(cells[1..])[k - 2];
      FrameParts(cells[1..], k - 2);
    }
  }
}
