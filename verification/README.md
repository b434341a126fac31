# ByteProbe forensic core in Dafny

This project models the byte, string and record processing at the centre of
ByteProbe, a disk-image forensics tool. The parts modelled are:

- **Signature registry** (`Signatures`). The fixed table of header/footer
  patterns and size caps, case-insensitive lookup, and `identify_file_type`.
  Identification tries primary headers first, then alternative headers, then
  a printable-text fallback.
- **Carving engine** (`Carver`).
  - The scan reads the image in 1 MiB chunks. Each search buffer is the last
    1024 bytes of the previous buffer followed by the new chunk.
  - Every header occurrence is mapped back to an absolute image offset.
  - From each hit, the carver reads forward up to the signature's cap and
    stops just after the first footer.
  - Carves shorter than 512 bytes are dropped.
  - The smart carver adds JPEG and PDF structural checks.
- **Timestamp anomaly analyzer** (`Timestamps`).
  - Five per-file rules: missing, identical to the second, created after
    modified, zero sub-second part, and in the future.
  - Confidence is the additive weight of the rules that fire, capped at 1.0.
  - The directory pass, the grouping by modification second, and the report's
    top-ten ordering.
- **Hash service** (`HashVerifier`): algorithm filtering, hashing with an
  abstract digest, the store keyed on (path, source type), integrity
  verification, the batch pass, hash-set comparison, and the CSV export.
- **File-system walker** (`FileSystemParser`):
  - child paths and the `.`/`..` skip;
  - entry creation, which yields None when a timestamp cannot be converted;
  - a pre-order walk that enters only directories that are not deleted;
  - partition conversion from sectors to bytes, with the whole-disk fallback;
  - file content;
  - the mock parser.
- **Case bookkeeping** (`CaseManager`): case-name sanitising, and the
  recent-cases list (de-duplicated by path, most recent first, at most ten).
- **File-system viewer helpers** (`FileSystemViewer`):
  - the search/type/size filter and the recursive visibility of tree items;
  - tree-item paths;
  - the 16-bytes-per-line hexadecimal preview;
  - the exported file list: its path order and the nine cells of each row.
- **Shared modules.**
  - `FileEntries` holds the shared `FileEntry` record.
  - `Wrappers`, `Bytes`, `Text` and `Sorting` model the Python built-ins the
    code relies on: slicing, `find`, `lower`, `isalnum`, `rstrip`, `join`,
    `split`, hexadecimal formatting and `sorted`.

**Representation.**
- Bytes are integers 0..255.
- Timestamps are integer microseconds.
- Confidence is kept in integer tenths: the weights 0.4/0.3/0.2/0.5 become
  4/3/2/5 and the cap becomes 10.

**Parameters.** Each of these is a parameter of the model:
- the clock reading;
- the digest function standing for hashlib;
- the file-name timestamp and the MD5 of carved files;
- whether a carved file can be written;
- the row a path-only SQLite query returns;
- which raw times `datetime.fromtimestamp` accepts.

**Scope.** The image is a byte sequence, the file system is a tree of nodes
and the hash database is a map. The carver model follows the code:
- it never consults the alternative-header table;
- it does not remove hits found a second time in the retained 1024-byte tail.

## Model

| member | source | states |
|---|---|---|
| FileEntries.NewFileEntry | core/interfaces/image_parser.py:10-24 | A fresh entry has an empty name and path, and size 0. It is neither a directory nor deleted. Its three timestamps, MFT entry and parent MFT are absent. Its attributes and children are empty. |
| Signatures.MakeSignature | core/forensics/file_signatures.py:6-15 | A signature keeps its extension, header and footer. Its cap is the given one when that is neither missing nor 0, and 100 MiB otherwise. The cap is never 0. |
| Signatures.RegistryCapsAsGiven | core/forensics/file_signatures.py:22-93 | Each registry entry is what the constructor builds from its listed cap. The caps are 50, 50, 20, 500, 100, 100, 1024, 4096, 500 and 10 MiB, in table order. |
| Signatures.RegistryFacts | core/forensics/file_signatures.py:22-93 | Registry keys are distinct and lower case, and each equals its signature's extension. Only `txt` has an empty header. Every cap is positive. No header is longer than the 1024-byte retained tail. |
| Signatures.AlternativePairsFlatten | core/forensics/file_signatures.py:96-101 | The (type, header) pairs visited by the nested loops over the alternative table are exactly that table, flattened in order. |
| Signatures.AlternativeTypesRegistered | core/forensics/file_signatures.py:96-101 | Every type in the alternative-header table is a registry key. |
| Signatures.Lookup | core/forensics/file_signatures.py:104-106 | A dictionary `get`: absent exactly when no entry has the key; otherwise the value stored under the key. |
| Signatures.GetSignature | core/forensics/file_signatures.py:104-106 | A signature is found exactly when the lower-cased type is a registry key, and the signature found carries that lower-cased extension. |
| Signatures.SupportedTypesAreSignatures | core/forensics/file_signatures.py:136-138 | Every supported type is found again by `get_signature` under its own extension, and the capitalisation of the query does not matter. |
| Signatures.FirstPrimary | core/forensics/file_signatures.py:119-121 | The index found is the first registry entry whose non-empty header begins the data. When none is found, no entry matches. |
| Signatures.FirstAlternative | core/forensics/file_signatures.py:124-127 | The index found is the first alternative header that begins the data. When none is found, no alternative header matches. |
| Signatures.IdentifyFileType | core/forensics/file_signatures.py:109-133 | Any type identified is a registry key. |
| Signatures.IdentifyByPrimary | core/forensics/file_signatures.py:116-121 | When entry i is the first whose header begins `data[:size_limit]`, the result is its key. |
| Signatures.IdentifyByAlternative | core/forensics/file_signatures.py:123-127 | When no primary header matches, the first matching alternative header decides the type. |
| Signatures.IdentifyByText | core/forensics/file_signatures.py:129-133 | When no header matches, the result is `txt` exactly when the first 100 inspected bytes are printable ASCII, tab, LF or CR; otherwise it is None. |
| Signatures.PkDataIsDocx | core/forensics/file_signatures.py:119-121 | Data starting with a PK zip header is identified as `docx`, never as `xlsx` or `zip`. |
| Signatures.Gif89aIsGifByAlternative | core/forensics/file_signatures.py:119-127 | GIF89a data matches no primary header, yet the alternative table identifies it as `gif`. |
| Signatures.EmptyDataIsText | core/forensics/file_signatures.py:130-131 | Empty data is identified as `txt`. |
| Carver.Read | core/forensics/file_carver.py:73 | A read never returns more than was asked for. It is exactly that long when the range lies inside the image. |
| Carver.Tail | core/forensics/file_carver.py:82 | `buffer[-1024:]` is a suffix of the buffer of length min(len, 1024). |
| Carver.SelectFrom | core/forensics/file_carver.py:41-42 | The selection holds only requested registry entries, each type at most once. Every requested known type is selected. |
| Carver.SelectFromOrder | core/forensics/file_carver.py:41-42 | Selected types come in the order of their first mention in the request: of two selected types, the one named first comes first. |
| Carver.SelectSignatures | core/forensics/file_carver.py:40-48 | A missing or empty type list selects the whole registry, in registry order. Otherwise exactly the requested known types are selected, each with its registry entry, distinct, and each with the extension matching its key. |
| Carver.SelectSignaturesOrder | core/forensics/file_carver.py:40-44 | With a non-empty type list, the selected signatures come in the order their types are first named. |
| Carver.Positions | core/forensics/file_carver.py:90-107 | The repeated `find(header, pos)` / `pos += 1` loop visits exactly the header occurrences from its start, in increasing order. |
| Carver.SignatureHitsSound | core/forensics/file_carver.py:89-97 | Each hit of a signature in a buffer is an occurrence of its header there, shifted by the buffer's image offset. |
| Carver.SignatureHitsComplete | core/forensics/file_carver.py:89-97 | Every occurrence of a signature's header in the buffer gives a hit at the shifted offset. |
| Carver.HeaderHits | core/forensics/file_carver.py:85-107 | The hits of one signature in one buffer are sound and complete. A signature without a header has none. |
| Carver.BufferHits | core/forensics/file_carver.py:85-107 | The hits of all selected signatures in one buffer are sound and complete. |
| Carver.WindowStart | core/forensics/file_carver.py:82 | The buffer of a chunk starts at most 1024 bytes before the chunk, and exactly 1024 bytes before once the scan is that far in. |
| Carver.WindowEnd | core/forensics/file_carver.py:73 | A chunk ends after its start, inside the image, at most 1 MiB on, and exactly 1 MiB on when the image is long enough. |
| Carver.OccursInWindow | core/forensics/file_carver.py:92-97 | A header occurs at position p of the buffer exactly when it occurs in the image at the buffer's start offset plus p. |
| Carver.WindowHitsInImage | core/forensics/file_carver.py:92-97 | Every computed `file_offset` of a buffer is a real occurrence of the header in the image. |
| Carver.HitInWindow | core/forensics/file_carver.py:82-97 | A header occurrence lying wholly inside a buffer is reported at its absolute offset. |
| Carver.ScanFrom | core/forensics/file_carver.py:70-114 | Every hit of the scan is a header occurrence in the image, of a selected signature. |
| Carver.ScanFromStep | core/forensics/file_carver.py:70-114 | One scan step reports the hits of the current buffer, then those of the rest of the scan. |
| Carver.RetainedTail | core/forensics/file_carver.py:82 | The retained 1024-byte tail is exactly the image bytes just before the current chunk. |
| Carver.WindowKeepsInvariant | core/forensics/file_carver.py:82 | The new buffer leaves the scan invariant in place for the next chunk. |
| Carver.ScanStep | core/forensics/file_carver.py:82 | `buffer[-1024:] + chunk` is the image slice from the buffer start to the chunk end. |
| Carver.ScanFindsOccurrence | core/forensics/file_carver.py:70-114 | An occurrence of a selected header (at most 1024 bytes long) that ends after the current offset is reported by the rest of the scan. |
| Carver.ScanFindsEveryOccurrence | core/forensics/file_carver.py:70-114 | Every occurrence in the image of a selected header is reported by the whole scan. |
| Carver.RetainedTailHitTwice | core/forensics/file_carver.py:82-107 | An occurrence that lies wholly in the retained tail of the next buffer is reported twice. Hits are not de-duplicated. |
| Carver.ReadExtends | core/forensics/file_carver.py:139-147 | Reading on from where a read stopped extends it: the two reads together are one longer read. |
| Carver.ReadPrefix | core/forensics/file_carver.py:139-147 | A shorter read from the same offset is a prefix of a longer one. |
| Carver.CarveExtent | core/forensics/file_carver.py:134-157 | A carve never holds more bytes than the signature's cap. |
| Carver.CarveExtentSpec | core/forensics/file_carver.py:134-157 | The carved data is a prefix of the image from the hit, within the cap. With a footer found, the data ends with the footer and its first occurrence is at that end. Without one, the data is the whole capped stretch and contains no occurrence of a non-empty footer. |
| Carver.CarveStopsAtFooter | core/forensics/file_carver.py:149-155 | Once the data read so far contains the footer, the carve is that data cut just after the footer's first occurrence, with the footer found. |
| Carver.CarveReadsAll | core/forensics/file_carver.py:134-157 | A capped read that never meets the footer is the whole carve, without a footer. |
| Carver.CarveReadStep | core/forensics/file_carver.py:134-136 | Each carve step reads a positive amount and stays within the cap. |
| Carver.CarveReadExit | core/forensics/file_carver.py:134-157 | When the read loop ends without finding the footer, the data read is the whole carve. |
| Carver.CarveRead | core/forensics/file_carver.py:127-157 | The chunked read loop of `_carve_single_file` yields exactly the closed-form extent and footer flag. |
| Carver.CarveName | core/forensics/file_carver.py:168-170 | The file name is `carved_<timestamp>_`, then the first 8 characters of the md5 hex digest of the data's first 1024 bytes, then `.` and the extension. |
| Carver.CarveNameTag | core/forensics/file_carver.py:168-170 | When the digest is a 32-character lower-case hex string, the 8 characters between `carved_<timestamp>_` and `.` are hex digits and are the digest's first 8. |
| Carver.CarveSingle | core/forensics/file_carver.py:124-191 | A carve yields a record exactly when its data is at least 512 bytes and the file can be written. A returned record holds the carved bytes; size is the data length; offset is the hit; type is the extension; the footer flag is the extent's; md5 is of the data; the file name is the `carved_<timestamp>_<md5 tag>.<ext>` name; the path is the output directory joined with that name. |
| Carver.SmartCarveSingle | core/forensics/file_carver.py:201-220 | The smart carver returns exactly the basic carves whose content passes the structural check for their type. |
| Carver.SmartPassesOtherTypes | core/forensics/file_carver.py:206-220 | Types other than jpg, jpeg and pdf pass the smart carver unchanged. |
| Carver.CarveStartsWithHeader | core/forensics/file_carver.py:134-147 | Carved data that is at least as long as the header begins with the header at the hit. |
| Carver.JpegWithFooterIsValid | core/forensics/file_carver.py:222-235 | A JPEG carved from a header hit whose FF D9 footer was found passes the JPEG check (FF D8 … FF D9). |
| Carver.PdfFromHitIsValid | core/forensics/file_carver.py:237-248 | A PDF carved from a header hit always passes the `%PDF` check. |
| Carver.CarverSound | core/forensics/file_carver.py:178-187 | Whatever either carver returns for a hit has the hit's offset and type, and at least 512 bytes. |
| Carver.HitRecords | core/forensics/file_carver.py:104-105 | A hit adds at most one record: exactly one when it carves, and then the carve's record. |
| Carver.CarveAllFromHits | core/forensics/file_carver.py:99-105 | Every record in the carved list comes from some hit of the scan. |
| Carver.CarveAllAppend | core/forensics/file_carver.py:99-105 | Carving two runs of hits in turn carves their concatenation. |
| Carver.CarveAllAt | core/forensics/file_carver.py:99-105 | The carved list is the records of the hits before a hit, then that hit's record if it carves, then the records of the hits after it. So a hit that carves has its record in the list. |
| Carver.CarvedFiles | core/forensics/file_carver.py:40-53 | With no known signature selected, or an image that fails to open, nothing is carved. |
| Carver.CarvedFilesOfImage | core/forensics/file_carver.py:40-105 | On an image that opens, the carved files are the carve of every scan hit in order. With no signature selected there are no hits. |
| Carver.CarvedFilesComplete | core/forensics/file_carver.py:85-105 | Every scan hit of a selected signature that carves successfully has its record among the carved files. |
| Carver.CarvedAtHeaders | core/forensics/file_carver.py:22-122 | Every carved record is at least 512 bytes long and starts at an occurrence, in the image, of the header of a selected signature of its own type. |
| Carver.ScanHitSelected | core/forensics/file_carver.py:85-97 | Each scan hit is an occurrence of the header of one of the selected signatures. |
| Carver.CarveHits | core/forensics/file_carver.py:99-105 | Carving the hits one by one, as they are found, gives the list of their records in hit order. |
| Carver.CarveFiles | core/forensics/file_carver.py:22-122 | `carve_files` returns the records of the closed-form carve: selection, scan, then carving in hit order. |
| Carver.CarveScan | core/forensics/file_carver.py:62-114 | The chunk loop, carving each hit as soon as it is found, returns the carve of every scan hit in order. |
| Timestamps.TruncSecond | core/forensics/timestamp_analyzer.py:98 | Truncating to the second yields the start of the second holding the timestamp, which has no sub-second part. |
| Timestamps.TruncSecondSame | core/forensics/timestamp_analyzer.py:98-99 | Two timestamps truncate to the same value exactly when they fall in the same second. |
| Timestamps.AllPresentCount | core/forensics/timestamp_analyzer.py:41 | All three timestamps are present exactly when three are listed, and they are then created, modified and accessed, in that order. |
| Timestamps.CheckIdentical | core/forensics/timestamp_analyzer.py:89-99 | The identical check holds exactly when at least two timestamps are present and all agree to the second. |
| Timestamps.CheckOrder | core/forensics/timestamp_analyzer.py:101-114 | The order anomaly (medium) is raised exactly when both created and modified are present and created is later, at full precision. |
| Timestamps.CheckPrecision | core/forensics/timestamp_analyzer.py:116-134 | A precision anomaly (medium) needs at least two timestamps. |
| Timestamps.FutureNames | core/forensics/timestamp_analyzer.py:147-148 | The names listed are exactly those of the timestamps later than the threshold. |
| Timestamps.CheckFuture | core/forensics/timestamp_analyzer.py:136-157 | The future anomaly (high) is raised exactly when some timestamp is later than now plus one day. Its description names the offending timestamps. |
| Timestamps.IdenticalMatchesRule | core/forensics/timestamp_analyzer.py:89-99 | With all three timestamps present, the identical check holds exactly when the three agree to the second. |
| Timestamps.PrecisionMatchesRule | core/forensics/timestamp_analyzer.py:116-134 | With all three timestamps present, the precision anomaly is raised exactly when none of them has a sub-second part. |
| Timestamps.FutureMatchesRule | core/forensics/timestamp_analyzer.py:136-157 | With all three present, the future anomaly is raised exactly when one of them is later than now plus one day. |
| Timestamps.HeldKindsOrdered | core/forensics/timestamp_analyzer.py:49-74 | Rules that hold are listed in the fixed order identical, order, precision, future. |
| Timestamps.HeldKindsMembers | core/forensics/timestamp_analyzer.py:49-74 | An anomaly kind is listed exactly when its rule holds. |
| Timestamps.HeldKindsWeight | core/forensics/timestamp_analyzer.py:56-74 | The weight of the listed rules is the sum of 4, 3, 2 and 5 over the rules that hold. |
| Timestamps.ChecksMatchRules | core/forensics/timestamp_analyzer.py:49-74 | The anomalies raised are the rules that hold, in order, and the uncapped confidence is their total weight. |
| Timestamps.AnalyzeTimestamps | core/forensics/timestamp_analyzer.py:33-87 | The result names the file's path, and its confidence is at most 1.0. A missing timestamp gives exactly one low `missing_timestamps` anomaly, confidence 0 and no details. Otherwise the details carry the three timestamps and the MFT entry. |
| Timestamps.AnalyzeFiresIff | core/forensics/timestamp_analyzer.py:49-77 | With all timestamps present, an anomaly kind is reported exactly when its rule fires, at most once, and in the fixed order. The confidence is min(total weight, 1.0). |
| Timestamps.ConfidenceCap | core/forensics/timestamp_analyzer.py:56-77 | Identical plus future plus either other anomaly reaches the 1.0 cap. |
| Timestamps.SuspiciousIff | core/forensics/timestamp_analyzer.py:41-74 | A file has an anomaly exactly when a timestamp is missing or one of the four rules holds. |
| Timestamps.AnalyzeFiles | core/forensics/timestamp_analyzer.py:169-175 | The analyses are exactly those of the entries that are not directories. |
| Timestamps.AnalyzeFilesAppend | core/forensics/timestamp_analyzer.py:169-175 | Analysing two runs of entries laid end to end analyses each in turn, so the analyses keep the entries' order. |
| Timestamps.AnalyzeFilesOne | core/forensics/timestamp_analyzer.py:169-175 | A single entry gives no analysis when it is a directory, and its own analysis otherwise. |
| Timestamps.SuspiciousOf | core/forensics/timestamp_analyzer.py:173-174 | The suspicious list holds exactly the analyses with at least one anomaly. |
| Timestamps.SuspiciousOfAppend | core/forensics/timestamp_analyzer.py:170-175 | The suspicious analyses of two runs are those of each in turn, so the list keeps the analysis order. |
| Timestamps.ConfidenceSum | core/forensics/timestamp_analyzer.py:183-185 | The sum of confidences is at least each one of them, and at most 1.0 per analysis unless some confidence exceeds the cap. |
| Timestamps.ConfidenceSumAppend | core/forensics/timestamp_analyzer.py:183-185 | The sum over two runs of analyses is the sum of the two sums. |
| Timestamps.ConfidenceSumOne | core/forensics/timestamp_analyzer.py:183-185 | The sum of a single analysis is its confidence. |
| Timestamps.MaxConfidence | core/forensics/timestamp_analyzer.py:186 | The maximum confidence bounds every analysis and is attained by one. |
| Timestamps.AddToGroup | core/forensics/timestamp_analyzer.py:199-203 | Adding a path appends it to its group, or opens a new group at the end. Other groups and the key order are untouched, and keys stay distinct. |
| Timestamps.GroupByModified | core/forensics/timestamp_analyzer.py:197-203 | The groups have distinct keys. |
| Timestamps.GroupsHoldPaths | core/forensics/timestamp_analyzer.py:197-203 | Each group holds exactly the paths, in entry order, of the entries modified in its second. |
| Timestamps.GroupKeysPresent | core/forensics/timestamp_analyzer.py:197-203 | There is a group for a second exactly when some entry was modified in it. |
| Timestamps.GroupPattern | core/forensics/timestamp_analyzer.py:206-214 | A group yields a pattern exactly when it has more than three paths. The pattern records the group's second, its size and its first min(5, size) paths. |
| Timestamps.PatternsOf | core/forensics/timestamp_analyzer.py:206-214 | The patterns are exactly those of the groups that yield one. |
| Timestamps.PatternIff | core/forensics/timestamp_analyzer.py:192-216 | A `mass_timestamp` pattern exists for a second exactly when more than three entries were modified in it. It counts them all and samples the first five in entry order. |
| Timestamps.PatternOfPaths | core/forensics/timestamp_analyzer.py:192-216 | Every pattern found covers more than three entries of its second. Its count is theirs, and its sample is their first min(5, n) paths. |
| Timestamps.PathsHavePattern | core/forensics/timestamp_analyzer.py:192-216 | A second in which more than three entries were modified has a pattern. |
| Timestamps.AnalyzeDirectory | core/forensics/timestamp_analyzer.py:159-190 | `total_files` counts every entry, directories included. `suspicious_files` is the suspicious analyses of the non-directory entries, and `patterns` is the pattern search over all entries. Statistics are absent exactly when nothing was analysed. Otherwise they count the analyses and the suspicious files, and hold the sum and maximum of the confidences. |
| Timestamps.AnalyzedIffFile | core/forensics/timestamp_analyzer.py:169-175 | Some entry is analysed exactly when some entry is not a directory. |
| Timestamps.AnalyzeDirectoryFacts | core/forensics/timestamp_analyzer.py:159-190 | A report is suspicious exactly when it is the analysis, with an anomaly, of some non-directory entry. Statistics are absent exactly when every entry is a directory. Otherwise 0 < analysed <= entries, the maximum is at most 1.0 and the sum at most 1.0 per analysis. |
| Timestamps.ByConfidenceDescOrders | core/forensics/timestamp_analyzer.py:245-246 | Descending confidence is a total, transitive order. |
| Timestamps.TopSuspicious | core/forensics/timestamp_analyzer.py:242-248 | The top list has min(10, n) files, a sub-multiset of the suspicious ones, so none is listed more often than it is suspicious. They are in non-increasing confidence, and none left out is more confident than one listed. |
| Timestamps.TopSuspiciousWhole | core/forensics/timestamp_analyzer.py:242-248 | Ten or fewer suspicious files are listed whole: the top list is a permutation of them. |
| Timestamps.TopOfSorted | core/forensics/timestamp_analyzer.py:245-248 | The first n of the descending sort are a sub-multiset of the suspicious files, and at least as confident as any file left out. |
| HashVerifier.SupportedAreLower | core/forensics/hash_verifier.py:15 | Every supported algorithm name is already lower case. |
| HashVerifier.KeepSupported | core/forensics/hash_verifier.py:65 | The kept names are exactly the supported algorithms that some requested name lower-cases to. |
| HashVerifier.KeepSupportedIdempotent | core/forensics/hash_verifier.py:65 | Filtering an already filtered list changes nothing. |
| HashVerifier.KeepSupportedAppend | core/forensics/hash_verifier.py:65 | Filtering two lists laid end to end filters each in turn, so the filter keeps the requested order. |
| HashVerifier.SelectAlgorithms | core/forensics/hash_verifier.py:61-65 | Without a list the defaults md5 and sha256 are selected. A given list is filtered to the supported algorithms it names, in its order, lower-cased. Every selected name is supported. |
| HashVerifier.DefaultSelection | core/forensics/hash_verifier.py:61-65 | The default list survives the filter unchanged. |
| HashVerifier.DataHash | core/forensics/hash_verifier.py:92-105 | The result's keys are exactly the selected algorithms, each mapped to that algorithm's digest of the data. |
| HashVerifier.Chunks | core/forensics/hash_verifier.py:76-81 | The 64 KiB reads are non-empty, at most the chunk size, and together make up the file. |
| HashVerifier.FileHash | core/forensics/hash_verifier.py:50-90 | Hashing fails exactly when the file cannot be read. A missing file gives "File not found: <path>", and an unreadable one gives "Error reading file <path>: <reason>". Otherwise the result is the data hash of the file's content. |
| HashVerifier.OpenStore | core/forensics/hash_verifier.py:17-22 | A store has a database exactly when a non-empty case path is given. Its path is the case path joined with `file_hashes.db`, and it holds the rows already on disk. Without a case the store is empty. |
| HashVerifier.StoreFileHash | core/forensics/hash_verifier.py:107-142 | Without a database the store is unchanged and the result is False. Otherwise the (path, source type) key is added or replaced, with the given digests (absent ones null), the file size and the clock reading; every other record is unchanged. |
| HashVerifier.GetFileHash | core/forensics/hash_verifier.py:144-174 | Nothing is returned without a database or for an unknown key. Otherwise the stored record's time is returned, and each supported algorithm's digest as stored: present or absent alike. |
| HashVerifier.StoreThenGet | core/forensics/hash_verifier.py:107-174 | Reading a key just stored returns the digests just stored. |
| HashVerifier.StoreKeepsOthers | core/forensics/hash_verifier.py:120-134 | Storing one key leaves what every other key reads unchanged. |
| HashVerifier.StoreIdempotent | core/forensics/hash_verifier.py:120-134 | Storing the same digests twice is the same as storing them once. |
| HashVerifier.VerifyFileIntegrity | core/forensics/hash_verifier.py:176-198 | An unreadable file raises its read error. Otherwise the result covers exactly the expected keys, all False for a missing file. For a readable file a key is True exactly when it is a lower-case supported name whose digest equals the expected one, ignoring case. |
| HashVerifier.UpperCaseNameNeverVerifies | core/forensics/hash_verifier.py:187-196 | An expected digest under "MD5" is reported False even when it is the file's own md5 digest. |
| HashVerifier.VerifyFileIntegrityAnyCase | core/forensics/hash_verifier.py:176-198 | As verify, but each expected name is looked up lower-cased, so a key is True exactly when its lower-cased name is supported and the digests agree, ignoring case. |
| HashVerifier.AnyCaseVerifiesOwnDigest | core/forensics/hash_verifier.py:187-196 | The corrected check agrees with the code on lower-case names, and verifies a file against its own digests whatever the spelling of the algorithm names. |
| HashVerifier.Requested | core/forensics/hash_verifier.py:187-188 | The algorithms hashed for a check are exactly the supported names that some expected key lower-cases to. |
| HashVerifier.OutcomeError | core/forensics/hash_verifier.py:209-223 | A path's batch result holds an "error" entry exactly when the file is missing or unreadable. |
| HashVerifier.ProgressBefore | core/forensics/hash_verifier.py:210-212 | Before file k the progress callback receives k, the total and `Hashing: ` followed by that file's base name, once per file in order. |
| Text.Basename | core/forensics/hash_verifier.py:212 | The base name is the end of the path after its last `/`, or the whole path when it has none, and holds no `/`. |
| HashVerifier.StoreInBatch | core/forensics/hash_verifier.py:217-219 | Storing during the batch keeps the database. With a database the path gains a row under `file_system`, and reading it back gives the new digests and clock reading. Every other key reads as before; without a database nothing changes. |
| HashVerifier.BatchOutcomesFacts | core/forensics/hash_verifier.py:206-223 | The batch has one result per input path, and each is that path's outcome. |
| HashVerifier.BatchStoreFacts | core/forensics/hash_verifier.py:217-219 | Storing the batch leaves a store without a database unchanged. Otherwise it adds exactly the batch paths that can be read. |
| HashVerifier.BatchStoreKeepsCase | core/forensics/hash_verifier.py:217-219 | The batch keeps the store's database, or the lack of one. |
| HashVerifier.BatchStoreReads | core/forensics/hash_verifier.py:216-219 | With a database, every readable path of the batch reads back, under `file_system`, the digests of its content and the batch's clock reading. |
| HashVerifier.BatchStoreReadsAt | core/forensics/hash_verifier.py:216-219 | The same read-back for one readable path of the batch: a later path overwrites only its own key. |
| HashVerifier.BatchStoreKeepsOthers | core/forensics/hash_verifier.py:216-219 | A key the batch does not write reads after the batch what it read before. |
| HashVerifier.BatchCalculateHashes | core/forensics/hash_verifier.py:200-228 | There is one result per path: the digests, or an error exactly for a file that cannot be read. Progress is reported before each file with its base name, and (total, total, "Hash calculation complete") at the end. With a case open, the store gains exactly the readable paths, each reading back its digests. Every other key reads as before. |
| HashVerifier.CompareOne | core/forensics/hash_verifier.py:301-318 | Without a stored row the result is `not_found`. Otherwise md5 decides when expected, else sha256, and the result is `match` only for a present, non-empty stored digest equal ignoring case. With neither expected there is no result. |
| HashVerifier.CompareHashSets | core/forensics/hash_verifier.py:278-325 | No results without a case. Otherwise each path of the other set appears exactly when it gets a decision, and carries that decision. |
| HashVerifier.CompareNotFoundIff | core/forensics/hash_verifier.py:301-318 | A path is `not_found` exactly when no stored record has that path. |
| HashVerifier.ByCalculatedAtOrders | core/forensics/hash_verifier.py:243 | Ordering by `calculated_at` text is total and transitive. |
| HashVerifier.ExportRows | core/forensics/hash_verifier.py:239-246 | The exported rows are a permutation of the table, as many as it has, ordered by `calculated_at`. |
| HashVerifier.SizeCell | core/forensics/hash_verifier.py:253 | The size cell is empty exactly when the size is 0 (a falsy cell). |
| HashVerifier.ExportCsv | core/forensics/hash_verifier.py:249-253 | The CSV is the fixed header line followed by one line per exported row, in export order. |
| HashVerifier.CsvBodyAppend | core/forensics/hash_verifier.py:251-253 | The lines of two runs of rows are the lines of each in turn. |
| HashVerifier.CsvBodyAt | core/forensics/hash_verifier.py:251-253 | Row i's line sits between the lines of the rows before it and those after it. |
| HashVerifier.ExportCsvLines | core/forensics/hash_verifier.py:239-253 | Row i of the export is written as its own quoted line after the header and the lines of rows 0..i-1, and no earlier row has a later `calculated_at`. |
| HashVerifier.QuoteAll | core/forensics/hash_verifier.py:253 | Each cell is wrapped in double quotes, one quoted cell per cell. |
| HashVerifier.CsvLineRoundTrip | core/forensics/hash_verifier.py:253 | A line of double-quoted, comma-joined cells reads back as the cells, provided no cell holds a quote. |
| FileSystemParser.ChildPath | core/parsers/pytsk_parser.py:192 | A child path is the parent with trailing slashes removed, then "/", then the name. |
| FileSystemParser.RawTime | core/parsers/pytsk_parser.py:204-209 | A raw timestamp is absent exactly when it is 0. Otherwise it is that many whole seconds. Whether the conversion succeeds is decided separately, by `fits`. |
| FileSystemParser.CreateFileEntry | core/parsers/pytsk_parser.py:185-219 | The entry is None exactly when there is metadata and one of its non-zero times does not fit (the conversion raises). Otherwise it is the built entry. |
| FileSystemParser.BuildEntry | core/parsers/pytsk_parser.py:188-215 | The entry carries the node's name and child path. Without metadata it keeps the defaults. With metadata: a directory exactly when the type is DIR; deleted exactly when the UNALLOC bit is set; each time present exactly when non-zero; size and MFT entry taken from the metadata. |
| FileSystemParser.ListEntries | core/parsers/pytsk_parser.py:107-130 | A listing is no longer than the directory and never contains `.` or `..`. Each entry's path is its child path. Every other node whose entry can be created is listed, with that entry. |
| FileSystemParser.ListEntriesFromNodes | core/parsers/pytsk_parser.py:118-125 | Every listed entry is the created entry of some node of the directory other than `.` and `..`. |
| FileSystemParser.ListEntriesAppend | core/parsers/pytsk_parser.py:118-125 | Listing two runs of nodes laid end to end lists each in turn, so the listing keeps the directory's order. |
| FileSystemParser.UncreatableNotListed | core/parsers/pytsk_parser.py:123-125 | A node whose entry comes back None adds nothing to the listing. |
| FileSystemParser.WalkFileSystem | core/parsers/pytsk_parser.py:151-154 | Without an open file system the walk yields nothing. |
| FileSystemParser.WalkIsPreOrder | core/parsers/pytsk_parser.py:156-167 | Every entry of the walk is a child of the start directory, or of an earlier entry of the walk. |
| FileSystemParser.WalkSkipsDots | core/parsers/pytsk_parser.py:119-121 | No entry of the walk is named `.` or `..`. |
| FileSystemParser.WalkStartsWithListing | core/parsers/pytsk_parser.py:158-161 | The walk starts with the first entry of the root listing. |
| FileSystemParser.WalkFileSystemFacts | core/parsers/pytsk_parser.py:151-172 | The whole walk from "/" is in pre-order and has no dot entries. |
| FileSystemParser.DeletedDirectoryNotEntered | core/parsers/pytsk_parser.py:164 | At any index, a deleted entry is yielded, and the walk moves straight on to the next sibling without entering it. |
| FileSystemParser.UncreatableSubtreeDropped | core/parsers/pytsk_parser.py:123-125 | A node whose entry comes back None is skipped with everything below it. |
| FileSystemParser.WalkListsEveryNode | core/parsers/pytsk_parser.py:156-167 | Every node of a directory other than `.` and `..` whose entry can be created is yielded by the walk. |
| FileSystemParser.WalkEntersLiveDirectories | core/parsers/pytsk_parser.py:162-167 | Everything the walk yields below a live directory whose entry can be created is part of the walk of its parent. |
| FileSystemParser.ToBytes | core/parsers/pytsk_parser.py:69-70 | Partition start and length are sector counts times 512. |
| FileSystemParser.LiveParts | core/parsers/pytsk_parser.py:64-73 | The partitions listed are exactly the byte conversions of the volume entries of non-zero length. |
| FileSystemParser.LivePartsAppend | core/parsers/pytsk_parser.py:64-73 | The partitions of two runs of table entries are those of each in turn, so the table's order is kept. |
| FileSystemParser.GetPartitions | core/parsers/pytsk_parser.py:53-86 | There are no partitions without an image. Without a volume system there is one `Whole Disk` partition covering the image. Otherwise the partitions are exactly the table's non-empty entries converted to bytes, each with a positive length and sector-aligned start and length. |
| FileSystemParser.GetFileContent | core/parsers/pytsk_parser.py:132-149 | There is no content exactly without a file system or metadata. Otherwise the content is the first `size` bytes of the file data: all of it when shorter, nothing for a non-positive size. |
| FileSystemParser.MockOpen | core/parsers/pytsk_parser.py:246-248 | The mock opens exactly when the image file exists. |
| FileSystemParser.MockClose | core/parsers/pytsk_parser.py:282-283 | After closing, the mock is not open. |
| FileSystemParser.MockPartitions | core/parsers/pytsk_parser.py:250-253 | A closed mock has no partitions; an open one has a single 1 MiB partition at 0. |
| FileSystemParser.MockEntries | core/parsers/pytsk_parser.py:258-273 | A closed mock lists nothing. An open one lists exactly three files, of sizes 1024, 2048 and 3072. |
| FileSystemParser.MockEntryPath | core/parsers/pytsk_parser.py:266-267 | A mock entry listed under "/" has a path starting with "//", which is not the child path the real parser builds. |
| FileSystemParser.MockWalkPaths | core/parsers/pytsk_parser.py:278-280 | The mock's walk from "/" gives paths starting with "//", unlike the real parser's child paths. |
| FileSystemParser.MockClosedListsNothing | core/parsers/pytsk_parser.py:250-283 | After closing, the mock lists neither entries nor partitions. |
| FileSystemParser.MockContent | core/parsers/pytsk_parser.py:275-276 | The mock's content is the 17 ASCII bytes of "Mock file content", for any path. |
| CaseManager.KeepChars | core/case_manager.py:116 | The kept characters are exactly the input's alphanumerics, spaces, dots and underscores, and there are no more of them than input characters. |
| CaseManager.KeepCharsAppend | core/case_manager.py:116 | Filtering keeps the order of the name: filtering two texts laid end to end filters each in turn. |
| CaseManager.SpacesToUnderscores | core/case_manager.py:116 | Each space becomes an underscore, and nothing else changes. |
| CaseManager.SanitizeCaseName | core/case_manager.py:114-116 | The sanitised name is no longer than the input. It holds only alphanumerics, dots and underscores. Every character other than '_' comes from the input. |
| CaseManager.SanitizeFixedPoint | core/case_manager.py:116 | A name is left unchanged exactly when it already holds only alphanumerics, dots and underscores. |
| CaseManager.SanitizeIdempotent | core/case_manager.py:116 | Sanitising twice is sanitising once. |
| CaseManager.NoTrailingUnderscore | core/case_manager.py:116 | Trailing spaces are dropped before spaces become underscores, so a name without underscores never gets a trailing one. |
| CaseManager.FirstOccurrencesPaths | core/case_manager.py:125-131 | Keeping the first case per path gives distinct paths and loses no path. |
| CaseManager.FirstPositionsSound | core/case_manager.py:125-131 | The kept cases are, in increasing input position, cases that are the first with their path. |
| CaseManager.FirstPositionsComplete | core/case_manager.py:125-131 | Every case that is first with its path is kept. |
| CaseManager.FirstOccurrencesOfDistinct | core/case_manager.py:125-131 | A list with distinct paths is kept whole. |
| CaseManager.FirstOccurrencesSnoc | core/case_manager.py:127-130 | A further case is kept exactly when its path has not been seen. |
| CaseManager.GetRecentCases | core/case_manager.py:118-134 | Without a file, or with a file that is not valid JSON, there are no cases. Otherwise the loop keeps exactly the first case of each path, in order, and the paths are distinct. |
| CaseManager.Without | core/case_manager.py:141 | The remaining cases are exactly those with a different path. |
| CaseManager.WithoutDistinct | core/case_manager.py:141 | Removing a path keeps the paths distinct. |
| CaseManager.AddToRecentCases | core/case_manager.py:136-144 | The new list has 1 to 10 cases and is headed by the new case; no other case has its path. Without a stored list it is just the new case. |
| CaseManager.AddToRecentCasesKeepsOthers | core/case_manager.py:141-144 | The list has min(10, 1 + others) cases, where others are the earlier de-duplicated cases with other paths. After the head come those cases in their old order, cut to fit. |
| CaseManager.AddToRecentCasesDistinct | core/case_manager.py:138-144 | The new list's paths are distinct, so reading it back de-duplicates nothing. |
| FileSystemViewer.SearchHides | gui/widgets/file_system_viewer.py:485-497 | A non-empty search hides every entry whose lower-cased name does not contain the lower-cased text. |
| FileSystemViewer.SizeIgnoredForDirectories | gui/widgets/file_system_viewer.py:509-518 | The size filter never changes whether a directory is shown. |
| FileSystemViewer.EmptySearchShows | gui/widgets/file_system_viewer.py:494-520 | With no search text, an entry is shown exactly when it passes the type filter and is a directory or passes the size filter. |
| FileSystemViewer.ImageExtensionAnyCase | gui/widgets/file_system_viewer.py:490-503 | A name ending in `.jpg` in any letter case passes the Images filter. |
| FileSystemViewer.ItemPath | gui/widgets/file_system_viewer.py:332-341 | An item path always starts with "/". |
| FileSystemViewer.ItemPathChild | gui/widgets/file_system_viewer.py:334-341 | A child's path is its parent's path, "/", and its name. |
| FileSystemViewer.ItemPathSplits | gui/widgets/file_system_viewer.py:332-341 | Splitting an item path after the leading "/" gives back the names from the top-level item down, when no name holds a "/". |
| FileSystemViewer.FilterItem | gui/widgets/file_system_viewer.py:522-543 | An item is left untouched and reported invisible exactly when its path has no entry. Otherwise it is hidden exactly when not visible, and every child is evaluated. |
| FileSystemViewer.VisibleHasRoute | gui/widgets/file_system_viewer.py:522-543 | A visible item has a route of recorded items down to an entry that matches the filters. |
| FileSystemViewer.RouteMakesVisible | gui/widgets/file_system_viewer.py:522-543 | An item with such a route is visible. |
| FileSystemViewer.VisibleIffRoute | gui/widgets/file_system_viewer.py:522-543 | An item is visible exactly when it, or a descendant reached through recorded items, matches the filters. |
| FileSystemViewer.MatchShows | gui/widgets/file_system_viewer.py:530-540 | A recorded item that matches is visible. |
| FileSystemViewer.VisibleChildShowsParent | gui/widgets/file_system_viewer.py:533-540 | A recorded item with a visible child is visible. |
| FileSystemViewer.FilterTree | gui/widgets/file_system_viewer.py:545-547 | Every top-level item is filtered, starting from its own name. |
| FileSystemViewer.FilterTreeShows | gui/widgets/file_system_viewer.py:545-547 | A top-level item is left shown exactly when a matching item can be reached from it through items with known entries. |
| FileSystemViewer.LineBytes | gui/widgets/file_system_viewer.py:382 | A line holds 1 to 16 bytes of the content, taken from its offset on. |
| FileSystemViewer.AsciiChar | gui/widgets/file_system_viewer.py:384-387 | Bytes in 32..126 show as themselves; every other byte shows as '.'. |
| FileSystemViewer.AsciiColumn | gui/widgets/file_system_viewer.py:384-387 | The ASCII column has one character per byte. |
| FileSystemViewer.HexPreview | gui/widgets/file_system_viewer.py:376-390 | A preview is shown exactly when there is content. |
| FileSystemViewer.HexLinesCount | gui/widgets/file_system_viewer.py:380 | The preview has ceil(min(len, 512) / 16) lines, so at most 32. |
| FileSystemViewer.HexLineAt | gui/widgets/file_system_viewer.py:380-388 | Line k shows the bytes from offset 16k, which lies within the first 512 bytes. |
| FileSystemViewer.HexPairWidth | gui/widgets/file_system_viewer.py:382 | A `02x` byte is two hex digits that parse back to the byte. |
| FileSystemViewer.HexColumnLayout | gui/widgets/file_system_viewer.py:382 | The hex column fits in 47 characters, with byte j at position 3j, reading back to the byte. |
| FileSystemViewer.HexOffset | gui/widgets/file_system_viewer.py:388 | An `08x` offset within the preview is eight hex digits that parse back to the offset. |
| FileSystemViewer.HexLineReadsBack | gui/widgets/file_system_viewer.py:380-388 | Every preview line reads back: the offset in its first 8 characters; byte j at position 10+3j; two-space separators; the hex column padded to 48; the ASCII column from position 60. |
| FileSystemViewer.InsertKey | gui/widgets/file_system_viewer.py:459 | Inserting a new path into a strictly sorted list keeps it strictly sorted and adds exactly that path. |
| FileSystemViewer.ExportOrder | gui/widgets/file_system_viewer.py:459 | The export visits every recorded path exactly once, in strictly increasing order. |
| FileSystemViewer.ExportRow | gui/widgets/file_system_viewer.py:460-468 | A row starts with the quoted path and name, and ends the line. |
| FileSystemViewer.ExportCells | gui/widgets/file_system_viewer.py:460-468 | The nine cells are the quoted path and name, then the size in decimal. Next come `Directory` or `File` by kind and `Yes` or `No` by deletion. Then the three times rendered, each empty when absent, and the MFT entry in decimal, empty exactly when absent. |
| FileSystemViewer.ExportRowFields | gui/widgets/file_system_viewer.py:460-468 | With no comma in the path, the name or any rendered date, a row without its newline splits at commas into exactly its nine cells. |
| FileSystemViewer.NumberHasNoComma | gui/widgets/file_system_viewer.py:462-468 | A number written in decimal holds no comma, so the size and MFT cells never split a row. |
| FileSystemViewer.TimeCellHasNoComma | gui/widgets/file_system_viewer.py:465-467 | A time cell holds no comma when the date rendering never writes one. |
| FileSystemViewer.CellsHaveNoComma | gui/widgets/file_system_viewer.py:460-468 | With no comma in the path, the name or any rendered date, no cell of a row holds a comma. |
| FileSystemViewer.ExportFileList | gui/widgets/file_system_viewer.py:454-468 | The exported text is the header line followed by one row per path, in sorted path order. Each recorded path's row sits between the rows of the paths before it and those after it. |
| FileSystemViewer.ExportTextAt | gui/widgets/file_system_viewer.py:454-468 | After the header, the rows split around any path: its entry's row sits between the rows of the earlier and the later paths. |
| FileSystemViewer.RowsAppend | gui/widgets/file_system_viewer.py:459-468 | The rows of two runs of paths laid end to end are the rows of each in turn. |
| FileSystemViewer.RowsAt | gui/widgets/file_system_viewer.py:459-468 | The rows split around path `i`: the row written for it sits between the rows of the paths before and after it. |
| FileSystemViewer.RowOfRecorded | gui/widgets/file_system_viewer.py:459 | The row written for a recorded path is its entry's row. |
| FileSystemViewer.ConcatMapAppend | gui/widgets/file_system_viewer.py:459-468 | Writing two runs of items laid end to end writes each run in turn. |

## Left out

- User interface, threads and persistence: the Qt widgets, dialogs and threads, the stop flags and progress percentages of the carver and parser threads, SQLite itself, file writes and directory creation, and the JSON and HTML reports. They are presentation, concurrency and I/O.
- Case creation and loading are left out; they are database and directory I/O. Only their pure helpers are modelled.
- hashlib is the `digest` parameter; MD5 and SHA internals are a foreign library.
- pytsk3 and pyewf are replaced by a tree of nodes with metadata. `open_dir` by path is the walk over that tree, and a read error is not modelled. Whether `fromtimestamp` accepts a raw time is the parameter `fits`, because the range depends on the platform; a time it rejects makes the entry None.
- The carver's mock-parser fallback, which scans 100 MB of zeros, is left out. It only applies without a real image.
- `datetime.now()` is a parameter, and so are the `strftime`/`isoformat` texts and the MD5 that names a carved file.
- Timestamps are instants, in microseconds since the epoch. The code compares the naive local wall times that `fromtimestamp` gives. Those can disagree with instants around a daylight-saving change, and that ambiguity is not modelled.
- Carver.CarveSingle: one carve environment gives every carve of a run the same file-name stamp and ISO `timestamp`. The code reads the clock for each carve (core/forensics/file_carver.py:169, 186), so its stamps can differ between carves.
- UTF-8 decoding of names is left out; names are strings already.
- `lower`, `isalnum` and case-insensitive comparison are ASCII-only. Python's Unicode case mapping is not modelled.
- Floating point is not modelled. Confidence is in integer tenths, and the directory statistics keep the sum and count instead of `statistics.mean`. `format_size` and the `%` formatting of the text report are left out.
- The description of the `mass_timestamp` pattern and the report text of `generate_summary` are not modelled beyond the top-ten ordering.
- The row a path-only SQLite query returns, when a path is stored under several source types, is a parameter. The database decides it.
- `load_nsrl_hashes` and `get_file_reputation` are stubs in the code and are left out.
- Timestamps.CheckPrecision: its own contract gives only the two-timestamp condition and the severity. The exact condition is `Timestamps.PrecisionMatchesRule`, stated for entries with all three timestamps, the only ones `analyze_timestamps` passes to it.
- Signatures.IdentifyFileType: its own contract only says the result is a registry key. The decision order is stated by `IdentifyByPrimary`, `IdentifyByAlternative` and `IdentifyByText`.
- Timestamps.TopSuspicious: the stability of Python's `sorted` among equal confidences is not stated. Confidence is summed in exact tenths, where the code sums floats: 0.4 + 0.3 + 0.2 gives 0.8999999999999999, which ranks below 0.4 + 0.5 = 0.9. Both are 9 tenths in the model, so the model can order such files differently from the program.
- Timestamps.AnalyzeDirectory: one clock reading `now` decides the future-timestamp rule for every file. The code reads `datetime.now()` in each call of `_check_future_timestamps` (core/forensics/timestamp_analyzer.py:138), so the threshold can move between files.
- FileSystemParser.MockEntries: one clock reading `now` is the creation time of all three mock files. The code reads `datetime.now()` for each entry (core/parsers/pytsk_parser.py:270), so the three times can differ.
- HashVerifier.BatchCalculateHashes: the `print` of an error in the exception handler (core/forensics/hash_verifier.py:222) is console output and is left out; the error itself is the path's result.
- HashVerifier.BatchCalculateHashes: one clock reading `now` stamps every record the batch stores. The code reads `datetime.now()` for each file (core/forensics/hash_verifier.py:115), so its stamps can differ between files.
- CaseManager.GetRecentCases: the stored file is modelled as missing, not valid JSON, or a list of cases. Valid JSON of another shape is not modelled: a non-list, or an entry without `path`. There the code raises KeyError or TypeError, because it catches only JSONDecodeError (core/case_manager.py:127-134), and `_add_to_recent_cases` passes the exception on (core/case_manager.py:136-138).
- HashVerifier.ExportRows: the order of rows with equal `calculated_at` is not stated; SQLite does not fix it either.
- HashVerifier.CsvLineRoundTrip: holds only for cells without a double quote, because the code does not escape quotes.
- Carver.CarvedFiles: its contract states only the empty cases. What is carved is stated by `CarvedFilesOfImage`, `CarvedFilesComplete`, `CarvedAtHeaders` and the scan lemmas.
- The carver model carves after the scan rather than during it. Carving only reads the image, so the records are the same and in the same order; `CarveScan` proves the interleaved loop equal.
- The carver's `if not chunk: break` is never taken, because a chunk read inside the image is never empty.

## Findings

| source | as written | input that shows it | evidently intended | confidence | as-written member | corrected member |
|---|---|---|---|---|---|---|
| core/forensics/hash_verifier.py:187-194 | The digests are computed under the lower-cased algorithm names, but the results are looked up under the names exactly as given. | `verify_file_integrity(path, {"MD5": <the file's own md5>})` reports `{"MD5": False}` | An algorithm name in any case verifies, just as the digest values are compared ignoring case | medium, not executed | HashVerifier.UpperCaseNameNeverVerifies | HashVerifier.AnyCaseVerifiesOwnDigest |
