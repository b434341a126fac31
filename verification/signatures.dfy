/** The signature registry (core/forensics/file_signatures.py): a fixed,
    ordered table from extension tag to header/footer byte patterns and a
    carve-size cap, an alternative-header table, and type identification by
    header prefix. A `None` header or footer is the empty byte string: the
    code only ever tests them for truthiness, and `b""` is falsy too. */
module Signatures {
  import opened Wrappers
  import opened Bytes
  import opened Text

  /** The cap a signature gets when none (or 0) is given: 100 MiB. */
  const DEFAULT_MAX_SIZE: int := 100 * 1024 * 1024

  datatype FileSignature = FileSignature(
    extension: string,
    header: seq<Byte>,
    footer: seq<Byte>,
    maxSize: int)

  /** The constructor: a missing or zero cap becomes the default. */
  function MakeSignature(extension: string, header: seq<Byte>, footer: seq<Byte>,
                         maxSize: Option<int>): (s: FileSignature)
    ensures s.extension == extension
    ensures s.header == header && s.footer == footer
    ensures s.maxSize != 0
    ensures maxSize.Some? && maxSize.value != 0 ==> s.maxSize == maxSize.value
    ensures maxSize.None? || maxSize.value == 0 ==> s.maxSize == DEFAULT_MAX_SIZE
  {
    var cap := if maxSize.Some? && maxSize.value != 0 then maxSize.value else DEFAULT_MAX_SIZE;
    FileSignature(extension, header, footer, cap)
  }

  const PK_HEADER: seq<Byte> := [0x50, 0x4B, 0x03, 0x04]

  /** FILE_SIGNATURES, in table order. Every entry gives its cap, so the
      constructor keeps it (see `RegistryCapsAsGiven`). */
  const Registry: seq<(string, FileSignature)> := [
    ("jpg", FileSignature("jpg", [0xFF, 0xD8, 0xFF], [0xFF, 0xD9], 52428800)),
    ("png", FileSignature("png", [0x89, 0x50, 0x4E, 0x47, 0x0D, 0x0A, 0x1A, 0x0A],
                          [0x49, 0x45, 0x4E, 0x44, 0xAE, 0x42, 0x60, 0x82], 52428800)),
    ("gif", FileSignature("gif", [0x47, 0x49, 0x46, 0x38, 0x37, 0x61], [0x00, 0x3B], 20971520)),
    ("pdf", FileSignature("pdf", [0x25, 0x50, 0x44, 0x46], [0x25, 0x25, 0x45, 0x4F, 0x46], 524288000)),
    ("docx", FileSignature("docx", PK_HEADER, [], 104857600)),
    ("xlsx", FileSignature("xlsx", PK_HEADER, [], 104857600)),
    ("zip", FileSignature("zip", PK_HEADER, [0x50, 0x4B, 0x05, 0x06], 1073741824)),
    ("mp4", FileSignature("mp4", [0x00, 0x00, 0x00, 0x20, 0x66, 0x74, 0x79, 0x70], [], 4294967296)),
    ("exe", FileSignature("exe", [0x4D, 0x5A], [], 524288000)),
    ("txt", FileSignature("txt", [], [], 10485760))
  ]

  /** Each entry is what the constructor builds from its arguments, with
      caps of 50, 50, 20, 500, 100, 100, 1024, 4096, 500 and 10 MiB. */
  lemma RegistryCapsAsGiven()
    ensures forall i :: 0 <= i < |Registry| ==>
      Registry[i].1 == MakeSignature(Registry[i].0, Registry[i].1.header, Registry[i].1.footer,
                                     Some([50, 50, 20, 500, 100, 100, 1024, 4096, 500, 10][i] * 1024 * 1024))
  {
  }

  /** ALTERNATIVE_HEADERS, in table order. */
  const AlternativeHeaders: seq<(string, seq<seq<Byte>>)> := [
    ("gif", [[0x47, 0x49, 0x46, 0x38, 0x37, 0x61], [0x47, 0x49, 0x46, 0x38, 0x39, 0x61]]),
    ("jpg", [[0xFF, 0xD8, 0xFF, 0xE0], [0xFF, 0xD8, 0xFF, 0xE1], [0xFF, 0xD8, 0xFF, 0xE8]]),
    ("docx", [[0x50, 0x4B, 0x03, 0x04, 0x14, 0x00, 0x06, 0x00]]),
    ("xlsx", [[0x50, 0x4B, 0x03, 0x04, 0x14, 0x00, 0x06, 0x00]])
  ]

  /** A table of header lists as (extension, header) pairs, in the order
      nested loops over the table and over each list visit them. */
  function Flatten(table: seq<(string, seq<seq<Byte>>)>): seq<(string, seq<Byte>)> {
    if table == [] then []
    else seq(|table[0].1|, k requires 0 <= k < |table[0].1| => (table[0].0, table[0].1[k]))
         + Flatten(table[1..])
  }

  /** The pairs the nested loops of `identify_file_type` visit. */
  const AlternativePairs: seq<(string, seq<Byte>)> := [
    ("gif", [0x47, 0x49, 0x46, 0x38, 0x37, 0x61]),
    ("gif", [0x47, 0x49, 0x46, 0x38, 0x39, 0x61]),
    ("jpg", [0xFF, 0xD8, 0xFF, 0xE0]),
    ("jpg", [0xFF, 0xD8, 0xFF, 0xE1]),
    ("jpg", [0xFF, 0xD8, 0xFF, 0xE8]),
    ("docx", [0x50, 0x4B, 0x03, 0x04, 0x14, 0x00, 0x06, 0x00]),
    ("xlsx", [0x50, 0x4B, 0x03, 0x04, 0x14, 0x00, 0x06, 0x00])
  ]

  /** `AlternativePairs` is the alternative-header table, flattened. */
  lemma AlternativePairsFlatten()
    ensures Flatten(AlternativeHeaders) == AlternativePairs
  {
  }

  /** Every alternative header names a registered type. */
  lemma AlternativeTypesRegistered()
    ensures forall j :: 0 <= j < |AlternativePairs| ==> AlternativePairs[j].0 in Keys(Registry)
  {
    var keys := Keys(Registry);
    assert keys[0] == "jpg" && keys[2] == "gif" && keys[4] == "docx" && keys[5] == "xlsx";
  }

  function Keys(table: seq<(string, FileSignature)>): (r: seq<string>)
    ensures |r| == |table|
    ensures forall i :: 0 <= i < |table| ==> r[i] == table[i].0
  {
    seq(|table|, i requires 0 <= i < |table| => table[i].0)
  }

  /** `table.get(key)` on a table with distinct keys: the entry stored under
      `key`, or None when the key is absent. */
  function Lookup(table: seq<(string, FileSignature)>, key: string): (r: Option<FileSignature>)
    ensures r.None? <==> forall i :: 0 <= i < |table| ==> table[i].0 != key
    ensures r.Some? ==> exists i :: 0 <= i < |table| && table[i] == (key, r.value)
  {
    if table == [] then None
    else if table[0].0 == key then Some(table[0].1)
    else
      var r := Lookup(table[1..], key);
      assert forall i :: 1 <= i < |table| ==> table[i] == table[1..][i - 1];
      r
  }

  /** The facts about the registry the rest of the model relies on. */
  lemma RegistryFacts()
    ensures forall i, j :: 0 <= i < j < |Registry| ==> Registry[i].0 != Registry[j].0
    ensures forall i :: 0 <= i < |Registry| ==> Registry[i].1.extension == Registry[i].0
    ensures forall i :: 0 <= i < |Registry| ==> (Registry[i].1.header == [] <==> Registry[i].0 == "txt")
    ensures forall i :: 0 <= i < |Registry| ==> Registry[i].1.maxSize > 0
    ensures forall i :: 0 <= i < |Registry| ==> |Registry[i].1.header| <= 1024
    ensures forall i :: 0 <= i < |Registry| ==> Lower(Registry[i].0) == Registry[i].0
  {
  }

  /** `get_signature`: lookup by the lower-cased type name. */
  function GetSignature(fileType: string): (r: Option<FileSignature>)
    ensures r.Some? <==> Lower(fileType) in Keys(Registry)
    ensures r.Some? ==> r.value.extension == Lower(fileType)
  {
    RegistryFacts();
    Lookup(Registry, Lower(fileType))
  }

  /** `get_supported_types`: the registry keys, in table order. */
  function SupportedTypes(): seq<string> {
    Keys(Registry)
  }

  /** Every supported type is found again by `get_signature`, under its own
      extension, whatever its capitalisation. */
  lemma SupportedTypesAreSignatures(t: string)
    requires t in SupportedTypes()
    ensures GetSignature(t).Some? && GetSignature(t).value.extension == t
    ensures GetSignature(t) == GetSignature(Lower(t))
  {
    RegistryFacts();
    var i :| 0 <= i < |Registry| && Registry[i].0 == t;
    assert Lower(t) == t;
  }

  // Identification

  /** Registry entry `i` has a header and `check` begins with it. */
  predicate PrimaryMatch(i: int, check: seq<Byte>)
    requires 0 <= i < |Registry|
  {
    Registry[i].1.header != [] && IsPrefix(Registry[i].1.header, check)
  }

  predicate AlternativeMatch(i: int, check: seq<Byte>)
    requires 0 <= i < |AlternativePairs|
  {
    IsPrefix(AlternativePairs[i].1, check)
  }

  /** The first loop of `identify_file_type`, from entry `i` on. */
  function FirstPrimary(check: seq<Byte>, i: nat): (r: Option<nat>)
    requires i <= |Registry|
    ensures r.Some? ==> i <= r.value < |Registry| && PrimaryMatch(r.value, check)
    ensures r.Some? ==> forall k :: i <= k < r.value ==> !PrimaryMatch(k, check)
    ensures r.None? ==> forall k :: i <= k < |Registry| ==> !PrimaryMatch(k, check)
    decreases |Registry| - i
  {
    if i == |Registry| then None
    else if PrimaryMatch(i, check) then Some(i)
    else FirstPrimary(check, i + 1)
  }

  /** The nested second loop of `identify_file_type`, from pair `i` on. */
  function FirstAlternative(check: seq<Byte>, i: nat): (r: Option<nat>)
    requires i <= |AlternativePairs|
    ensures r.Some? ==> i <= r.value < |AlternativePairs| && AlternativeMatch(r.value, check)
    ensures r.Some? ==> forall k :: i <= k < r.value ==> !AlternativeMatch(k, check)
    ensures r.None? ==> forall k :: i <= k < |AlternativePairs| ==> !AlternativeMatch(k, check)
    decreases |AlternativePairs| - i
  {
    if i == |AlternativePairs| then None
    else if AlternativeMatch(i, check) then Some(i)
    else FirstAlternative(check, i + 1)
  }

  /** A byte the text fallback accepts: printable ASCII, tab, LF or CR. */
  predicate IsTextByte(b: Byte) {
    (32 <= b < 127) || b == 9 || b == 10 || b == 13
  }

  /** `identify_file_type(data, size_limit)`. */
  function IdentifyFileType(data: seq<Byte>, sizeLimit: int): (r: Option<string>)
    ensures r.Some? ==> r.value in Keys(Registry)
  {
    var check := Take(data, sizeLimit);
    AlternativeTypesRegistered();
    match FirstPrimary(check, 0)
    case Some(i) => Some(Registry[i].0)
    case None =>
      match FirstAlternative(check, 0)
      case Some(j) => Some(AlternativePairs[j].0)
      case None =>
        if AllText(Take(check, 100)) then Some("txt")
        else None
  }

  /** Every byte of `s` passes the text test. */
  predicate AllText(s: seq<Byte>) {
    forall k :: 0 <= k < |s| ==> IsTextByte(s[k])
  }

  /** The first registry entry whose header begins the inspected prefix
      decides the type. */
  lemma IdentifyByPrimary(data: seq<Byte>, sizeLimit: int, i: nat)
    requires i < |Registry| && PrimaryMatch(i, Take(data, sizeLimit))
    requires forall k :: 0 <= k < i ==> !PrimaryMatch(k, Take(data, sizeLimit))
    ensures IdentifyFileType(data, sizeLimit) == Some(Registry[i].0)
  {
    var r := FirstPrimary(Take(data, sizeLimit), 0);
  }

  /** With no primary header present, the first alternative header that
      begins the inspected prefix decides the type. */
  lemma IdentifyByAlternative(data: seq<Byte>, sizeLimit: int, j: nat)
    requires forall i :: 0 <= i < |Registry| ==> !PrimaryMatch(i, Take(data, sizeLimit))
    requires j < |AlternativePairs| && AlternativeMatch(j, Take(data, sizeLimit))
    requires forall k :: 0 <= k < j ==> !AlternativeMatch(k, Take(data, sizeLimit))
    ensures IdentifyFileType(data, sizeLimit) == Some(AlternativePairs[j].0)
  {
    var check := Take(data, sizeLimit);
    var p := FirstPrimary(check, 0);
    var r := FirstAlternative(check, 0);
  }

  /** With no header of either table present, the data is "txt" exactly
      when its first 100 inspected bytes are all text bytes, and
      unidentified otherwise. */
  lemma IdentifyByText(data: seq<Byte>, sizeLimit: int)
    requires forall i :: 0 <= i < |Registry| ==> !PrimaryMatch(i, Take(data, sizeLimit))
    requires forall j :: 0 <= j < |AlternativePairs| ==> !AlternativeMatch(j, Take(data, sizeLimit))
    ensures IdentifyFileType(data, sizeLimit) == (if AllText(Take(Take(data, sizeLimit), 100)) then Some("txt") else None)
  {
    var check := Take(data, sizeLimit);
    var p := FirstPrimary(check, 0);
    var a := FirstAlternative(check, 0);
  }

  /** ZIP-container data is identified as the first PK-headed entry of the
      table, `docx`, never as `xlsx` or `zip`. */
  lemma PkDataIsDocx(data: seq<Byte>, sizeLimit: int)
    requires sizeLimit >= 4 && IsPrefix(PK_HEADER, data)
    ensures IdentifyFileType(data, sizeLimit) == Some("docx")
  {
    var check := Take(data, sizeLimit);
    assert check[..4] == data[..4];
    assert PrimaryMatch(4, check);
    forall k | 0 <= k < 4
      ensures !PrimaryMatch(k, check)
    {
      assert check[0] == 0x50;
    }
  }

  /** "GIF89a" has no primary header; it is recognised only through the
      alternative-header table. */
  lemma Gif89aIsGifByAlternative(data: seq<Byte>)
    requires IsPrefix([0x47, 0x49, 0x46, 0x38, 0x39, 0x61], data)
    ensures forall i :: 0 <= i < |Registry| ==> !PrimaryMatch(i, Take(data, 512))
    ensures IdentifyFileType(data, 512) == Some("gif")
  {
    var check := Take(data, 512);
    assert check[..6] == data[..6];
    forall i | 0 <= i < |Registry|
      ensures !PrimaryMatch(i, check)
    {
      assert check[0] == 0x47 && check[4] == 0x39;
    }
    assert AlternativeMatch(1, check);
    assert !AlternativeMatch(0, check) by {
      assert check[4] == 0x39;
    }
  }

  /** Empty data passes the printable-text test vacuously. */
  lemma EmptyDataIsText(sizeLimit: int)
    ensures IdentifyFileType([], sizeLimit) == Some("txt")
  {
  }
}
