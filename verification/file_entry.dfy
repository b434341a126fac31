/** The record every parser yields and every analysis consumes: one
    file-system object with its optional timestamps and identifiers. */
module FileEntries {
  import opened Wrappers

  /** A wall-clock instant in whole microseconds. Sub-second precision is the
      remainder modulo one million, which is what `datetime.microsecond`
      reports, also before the epoch since `%` here is never negative. */
  type Timestamp = int

  datatype FileEntry = FileEntry(
    name: string,
    path: string,
    size: int,
    isDirectory: bool,
    isDeleted: bool,
    createdTime: Option<Timestamp>,
    modifiedTime: Option<Timestamp>,
    accessedTime: Option<Timestamp>,
    mftEntry: Option<int>,
    parentMft: Option<int>,
    attributes: map<string, string>,
    children: seq<FileEntry>)

  /** A freshly constructed entry, before a parser fills it in. */
  function NewFileEntry(): (e: FileEntry)
    ensures e.name == "" && e.path == "" && e.size == 0
    ensures !e.isDirectory && !e.isDeleted
    ensures e.createdTime.None? && e.modifiedTime.None? && e.accessedTime.None?
    ensures e.mftEntry.None? && e.parentMft.None?
    ensures e.attributes == map[] && e.children == []
  {
    FileEntry("", "", 0, false, false, None, None, None, None, None, map[], [])
  }
}
