/**
  The log store: one delimited file of rows, each row a sequence of text
  fields. The file may be absent; `None` stands for "no such file". It is only
  ever created with a header row or extended by one row at its end.
 */
module LogStore {
  import opened Wrappers

  type Row = seq<string>

  /** The state of the file on disk: absent, or the rows it holds. */
  type FileState = Option<seq<Row>>

  /** The header written when the file is first created. */
  const Header: Row := ["Tarih", "Saat", "Kullanici", "Kart_ID"]

  /** The rows of the file; an absent file has none. */
  function Rows(f: FileState): seq<Row> {
    if f.None? then [] else f.value
  }

  /** The file after the one-time preparation: a header row if the file was absent, untouched otherwise. */
  function Initialized(f: FileState): FileState {
    if f.None? then Some([Header]) else f
  }

  /** The file after one append: opening in append mode creates an absent file, and the row goes at the end. */
  function Appended(f: FileState, row: Row): FileState {
    Some(Rows(f) + [row])
  }

  /**
    Preparing the file twice is preparing it once, and a prepared file always
    exists, starting with the header if it was created now.
   */
  lemma InitializedIdempotent(f: FileState)
    ensures Initialized(Initialized(f)) == Initialized(f)
    ensures Initialized(f).Some?
    ensures f.None? ==> Rows(Initialized(f)) == [Header]
    ensures f.Some? ==> Rows(Initialized(f)) == Rows(f)
  {
  }

  /** An append keeps every earlier row in place and adds exactly one row, the given one, at the end. */
  lemma AppendedExtends(f: FileState, row: Row)
    ensures var g := Rows(Appended(f, row));
      |g| == |Rows(f)| + 1 && g[..|Rows(f)|] == Rows(f) && g[|Rows(f)|] == row
  {
  }

  /** The file the script writes to, with the two operations it performs on it. */
  class CsvLog {
    var contents: FileState

    constructor (existing: FileState)
      ensures contents == existing
    {
      contents := existing;
    }

    /** Writes the header only when the file does not exist yet; an existing file is left as it is. */
    method EnsureHeader()
      modifies this
      ensures contents == Initialized(old(contents))
      ensures old(contents).Some? ==> contents == old(contents)
      ensures old(contents).None? ==> contents == Some([Header])
    {
      if contents.None? {
        contents := Some([Header]);
      }
    }

    /** Adds one row at the end of the file, creating the file if it is absent. */
    method Append(row: Row)
      modifies this
      ensures contents == Appended(old(contents), row)
      ensures contents.Some? && Rows(contents) == Rows(old(contents)) + [row]
    {
      contents := Some(Rows(contents) + [row]);
    }
  }
}
