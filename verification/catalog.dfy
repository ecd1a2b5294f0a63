/**
  TableCatalog: `scanTables`. The directory listing (`os.ReadDir`) is outside
  the model and arrives as a function from path to listing or error.
 */
module Catalog {
  import opened Wrappers
  import opened Strings

  /** One `os.DirEntry`: its name and whether it is a directory. */
  datatype DirEntry = DirEntry(name: string, isDir: bool)

  datatype ScanError = EmptyPath | ReadDirFailed(cause: string)

  /** The table-file extension, matched case-sensitively. */
  const TableExt := ".vpx"

  /** An entry `scanTables` keeps: not a directory, name ending in `.vpx`. */
  predicate IsTableEntry(e: DirEntry) {
    HasSuffix(e.name, TableExt) && !e.isDir
  }

  /** Reference definition: the names of the table entries, in listing order. */
  function TableNames(listing: seq<DirEntry>): seq<string> {
    if |listing| == 0 then []
    else
      var last := listing[|listing| - 1];
      TableNames(listing[..|listing| - 1]) + (if IsTableEntry(last) then [last.name] else [])
  }

  /** Reference definition: the positions of the table entries, ascending. */
  function TablePositions(listing: seq<DirEntry>): (ps: seq<nat>)
    ensures forall k :: 0 <= k < |ps| ==> ps[k] < |listing| && IsTableEntry(listing[ps[k]])
    ensures forall k, l :: 0 <= k < l < |ps| ==> ps[k] < ps[l]
    ensures forall j :: 0 <= j < |listing| && IsTableEntry(listing[j]) ==> j in ps
  {
    if |listing| == 0 then []
    else
      var n := |listing| - 1;
      TablePositions(listing[..n]) + (if IsTableEntry(listing[n]) then [n] else [])
  }

  /** `scanTables(tablesPath)` */
  method ScanTables(tablesPath: string, readDir: string -> Result<seq<DirEntry>, string>)
    returns (r: Result<seq<string>, ScanError>)
    ensures tablesPath == "" ==> r == Failure(EmptyPath)
    ensures tablesPath != "" && readDir(tablesPath).Failure? ==> r == Failure(ReadDirFailed(readDir(tablesPath).error))
    ensures tablesPath != "" && readDir(tablesPath).Success? ==> r == Success(TableNames(readDir(tablesPath).value))
  {
    if tablesPath == "" {
      return Failure(EmptyPath);
    }
    var listing := readDir(tablesPath);
    if listing.Failure? {
      return Failure(ReadDirFailed(listing.error));
    }
    var dirContents := listing.value;
    var tables: seq<string> := [];
    var i := 0;
    while i < |dirContents|
      invariant 0 <= i <= |dirContents|
      invariant tables == TableNames(dirContents[..i])
    {
      var found := dirContents[i];
      assert dirContents[..i + 1][..i] == dirContents[..i];
      if !HasSuffix(found.name, TableExt) {
        i := i + 1;
        continue;
      }
      if found.isDir {
        i := i + 1;
        continue;
      }
      tables := tables + [found.name];
      i := i + 1;
    }
    assert dirContents[..i] == dirContents;
    return Success(tables);
  }
}
