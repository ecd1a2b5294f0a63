/**
  NameNormalizer: the two names derived from a table's file name, the
  snapshot lookup key (`normalizeFileName`) and the display title
  (`formatFileName`), plus the snapshot path that `loadImage` builds from the key.
 */
module Names {
  import opened Strings
  import opened Wrappers

  /** Path separator of the host (`os.PathSeparator` on Linux). */
  const Separator: char := '/'

  /** `i` is where `filepath.Ext` starts: a `.` followed by neither `.` nor a separator. */
  predicate IsExtStart(s: string, i: int) {
    0 <= i < |s| && s[i] == '.' && forall j :: i < j < |s| ==> s[j] != '.' && s[j] != Separator
  }

  /**
    Index where `filepath.Ext(s)` begins, or `|s|` when `s` has no extension.
    Like Go, scans backwards and gives up at the first separator.
   */
  function ExtStart(s: string): (r: nat)
    ensures r <= |s|
    ensures r < |s| ==> IsExtStart(s, r)
    ensures r == |s| ==> forall i :: !IsExtStart(s, i)
    ensures forall i :: IsExtStart(s, i) ==> i == r
  {
    if |s| == 0 then 0
    else if s[|s| - 1] == '.' then |s| - 1
    else if s[|s| - 1] == Separator then |s|
    else
      var front := s[..|s| - 1];
      var k := ExtStart(front);
      assert forall i :: IsExtStart(s, i) ==> IsExtStart(front, i);
      if k == |s| - 1 then |s| else k
  }

  /** `strings.TrimSuffix(s, filepath.Ext(s))` */
  function Stem(s: string): (r: string)
    ensures HasPrefix(s, r)
    ensures if exists i :: IsExtStart(s, i) then IsExtStart(s, |r|) else r == s
  {
    s[..ExtStart(s)]
  }

  /** `normalizeFileName`: the key under which a table's snapshot image is stored. */
  function NormalizeFileName(fileName: string): (key: string)
    ensures ' ' !in key && '(' !in key
    ensures NoUpper(key)
    ensures '(' in Stem(fileName) ==> ')' !in key
    ensures '(' !in Stem(fileName) ==>
      |key| == |Stem(fileName)| &&
      forall i :: 0 <= i < |key| ==> (key[i] == ')' <==> Stem(fileName)[i] == ')')
    ensures var stem := Stem(fileName);
      var kept := if '(' in stem then RemoveChar(RemoveChar(stem, '('), ')') else stem;
      && |key| == |kept|
      && forall i :: 0 <= i < |kept| ==> key[i] == (if kept[i] == ' ' then '_' else LowerChar(kept[i]))
  {
    var stem := Stem(fileName);
    var rep := if '(' in stem then RemoveChar(RemoveChar(stem, '('), ')') else stem;
    Lower(ReplaceChar(rep, ' ', '_'))
  }

  /** `formatFileName`: the title shown in the table list. */
  function FormatFileName(fileName: string): (title: string)
    ensures '(' !in Stem(fileName) ==> title == Stem(fileName)
    ensures '(' in Stem(fileName) ==>
      && |title| >= 1
      && title[|title| - 1] == ')'
      && ')' !in title[..|title| - 1]
      && HasPrefix(Stem(fileName), title[..|title| - 1])
      && (|title| - 1 == |Stem(fileName)| || Stem(fileName)[|title| - 1] == ')')
  {
    var stem := Stem(fileName);
    if '(' in stem then BeforeFirst(stem, ')') + ")" else stem
  }

  /** Directory and extension of the snapshot images. */
  const SnapshotDir := "table_snapshots/"
  const SnapshotExt := ".png"

  datatype ImageError = EmptyFileName | SnapshotMissing(path: string)

  /**
    `loadImage` without the UI: the snapshot path it looks up, or why it gives up.
    `fileExists` stands for the `os.Stat` probe of the filesystem.
   */
  function LoadImage(fileName: string, fileExists: string -> bool): (r: Result<string, ImageError>)
    ensures fileName == "" <==> r == Failure(EmptyFileName)
    ensures r.Success? ==> fileExists(r.value)
    ensures r.Success? || r.error.EmptyFileName? || !fileExists(r.error.path)
    ensures fileName != "" && fileExists(SnapshotDir + NormalizeFileName(fileName) + SnapshotExt) ==> r.Success?
    ensures r.Failure? && r.error.SnapshotMissing? ==>
      r.error.path == SnapshotDir + NormalizeFileName(fileName) + SnapshotExt
    ensures r.Success? ==>
      && HasPrefix(r.value, SnapshotDir) && HasSuffix(r.value, SnapshotExt)
      && |r.value| == |SnapshotDir| + |NormalizeFileName(fileName)| + |SnapshotExt|
      && r.value[|SnapshotDir|..|r.value| - |SnapshotExt|] == NormalizeFileName(fileName)
  {
    if fileName == "" then Failure(EmptyFileName)
    else
      var path := SnapshotDir + NormalizeFileName(fileName) + SnapshotExt;
      if !fileExists(path) then Failure(SnapshotMissing(path)) else Success(path)
  }
}
