/** What the table list holds: every table entry's name, in listing order, and nothing else. */
module CatalogProperties {
  import opened Catalog

  /** The k-th listed table is the entry at the k-th table position. */
  lemma {:induction false} TableNamesFollowPositions(listing: seq<DirEntry>)
    ensures |TableNames(listing)| == |TablePositions(listing)|
    ensures forall k :: 0 <= k < |TableNames(listing)| ==>
      TableNames(listing)[k] == listing[TablePositions(listing)[k]].name
  {
    if |listing| > 0 {
      var n := |listing| - 1;
      var front := listing[..n];
      TableNamesFollowPositions(front);
      var names, ps := TableNames(front), TablePositions(front);
      assert |names| == |ps|;
      forall k | 0 <= k < |names|
        ensures TableNames(listing)[k] == listing[TablePositions(listing)[k]].name
      {
        assert TableNames(listing)[k] == names[k];
        assert TablePositions(listing)[k] == ps[k];
        assert front[ps[k]] == listing[ps[k]];
      }
    }
  }

  /** A name is listed exactly when some table entry carries it. */
  lemma TableNamesMembership(listing: seq<DirEntry>, name: string)
    ensures name in TableNames(listing) <==>
      exists j :: 0 <= j < |listing| && IsTableEntry(listing[j]) && listing[j].name == name
  {
    TableNamesFollowPositions(listing);
    var names, ps := TableNames(listing), TablePositions(listing);
    if name in names {
      var k :| 0 <= k < |names| && names[k] == name;
      assert IsTableEntry(listing[ps[k]]);
    }
    if exists j :: 0 <= j < |listing| && IsTableEntry(listing[j]) && listing[j].name == name {
      var j :| 0 <= j < |listing| && IsTableEntry(listing[j]) && listing[j].name == name;
      var k :| 0 <= k < |ps| && ps[k] == j;
      assert names[k] == name;
    }
  }

  /** Files `a.vpx`, `b.txt`, `c.VPX` and a directory `subdir`: only `a.vpx` is a table. */
  lemma ScanExample()
    ensures TableNames([DirEntry("a.vpx", false), DirEntry("b.txt", false),
                        DirEntry("c.VPX", false), DirEntry("subdir", true)]) == ["a.vpx"]
  {
    var listing := [DirEntry("a.vpx", false), DirEntry("b.txt", false),
                    DirEntry("c.VPX", false), DirEntry("subdir", true)];
    assert IsTableEntry(listing[0]);
    assert "b.txt"[1..] != ".vpx" && "c.VPX"[1..] != ".vpx";
    assert TableNames(listing[..1]) == ["a.vpx"] by {
      assert listing[..1][..0] == [];
    }
    assert listing[..2][..1] == listing[..1];
    assert TableNames(listing[..2]) == ["a.vpx"];
    assert listing[..3][..2] == listing[..2];
    assert TableNames(listing[..3]) == ["a.vpx"];
    assert listing[..3] == listing[..|listing| - 1];
  }

  /** Dot-files are not skipped, while a directory named like a table is. */
  lemma HiddenFileKeptDirectoryDropped()
    ensures TableNames([DirEntry(".old.vpx", false), DirEntry("x.vpx", true)]) == [".old.vpx"]
  {
    var listing := [DirEntry(".old.vpx", false), DirEntry("x.vpx", true)];
    assert ".old.vpx"[4..] == ".vpx";
    assert TableNames(listing[..1]) == [".old.vpx"] by {
      assert listing[..1][..0] == [];
    }
  }
}
