/** Properties of the snapshot key and the display title. */
module NameProperties {
  import opened Strings
  import opened Names

  /** A string without `.` has no extension, so it is its own stem. */
  lemma StemWithoutDot(s: string)
    requires '.' !in s
    ensures Stem(s) == s
  {
  }

  /** A key without `.` normalizes to itself. */
  lemma NormalizeIdempotent(fileName: string)
    requires '.' !in NormalizeFileName(fileName)
    ensures NormalizeFileName(NormalizeFileName(fileName)) == NormalizeFileName(fileName)
  {
  }

  lemma VersionedKey()
    ensures NormalizeFileName("x v1.2.vpx") == "x_v1.2"
  {
    assert IsExtStart("x v1.2.vpx", 6);
    assert Stem("x v1.2.vpx") == "x v1.2";
  }

  lemma VersionedKeyAgain()
    ensures NormalizeFileName("x_v1.2") == "x_v1"
  {
    assert IsExtStart("x_v1.2", 4);
    assert Stem("x_v1.2") == "x_v1";
  }

  /** Re-normalizing a key that still holds a `.` strips one more "extension". */
  lemma NormalizeNotIdempotentWithDot()
    ensures NormalizeFileName(NormalizeFileName("x v1.2.vpx")) != NormalizeFileName("x v1.2.vpx")
  {
    VersionedKey();
    VersionedKeyAgain();
  }

  /** Deleting `c` from a string holding exactly one `c` splices the two sides together. */
  lemma RemoveCharSplice(a: string, c: char, b: string)
    requires c !in a && c !in b
    ensures RemoveChar(a + [c] + b, c) == a + b
  {
    RemoveCharAppend(a, [c], c);
    assert RemoveChar([c], c) == [];
    RemoveCharAbsent(a, c);
    assert RemoveChar(a + [c], c) == a;
    RemoveCharAppend(a + [c], b, c);
    RemoveCharAbsent(b, c);
  }

  /** Appending an extension to any name makes exactly that extension the one `filepath.Ext` finds. */
  lemma OneGroupStem(stem: string, ext: string)
    requires |ext| >= 1 && ext[0] == '.' && '.' !in ext[1..] && Separator !in ext[1..]
    ensures Stem(stem + ext) == stem
  {
    var name := stem + ext;
    assert IsExtStart(name, |stem|) by {
      forall j | |stem| < j < |name|
        ensures name[j] != '.' && name[j] != Separator
      {
        assert name[j] == ext[1..][j - |stem| - 1];
      }
    }
  }

  /** Deleting both parentheses from `a(b)` leaves `ab`. */
  lemma OneGroupUnparenthesized(a: string, b: string)
    requires '(' !in a && ')' !in a && '(' !in b && ')' !in b
    ensures RemoveChar(RemoveChar(a + ['('] + b + [')'], '('), ')') == a + b
  {
    assert a + ['('] + b + [')'] == a + ['('] + (b + [')']);
    RemoveCharSplice(a, '(', b + [')']);
    assert a + (b + [')']) == (a + b) + [')'] + [];
    RemoveCharSplice(a + b, ')', []);
  }

  /** A name `a(b)` followed by an extension is titled `a(b)`. */
  lemma OneGroupTitle(a: string, b: string, ext: string)
    requires '(' !in a && ')' !in a && ')' !in b
    requires |ext| >= 1 && ext[0] == '.' && '.' !in ext[1..] && Separator !in ext[1..]
    ensures FormatFileName(a + ['('] + b + [')'] + ext) == a + ['('] + b + [')']
  {
    var stem := a + ['('] + b + [')'];
    OneGroupStem(stem, ext);
    assert stem[|a|] == '(';
    BeforeFirstAt(stem, ')', |a| + 1 + |b|);
    assert stem[..|a| + 1 + |b|] + ")" == stem;
  }

  /** A name `a(b)` followed by an extension has the key of `ab`: both parentheses dropped. */
  lemma OneGroupKey(a: string, b: string, ext: string)
    requires '(' !in a && ')' !in a && '(' !in b && ')' !in b
    requires |ext| >= 1 && ext[0] == '.' && '.' !in ext[1..] && Separator !in ext[1..]
    ensures NormalizeFileName(a + ['('] + b + [')'] + ext) == Lower(ReplaceChar(a + b, ' ', '_'))
  {
    var stem := a + ['('] + b + [')'];
    OneGroupStem(stem, ext);
    assert stem[|a|] == '(';
    OneGroupUnparenthesized(a, b);
  }

  /**
    For a name `a(b)` with an extension, where `a` and `b` hold no `.`, the
    display title and the file name normalise to the same key. The launcher
    looks the snapshot up from the raw file name (main.go:80); this says the
    title would find the same one. With a `.` inside, the title's own last
    `.` would be read as an extension (`DottedGroupTitleChangesKey`).
   */
  lemma OneGroupTitleKeepsKey(a: string, b: string, ext: string)
    requires '(' !in a && ')' !in a && '(' !in b && ')' !in b && '.' !in a && '.' !in b
    requires |ext| >= 1 && ext[0] == '.' && '.' !in ext[1..] && Separator !in ext[1..]
    ensures NormalizeFileName(FormatFileName(a + ['('] + b + [')'] + ext)) == NormalizeFileName(a + ['('] + b + [')'] + ext)
  {
    OneGroupTitle(a, b, ext);
    OneGroupKey(a, b, ext);
    OneGroupTitleKey(a, b);
  }

  /** `X (v1.2).vpx` cut at its parentheses, and its title's stem. */
  lemma DottedGroupPieces()
    ensures "X (v1.2).vpx" == "X " + ['('] + "v1.2" + [')'] + ".vpx"
    ensures Stem("X " + ['('] + "v1.2" + [')']) == "X " + ['('] + "v1"
  {
    assert IsExtStart("X " + ['('] + "v1.2" + [')'], 5);
  }

  /**
    The dot-free condition above is needed: `X (v1.2).vpx` is keyed
    `x_v1.2`, while its title `X (v1.2)` loses `.2)` as an extension and is
    keyed `x_v1`.
   */
  lemma DottedGroupTitleChangesKey()
    ensures NormalizeFileName(FormatFileName("X (v1.2).vpx")) != NormalizeFileName("X (v1.2).vpx")
  {
    DottedGroupPieces();
    OneGroupTitle("X ", "v1.2", ".vpx");
    DottedTitleKeyLength();
    DottedFileKeyLength();
  }

  lemma DottedTitleKeyLength()
    ensures |NormalizeFileName("X " + ['('] + "v1.2" + [')'])| == 4
  {
    DottedGroupPieces();
    var titleStem := "X " + ['('] + "v1";
    assert '(' in titleStem by { assert titleStem[2] == '('; }
    RemoveCharSplice("X ", '(', "v1");
    RemoveCharAbsent("X " + "v1", ')');
  }

  lemma DottedFileKeyLength()
    ensures |NormalizeFileName("X " + ['('] + "v1.2" + [')'] + ".vpx")| == 6
  {
    OneGroupKey("X ", "v1.2", ".vpx");
  }

  /** The title `a(b)` itself, with no extension, has the key of `ab`. */
  lemma OneGroupTitleKey(a: string, b: string)
    requires '(' !in a && ')' !in a && '(' !in b && ')' !in b && '.' !in a && '.' !in b
    ensures NormalizeFileName(a + ['('] + b + [')']) == Lower(ReplaceChar(a + b, ' ', '_'))
  {
    var title := a + ['('] + b + [')'];
    assert '.' !in title;
    StemWithoutDot(title);
    assert title[|a|] == '(';
    OneGroupUnparenthesized(a, b);
  }

  /** The sample name `Fathom (Williams 1981).vpx`, cut at its parentheses. */
  lemma FathomPieces()
    ensures "Fathom (Williams 1981).vpx" == "Fathom " + ['('] + "Williams 1981" + [')'] + ".vpx"
  {
  }

  lemma FathomTitlePieces()
    ensures "Fathom (Williams 1981)" == "Fathom " + ['('] + "Williams 1981" + [')']
  {
  }

  lemma FathomLowered()
    ensures Lower(ReplaceChar("Fathom " + "Williams 1981", ' ', '_')) == "fathom_williams_1981"
  {
  }

  lemma FathomPiecesTitle()
    ensures FormatFileName("Fathom " + ['('] + "Williams 1981" + [')'] + ".vpx") == "Fathom " + ['('] + "Williams 1981" + [')']
  {
    OneGroupTitle("Fathom ", "Williams 1981", ".vpx");
  }

  lemma FathomPiecesKey()
    ensures NormalizeFileName("Fathom " + ['('] + "Williams 1981" + [')'] + ".vpx") == Lower(ReplaceChar("Fathom " + "Williams 1981", ' ', '_'))
  {
    OneGroupKey("Fathom ", "Williams 1981", ".vpx");
  }

  lemma FathomExample()
    ensures FormatFileName("Fathom (Williams 1981).vpx") == "Fathom (Williams 1981)"
    ensures NormalizeFileName("Fathom (Williams 1981).vpx") == "fathom_williams_1981"
  {
    FathomPieces();
    FathomTitlePieces();
    FathomLowered();
    FathomPiecesTitle();
    FathomPiecesKey();
  }

  lemma ViperExample()
    ensures FormatFileName("Viper.vpx") == "Viper"
    ensures NormalizeFileName("Viper.vpx") == "viper"
  {
    assert ExtStart("Viper.vpx") == 5 by {
      assert IsExtStart("Viper.vpx", 5);
    }
    assert Stem("Viper.vpx") == "Viper";
  }

  /** Lower-casing does not move the extension. */
  lemma ExtStartLower(s: string)
    ensures ExtStart(Lower(s)) == ExtStart(s)
  {
    var t := Lower(s);
    LowerKeepsNonLetter(s, '.');
    LowerKeepsNonLetter(s, Separator);
    assert forall i :: IsExtStart(t, i) <==> IsExtStart(s, i);
  }

  lemma StemLower(s: string)
    ensures Stem(Lower(s)) == Lower(Stem(s))
  {
    ExtStartLower(s);
  }

  lemma {:induction false} RemoveCharLower(s: string, c: char)
    requires !IsAsciiLetter(c)
    ensures RemoveChar(Lower(s), c) == Lower(RemoveChar(s, c))
  {
    if |s| > 0 {
      assert Lower(s)[1..] == Lower(s[1..]);
      RemoveCharLower(s[1..], c);
      if s[0] != c {
        assert Lower([s[0]] + RemoveChar(s[1..], c)) == [LowerChar(s[0])] + Lower(RemoveChar(s[1..], c));
      }
    }
  }

  /** Names that differ only in ASCII case share one snapshot key. */
  lemma NormalizeIgnoresCase(fileName: string)
    ensures NormalizeFileName(Lower(fileName)) == NormalizeFileName(fileName)
  {
    var stem := Stem(fileName);
    StemLower(fileName);
    LowerKeepsNonLetter(stem, '(');
    var rep := if '(' in stem then RemoveChar(RemoveChar(stem, '('), ')') else stem;
    if '(' in stem {
      RemoveCharLower(stem, '(');
      RemoveCharLower(RemoveChar(stem, '('), ')');
    }
    SpacesLowerCommute(rep);
    LowerTwice(ReplaceChar(rep, ' ', '_'));
  }

  lemma SpacesLowerCommute(s: string)
    ensures ReplaceChar(Lower(s), ' ', '_') == Lower(ReplaceChar(s, ' ', '_'))
  {
  }

  lemma LowerTwice(s: string)
    ensures Lower(Lower(s)) == Lower(s)
  {
  }

  /** The snapshot lookup ignores case: `Fathom.vpx` and `FATHOM.VPX` probe the same image. */
  lemma SnapshotIgnoresCase(fileName: string, fileExists: string -> bool)
    ensures LoadImage(Lower(fileName), fileExists) == LoadImage(fileName, fileExists)
  {
    NormalizeIgnoresCase(fileName);
    assert |Lower(fileName)| == |fileName|;
  }
}
