/** Why `tableToRomName` is deterministic, and which of its entries can answer. */
module ResolverProperties {
  import opened Strings
  import opened Resolver
  import opened Names

  /** Two prefixes of one token: the shorter is a prefix of the longer. */
  lemma PrefixesOfOneToken(token: string, a: string, b: string)
    requires HasPrefix(token, a) && HasPrefix(token, b) && |a| <= |b|
    ensures HasPrefix(b, a)
  {
    assert b[..|a|] == token[..|b|][..|a|];
  }

  /** In a prefix-free map at most one key prefixes a given token. */
  lemma UniqueMatch(token: string, m: map<string, string>, k: string)
    requires PrefixFree(m) && k in m && HasPrefix(token, k)
    ensures forall k' :: k' in m && HasPrefix(token, k') ==> k' == k
  {
    forall k' | k' in m && HasPrefix(token, k')
      ensures k' == k
    {
      if |k| <= |k'| {
        PrefixesOfOneToken(token, k, k');
      } else {
        PrefixesOfOneToken(token, k', k);
      }
    }
  }

  /** Over a prefix-free map, the first-match scan gives the order-free answer, whatever the order. */
  lemma FirstMatchIsLookup(token: string, entries: seq<Entry>, m: map<string, string>)
    requires Enumerates(entries, m) && PrefixFree(m)
    ensures FirstMatch(token, entries) == Lookup(token, m)
  {
    var rom := FirstMatch(token, entries);
    if exists k :: k in m && HasPrefix(token, k) {
      var k :| k in m && HasPrefix(token, k);
      UniqueMatch(token, m, k);
      var i :| 0 <= i < |entries| && entries[i].0 == k;
      assert HasPrefix(token, entries[i].0);
    } else {
      assert forall i :: 0 <= i < |entries| ==> !HasPrefix(token, entries[i].0) by {
        forall i | 0 <= i < |entries|
          ensures !HasPrefix(token, entries[i].0)
        {
          assert entries[i].0 in m;
        }
      }
    }
  }

  /** No key of `tableMapping` is a prefix of another. */
  lemma TableMappingPrefixFree()
    ensures PrefixFree(TableMapping)
  {
    forall a, b | a in TableMapping && b in TableMapping && a != b
      ensures !HasPrefix(b, a)
    {
      // the keys already differ in their first two letters
      assert |a| >= 2 && |b| >= 2;
      assert a[0] != b[0] || a[1] != b[1];
    }
  }

  /** Every iteration order of `tableMapping` yields the same ROM. */
  lemma OrderIndependent(name: string, entries1: seq<Entry>, entries2: seq<Entry>)
    requires Enumerates(entries1, TableMapping) && Enumerates(entries2, TableMapping)
    ensures TableToRom(name, entries1) == TableToRom(name, entries2)
  {
    TableMappingPrefixFree();
    FirstMatchIsLookup(ScanToken(name), entries1, TableMapping);
    FirstMatchIsLookup(ScanToken(name), entries2, TableMapping);
  }

  /**
    What `tableToRomName` answers: a ROM exactly when some key prefixes the
    scanned token, and then that key's ROM; otherwise the empty string.
   */
  lemma TableToRomMeaning(name: string, entries: seq<Entry>)
    requires Enumerates(entries, TableMapping)
    ensures TableToRom(name, entries) == NoRom <==> forall k :: k in TableMapping ==> !HasPrefix(ScanToken(name), k)
    ensures TableToRom(name, entries) == NoRom || TableToRom(name, entries) in TableMapping.Values
    ensures forall k :: k in TableMapping && HasPrefix(ScanToken(name), k) ==> TableToRom(name, entries) == TableMapping[k]
  {
    var token := ScanToken(name);
    TableMappingPrefixFree();
    MappingRomsNonEmpty();
    FirstMatchIsLookup(token, entries, TableMapping);
    if exists k :: k in TableMapping && HasPrefix(token, k) {
      var k :| k in TableMapping && HasPrefix(token, k);
      UniqueMatch(token, TableMapping, k);
    }
  }

  /** Every key of `tableMapping` but `black_knight` is made of lower-case letters only. */
  lemma MappingKeyShapes()
    ensures forall k :: k in TableMapping ==> k == "black_knight" || LetterKey(k)
  {
  }

  /** Only `black_knight` maps to `bk_l4.nv`. */
  lemma OnlyBlackKnightHasItsRom()
    ensures forall k :: k in TableMapping && TableMapping[k] == "bk_l4.nv" ==> k == "black_knight"
  {
  }

  /** No entry of `tableMapping` maps to the empty string. */
  lemma MappingRomsNonEmpty()
    ensures forall k :: k in TableMapping ==> TableMapping[k] != NoRom
  {
  }

  /** A key holding `_` never prefixes a string without one. */
  lemma UnderscoreKeyNeverMatches(token: string, k: string)
    requires '_' in k && '_' !in token
    ensures !HasPrefix(token, k)
  {
  }

  /** The `black_knight` key holds a `_`, which a scanned token never does: `bk_l4.nv` is never returned. */
  lemma BlackKnightUnreachable(name: string, entries: seq<Entry>)
    requires Enumerates(entries, TableMapping)
    ensures TableToRom(name, entries) != "bk_l4.nv"
  {
    var token := ScanToken(name);
    assert "black_knight"[5] == '_';
    UnderscoreKeyNeverMatches(token, "black_knight");
    OnlyBlackKnightHasItsRom();
    forall i | 0 <= i < |entries| && HasPrefix(token, entries[i].0)
      ensures entries[i].1 != "bk_l4.nv"
    {
      assert entries[i].0 in TableMapping;
    }
  }

  /** A key made of lower-case ASCII letters only. */
  ghost predicate LetterKey(k: string) {
    forall i :: 0 <= i < |k| ==> IsLowerLetter(k[i])
  }

  /** For a letters-only key, cutting the name at its first space or `_` changes nothing. */
  lemma LetterKeyMatchesLowerName(k: string, x: string)
    requires LetterKey(k)
    ensures HasPrefix(ScanToken(x), k) <==> HasPrefix(Lower(x), k)
  {
    var t := ScanToken(x);
    if HasPrefix(Lower(x), k) {
      assert t[..|k|] == Lower(x)[..|k|];
    }
    if HasPrefix(t, k) {
      assert Lower(x)[..|k|] == t[..|k|];
    }
  }

  /**
    For a letters-only key, two strings that agree up to a non-letter (or
    their end) are matched alike.
   */
  lemma LetterKeyStopsAtNonLetter(k: string, x: string, y: string, p: nat)
    requires LetterKey(k)
    requires p <= |x| && p <= |y| && x[..p] == y[..p]
    requires p == |x| || !IsAsciiLetter(x[p])
    requires p == |y| || !IsAsciiLetter(y[p])
    ensures HasPrefix(Lower(x), k) <==> HasPrefix(Lower(y), k)
  {
    if |k| <= p {
      assert forall i :: 0 <= i < |k| ==> x[i] == x[..p][i] == y[..p][i] == y[i];
    }
  }

  /** The raw file name and its display title agree up to the first non-letter. */
  lemma NameAndTitleShareLetters(name: string) returns (p: nat)
    ensures p <= |name| && p <= |FormatFileName(name)|
    ensures name[..p] == FormatFileName(name)[..p]
    ensures p == |name| || !IsAsciiLetter(name[p])
    ensures p == |FormatFileName(name)| || !IsAsciiLetter(FormatFileName(name)[p])
  {
    var stem := Stem(name);
    var title := FormatFileName(name);
    assert ExtStart(name) < |name| ==> name[ExtStart(name)] == '.';
    if '(' in stem {
      p := |title| - 1;
      assert title[p] == ')';
      assert p < |stem| ==> name[p] == stem[p] == ')';
      assert stem[..p] == title[..p];
    } else {
      p := |stem|;
    }
  }

  /** Go visits the same entries, in the same order, for both tokens. */
  lemma {:induction false} FirstMatchAgree(t1: string, t2: string, entries: seq<Entry>)
    requires forall i :: 0 <= i < |entries| ==> (HasPrefix(t1, entries[i].0) <==> HasPrefix(t2, entries[i].0))
    ensures FirstMatch(t1, entries) == FirstMatch(t2, entries)
  {
    if |entries| > 0 {
      FirstMatchAgree(t1, t2, entries[1..]);
    }
  }

  /**
    The caller hands `tableToRomName` the raw file name (extension and all)
    rather than the display title; over `tableMapping` both give the same ROM.
   */
  lemma RawNameAndTitleAgree(name: string, entries: seq<Entry>)
    requires Enumerates(entries, TableMapping)
    ensures TableToRom(name, entries) == TableToRom(FormatFileName(name), entries)
  {
    var title := FormatFileName(name);
    var p := NameAndTitleShareLetters(name);
    forall i | 0 <= i < |entries|
      ensures HasPrefix(ScanToken(name), entries[i].0) <==> HasPrefix(ScanToken(title), entries[i].0)
    {
      var k := entries[i].0;
      MappingKeyShapes();
      if k == "black_knight" {
        assert k[5] == '_';
      } else {
        assert LetterKey(k);
        LetterKeyMatchesLowerName(k, name);
        LetterKeyMatchesLowerName(k, title);
        LetterKeyStopsAtNonLetter(k, name, title, p);
      }
    }
    FirstMatchAgree(ScanToken(name), ScanToken(title), entries);
  }

  /** The token of `w rest` for a first word `w` without space or `_` is `w` lower-cased. */
  lemma FirstWordToken(w: string, rest: string)
    requires ' ' !in w && '_' !in w
    ensures ScanToken(w + [' '] + rest) == Lower(w)
  {
    var name := w + [' '] + rest;
    assert name[|w|] == ' ' && name[..|w|] == w;
    BeforeFirstAt(name, ' ', |w|);
    BeforeFirstAt(w, '_', |w|);
  }

  lemma FathomWords()
    ensures "Fathom (Williams 1981).vpx" == "Fathom" + [' '] + "(Williams 1981).vpx"
    ensures Lower("Fathom") == "fathom"
  {
  }

  lemma FathomToken()
    ensures ScanToken("Fathom (Williams 1981).vpx") == "fathom"
  {
    FathomWords();
    FirstWordToken("Fathom", "(Williams 1981).vpx");
  }

  /** A name whose token is exactly a key resolves to that key's ROM. */
  lemma TokenIsKey(name: string, entries: seq<Entry>, k: string)
    requires Enumerates(entries, TableMapping)
    requires k in TableMapping && ScanToken(name) == k
    ensures TableToRom(name, entries) == TableMapping[k]
  {
    TableToRomMeaning(name, entries);
    assert HasPrefix(ScanToken(name), k);
  }

  lemma FathomKey()
    ensures "fathom" in TableMapping && TableMapping["fathom"] == "fathom.nv"
  {
  }

  lemma FathomResolves(entries: seq<Entry>)
    requires Enumerates(entries, TableMapping)
    ensures TableToRom("Fathom (Williams 1981).vpx", entries) == "fathom.nv"
  {
    FathomToken();
    FathomKey();
    TokenIsKey("Fathom (Williams 1981).vpx", entries, "fathom");
  }

  /** Neither `black` nor `asteroid` starts with a key of `tableMapping`. */
  lemma NoKeyPrefixesUnmappedTokens()
    ensures forall k :: k in TableMapping ==> !HasPrefix("black", k)
    ensures forall k :: k in TableMapping ==> !HasPrefix("asteroid", k)
  {
    forall k | k in TableMapping
      ensures !HasPrefix("black", k) && !HasPrefix("asteroid", k)
    {
      assert |k| > |"black"| || k[0] != "black"[0];
      assert |k| > |"asteroid"| || k[0] != "asteroid"[0];
    }
  }

  lemma BlackKnightWords()
    ensures "Black Knight (Williams 1980).vpx" == "Black" + [' '] + "Knight (Williams 1980).vpx"
    ensures Lower("Black") == "black"
  {
  }

  /** The table the `black_knight` entry was meant for gets no ROM: its token is `black`. */
  lemma BlackKnightTableUnsupported(entries: seq<Entry>)
    requires Enumerates(entries, TableMapping)
    ensures TableToRom("Black Knight (Williams 1980).vpx", entries) == NoRom
  {
    BlackKnightWords();
    FirstWordToken("Black", "Knight (Williams 1980).vpx");
    NoKeyPrefixesUnmappedTokens();
    TableToRomMeaning("Black Knight (Williams 1980).vpx", entries);
  }

  lemma AsteroidAnnieWords()
    ensures "Asteroid Annie.vpx" == "Asteroid" + [' '] + "Annie.vpx"
    ensures Lower("Asteroid") == "asteroid"
  {
  }

  lemma AsteroidAnnieUnsupported(entries: seq<Entry>)
    requires Enumerates(entries, TableMapping)
    ensures TableToRom("Asteroid Annie.vpx", entries) == NoRom
  {
    AsteroidAnnieWords();
    FirstWordToken("Asteroid", "Annie.vpx");
    NoKeyPrefixesUnmappedTokens();
    TableToRomMeaning("Asteroid Annie.vpx", entries);
  }
}
