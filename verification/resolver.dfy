/**
  TitleToStoreResolver: `tableToRomName` over the static `tableMapping`.
  Go ranges over a map in an unspecified order, so the model receives that
  order as an explicit sequence of (prefix, ROM file) entries; the lemmas
  show the answer is the same for every order.
 */
module Resolver {
  import opened Strings

  /** One `tableMapping` pair: a lower-case table-name prefix and the NVRAM file of its ROM. */
  type Entry = (string, string)

  /** The answer meaning "no ROM known for this table". */
  const NoRom: string := ""

  /** `tableMapping` */
  const TableMapping: map<string, string> := map[
    "barracora" := "barra_l1.nv",
    "elektra" := "elektra.nv",
    "firepower" := "frpwr_b7.nv",
    "seawitch" := "seawitch.nv",
    "warlok" := "wrlok_l3.nv",
    "black_knight" := "bk_l4.nv",
    "fathom" := "fathom.nv",
    "scorpion" := "scrpn_l1.nv",
    "viper" := "viper.nv"
  ]

  /**
    The token `tableToRomName` looks up: the text before the first space,
    cut again before the first `_`, lower-cased.
   */
  function ScanToken(name: string): (t: string)
    ensures |t| <= |name| && t == Lower(name[..|t|])
    ensures ' ' !in name[..|t|] && '_' !in name[..|t|]
    ensures |t| == |name| || name[|t|] == ' ' || name[|t|] == '_'
    ensures ' ' !in t && '_' !in t && NoUpper(t)
  {
    var word := BeforeFirst(BeforeFirst(name, ' '), '_');
    LowerKeepsNonLetter(word, ' ');
    LowerKeepsNonLetter(word, '_');
    Lower(word)
  }

  /** The `range tableMapping` loop: the ROM of the first entry whose key prefixes `token`. */
  function FirstMatch(token: string, entries: seq<Entry>): (rom: string)
    ensures
      || (exists i :: 0 <= i < |entries| && HasPrefix(token, entries[i].0) && rom == entries[i].1)
      || (rom == NoRom && forall i :: 0 <= i < |entries| ==> !HasPrefix(token, entries[i].0))
    ensures forall i :: 0 <= i < |entries| && HasPrefix(token, entries[i].0) ==>
      (forall j :: 0 <= j < i ==> !HasPrefix(token, entries[j].0)) ==> rom == entries[i].1
  {
    if |entries| == 0 then NoRom
    else if HasPrefix(token, entries[0].0) then entries[0].1
    else
      var rom := FirstMatch(token, entries[1..]);
      assert forall i :: 1 <= i < |entries| ==> entries[1..][i - 1] == entries[i];
      rom
  }

  /** `tableToRomName(name)` when Go happens to visit the map in the order `entries`. */
  function TableToRom(name: string, entries: seq<Entry>): (rom: string)
    ensures rom == NoRom || exists i :: 0 <= i < |entries| && rom == entries[i].1 && HasPrefix(ScanToken(name), entries[i].0)
    ensures (forall i :: 0 <= i < |entries| ==> !HasPrefix(ScanToken(name), entries[i].0)) ==> rom == NoRom
    ensures forall i :: 0 <= i < |entries| && HasPrefix(ScanToken(name), entries[i].0) ==>
      (forall j :: 0 <= j < i ==> !HasPrefix(ScanToken(name), entries[j].0)) ==> rom == entries[i].1
  {
    FirstMatch(ScanToken(name), entries)
  }

  /** `entries` lists exactly the pairs of `m`, in some order, possibly repeating. */
  ghost predicate Enumerates(entries: seq<Entry>, m: map<string, string>) {
    && (forall i :: 0 <= i < |entries| ==> entries[i].0 in m && m[entries[i].0] == entries[i].1)
    && (forall k :: k in m ==> exists i :: 0 <= i < |entries| && entries[i].0 == k)
  }

  /** No key of `m` is a proper prefix of another. */
  ghost predicate PrefixFree(m: map<string, string>) {
    forall a, b :: a in m && b in m && a != b ==> !HasPrefix(b, a)
  }

  /** The order-free answer: the ROM of a key of `m` that prefixes `token`, if any does. */
  ghost function Lookup(token: string, m: map<string, string>): string {
    if exists k :: k in m && HasPrefix(token, k) then
      var k :| k in m && HasPrefix(token, k);
      m[k]
    else NoRom
  }
}
