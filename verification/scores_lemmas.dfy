/** What the score panel can show after a table is selected. */
module ScoreProperties {
  import opened Wrappers
  import opened Resolver
  import opened ResolverProperties
  import opened Names
  import opened Scores

  /**
    A score the parser reads as -1 is indistinguishable from "no score": the
    panel says `(table unsupported)` although no error occurred.
   */
  lemma ParsedMinusOneShowsUnsupported(
    fileName: string,
    entries: seq<Entry>,
    readNVRam: string -> Result<Bytes, string>,
    parse: (string, Bytes) -> Result<int64, string>)
    requires TableToRom(fileName, entries) != NoRom
    requires readNVRam(TableToRom(fileName, entries)).Success?
    requires parse(TableToRom(fileName, entries), readNVRam(TableToRom(fileName, entries)).value) == Success(-1)
    ensures FetchHiScore(fileName, entries, readNVRam, parse).err == None
    ensures SelectedScore(fileName, entries, readNVRam, parse) == TableUnsupported
  {
  }

  /** Two lookups that resolve to the same ROM fetch the same thing. */
  lemma FetchDependsOnlyOnRom(
    name1: string,
    entries1: seq<Entry>,
    name2: string,
    entries2: seq<Entry>,
    readNVRam: string -> Result<Bytes, string>,
    parse: (string, Bytes) -> Result<int64, string>)
    requires TableToRom(name1, entries1) == TableToRom(name2, entries2)
    ensures FetchHiScore(name1, entries1, readNVRam, parse) == FetchHiScore(name2, entries2, readNVRam, parse)
  {
  }

  /** The fetch, library calls included, does not depend on the order Go visits `tableMapping`. */
  lemma FetchOrderIndependent(
    fileName: string,
    entries1: seq<Entry>,
    entries2: seq<Entry>,
    readNVRam: string -> Result<Bytes, string>,
    parse: (string, Bytes) -> Result<int64, string>)
    requires Enumerates(entries1, TableMapping) && Enumerates(entries2, TableMapping)
    ensures FetchHiScore(fileName, entries1, readNVRam, parse) == FetchHiScore(fileName, entries2, readNVRam, parse)
  {
    OrderIndependent(fileName, entries1, entries2);
    FetchDependsOnlyOnRom(fileName, entries1, fileName, entries2, readNVRam, parse);
  }

  /** Fetching by raw file name, as the selection handler does, equals fetching by display title. */
  lemma FetchByNameOrTitle(
    fileName: string,
    entries: seq<Entry>,
    readNVRam: string -> Result<Bytes, string>,
    parse: (string, Bytes) -> Result<int64, string>)
    requires Enumerates(entries, TableMapping)
    ensures FetchHiScore(fileName, entries, readNVRam, parse) ==
            FetchHiScore(FormatFileName(fileName), entries, readNVRam, parse)
  {
    RawNameAndTitleAgree(fileName, entries);
    FetchDependsOnlyOnRom(fileName, entries, FormatFileName(fileName), entries, readNVRam, parse);
  }

  /** The `bk_l4.nv` file is never read nor parsed. */
  lemma BlackKnightRomNeverRead(
    fileName: string,
    entries: seq<Entry>,
    readNVRam: string -> Result<Bytes, string>,
    parse: (string, Bytes) -> Result<int64, string>)
    requires Enumerates(entries, TableMapping)
    ensures forall c :: c in FetchHiScore(fileName, entries, readNVRam, parse).calls ==> c.rom != "bk_l4.nv"
  {
    BlackKnightUnreachable(fileName, entries);
  }

  /** A table with no mapping is reported unsupported without touching the score library. */
  lemma AsteroidAnnieNeverReads(
    entries: seq<Entry>,
    readNVRam: string -> Result<Bytes, string>,
    parse: (string, Bytes) -> Result<int64, string>)
    requires Enumerates(entries, TableMapping)
    ensures FetchHiScore("Asteroid Annie.vpx", entries, readNVRam, parse) == Fetched(NoScore, None, [])
  {
    AsteroidAnnieUnsupported(entries);
  }
}
