/**
  ScoreRetriever: `fetchHiScore` and how its score is shown. The
  `vpinscoreparser` reader and parser are outside the model; they arrive as
  functions, and the result lists the calls made to them, so that "the
  reader is never touched" is something a contract can say.
 */
module Scores {
  import opened Wrappers
  import opened Resolver

  newtype int64 = x: int | -0x8000_0000_0000_0000 <= x < 0x8000_0000_0000_0000

  type Bytes = seq<bv8>

  /** The score `fetchHiScore` reports whenever it has none. */
  const NoScore: int64 := -1

  /** The two ways the score library can fail; each carries the library's message. */
  datatype FetchError = ReadFailed(cause: string) | ParseFailed(cause: string)

  /** A call into the score library. */
  datatype LibraryCall = ReadNVRam(rom: string) | Parse(rom: string)

  /** `fetchHiScore`'s `(int64, error)` pair, with the library calls it made, in order. */
  datatype Fetched = Fetched(score: int64, err: Option<FetchError>, calls: seq<LibraryCall>)

  /**
    `fetchHiScore(tableName)`: resolve the ROM (visiting `tableMapping` in
    the order `entries`), then read its NVRAM file and parse the score.
   */
  function FetchHiScore(
    tableName: string,
    entries: seq<Entry>,
    readNVRam: string -> Result<Bytes, string>,
    parse: (string, Bytes) -> Result<int64, string>
  ): (f: Fetched)
    ensures TableToRom(tableName, entries) == NoRom <==> f.calls == []
    ensures TableToRom(tableName, entries) == NoRom ==> f.score == NoScore && f.err == None
    ensures f.err.Some? ==> f.score == NoScore
    ensures forall c :: c in f.calls ==> c.rom == TableToRom(tableName, entries)
    ensures var rom := TableToRom(tableName, entries);
      f.calls == [ReadNVRam(rom)] <==> rom != NoRom && readNVRam(rom).Failure?
    ensures var rom := TableToRom(tableName, entries);
      f.calls == [ReadNVRam(rom)] ==> readNVRam(rom).Failure? && f.err == Some(ReadFailed(readNVRam(rom).error))
    ensures var rom := TableToRom(tableName, entries);
      rom != NoRom && readNVRam(rom).Success? ==> f.calls == [ReadNVRam(rom), Parse(rom)]
    ensures var rom := TableToRom(tableName, entries);
      f.calls == [ReadNVRam(rom), Parse(rom)] ==>
        && readNVRam(rom).Success?
        && match parse(rom, readNVRam(rom).value)
           case Success(score) => f.score == score && f.err == None
           case Failure(cause) => f.score == NoScore && f.err == Some(ParseFailed(cause))
    ensures |f.calls| <= 2
  {
    var rom := TableToRom(tableName, entries);
    if rom == NoRom then Fetched(NoScore, None, [])
    else match readNVRam(rom)
      case Failure(cause) => Fetched(NoScore, Some(ReadFailed(cause)), [ReadNVRam(rom)])
      case Success(contents) =>
        match parse(rom, contents)
        case Failure(cause) => Fetched(NoScore, Some(ParseFailed(cause)), [ReadNVRam(rom), Parse(rom)])
        case Success(score) => Fetched(score, None, [ReadNVRam(rom), Parse(rom)])
  }

  /** The score panel's text: `Hi Score: (table unsupported)` or `Hi Score: <n>`. */
  datatype ScoreLabel = TableUnsupported | HiScore(score: int64)

  function Label(score: int64): (l: ScoreLabel)
    ensures l.TableUnsupported? <==> score == NoScore
    ensures l.HiScore? ==> l.score == score
  {
    if score == NoScore then TableUnsupported else HiScore(score)
  }

  /**
    What selecting the table `fileName` puts in the score panel: a number
    exactly when the ROM is known, its NVRAM file reads, and the parser
    returns a score other than -1.
   */
  function SelectedScore(
    fileName: string,
    entries: seq<Entry>,
    readNVRam: string -> Result<Bytes, string>,
    parse: (string, Bytes) -> Result<int64, string>
  ): (l: ScoreLabel)
    ensures var rom := TableToRom(fileName, entries);
      l.HiScore? <==>
        && rom != NoRom
        && readNVRam(rom).Success?
        && parse(rom, readNVRam(rom).value).Success?
        && parse(rom, readNVRam(rom).value).value != NoScore
    ensures var rom := TableToRom(fileName, entries);
      l.HiScore? ==> rom != NoRom && readNVRam(rom).Success? && parse(rom, readNVRam(rom).value) == Success(l.score)
  {
    Label(FetchHiScore(fileName, entries, readNVRam, parse).score)
  }
}
