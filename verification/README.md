# vpinlauncher table session core, in Dafny

This project models the non-UI logic of `vpinlauncher`, a desktop launcher for
the Visual Pinball emulator (`main.go`). The launcher lists the `.vpx` table
files of a directory and shows each under a display title. It looks up a
snapshot image under a normalised key. It resolves a table to the NVRAM file
of its ROM and asks the `vpinscoreparser` library for the stored high score.
It also launches the emulator with `-play` and classifies how the session
ended.

Modules follow the parts of `main.go`:

- `Strings`: character and sequence helpers that stand in for Go's `strings`
  functions.
- `Names`: `filepath.Ext`, `normalizeFileName`, `formatFileName` and the path
  `loadImage` probes.
- `Resolver`: `tableToRomName` and `tableMapping`.
- `Scores`: `fetchHiScore` and the text of the score panel.
- `Catalog`: `scanTables`.
- `Session`: the `clicked` handler.
- `*Properties` modules (`NameProperties`, `ResolverProperties`,
  `ScoreProperties`, `CatalogProperties`, `SessionProperties`): the lemmas.

Everything outside the process is a function parameter: the directory
listing, the file-existence probe, the NVRAM reader, the score parser and the
emulator run. Go visits a `map` in an unspecified order. The resolver
therefore takes that order as a sequence of entries, and the lemmas prove the
answer does not depend on it.

## Model

| member | source | states |
|---|---|---|
| Strings.Lower | main.go:175 | same length; each character is lower-cased, ASCII letters only; the result has no upper-case letter |
| Strings.ReplaceChar | main.go:174 | every occurrence of one character becomes another, everything else unchanged; the old character is gone |
| Strings.RemoveChar | main.go:169-170 | the character is gone, and every other character keeps its number of occurrences |
| Strings.RemoveCharAppend | main.go:169-170 | deleting a character distributes over concatenation, so the kept characters stay in order |
| Strings.RemoveCharAbsent | main.go:169-170 | deleting a character that does not occur leaves the string unchanged |
| Strings.BeforeFirst | main.go:183-184 | `strings.Split(s, c)[0]`: the longest prefix without `c`, ending at the first `c` or at the end |
| Strings.Contains | main.go:65 | `strings.Contains`: true exactly when the marker occurs at some position of the output |
| Names.ExtStart | main.go:166 | `filepath.Ext`: the unique `.` after which there is no further `.` or `/`, or no extension at all |
| Names.Stem | main.go:166 | `strings.TrimSuffix(s, filepath.Ext(s))`: a prefix of the name, cut exactly where its extension starts, or the whole name when it has none |
| Names.NormalizeFileName | main.go:164-177 | the stem with both parentheses deleted when it holds a `(` (otherwise as is), then spaces become `_` and every other kept character is lower-cased in place; so the key has no space, no `(` and no upper case |
| Names.FormatFileName | main.go:179-189 | a stem without `(` is its own title; otherwise the title is the stem up to its first `)` (or all of it) followed by one `)` |
| Names.LoadImage | main.go:145-162 | fails with `EmptyFileName` exactly for an empty name; otherwise probes `table_snapshots/` + the key + `.png`, succeeds exactly when that path exists, and otherwise fails with `SnapshotMissing` carrying that path |
| NameProperties.NormalizeIdempotent | main.go:165-177 | re-normalising a key leaves it unchanged whenever the key has no `.` |
| NameProperties.NormalizeNotIdempotentWithDot | main.go:166 | `x v1.2.vpx` gives the key `x_v1.2`, and normalising that again gives `x_v1` |
| NameProperties.NormalizeIgnoresCase | main.go:165-177 | lower-casing the file name first does not change its key |
| NameProperties.OneGroupTitle | main.go:179-189 | for any `a` and `b` without parentheses, dots allowed, a name `a(b)` plus an extension is titled `a(b)` |
| NameProperties.OneGroupKey | main.go:165-177 | for any `a` and `b` without parentheses, dots allowed, a name `a(b)` plus an extension has the key of `ab` with spaces as `_`, lower-cased |
| NameProperties.OneGroupTitleKeepsKey | main.go:165-189 | for such names with `a` and `b` free of `.`, the title and the file name give the same snapshot key |
| NameProperties.DottedGroupTitleChangesKey | main.go:165-189 | the `.` condition is needed: `X (v1.2).vpx` is keyed `x_v1.2`, but its title `X (v1.2)` is keyed `x_v1` |
| NameProperties.SnapshotIgnoresCase | main.go:145-162 | lower-casing the file name first does not change which snapshot is probed or the outcome |
| NameProperties.FathomExample | main.go:165-189 | `Fathom (Williams 1981).vpx` is titled `Fathom (Williams 1981)` and keyed `fathom_williams_1981` |
| NameProperties.ViperExample | main.go:165-189 | `Viper.vpx` is titled `Viper` and keyed `viper` |
| Resolver.ScanToken | main.go:217-222 | the token is the lower-cased text before the first space or `_`, so it holds neither |
| Resolver.FirstMatch | main.go:223-228 | the ROM of the first entry whose key prefixes the token, or `""` exactly when no key does |
| Resolver.TableToRom | main.go:216-229 | the ROM of the first visited entry whose key prefixes the table's token; `""` when no key does |
| ResolverProperties.FirstMatchIsLookup | main.go:223-228 | over prefix-free keys, the first match in any enumeration equals the order-free lookup |
| ResolverProperties.TableMappingPrefixFree | main.go:231-241 | no key of `tableMapping` is a prefix of another |
| ResolverProperties.OrderIndependent | main.go:216-241 | every iteration order of `tableMapping` gives the same ROM |
| ResolverProperties.TableToRomMeaning | main.go:216-241 | `""` exactly when no key prefixes the token; otherwise the ROM that `tableMapping` assigns to the matching key |
| ResolverProperties.BlackKnightUnreachable | main.go:220-237 | no table name ever resolves to `bk_l4.nv`, because the token never contains `_` |
| ResolverProperties.RawNameAndTitleAgree | main.go:96 | resolving the raw file name, as the handler does, gives the same ROM as resolving its display title |
| ResolverProperties.TokenIsKey | main.go:223-226 | a name whose token is exactly a key of `tableMapping` resolves to that key's ROM, whatever the iteration order |
| ResolverProperties.FathomResolves | main.go:216-241 | `Fathom (Williams 1981).vpx` resolves to `fathom.nv` |
| ResolverProperties.BlackKnightTableUnsupported | main.go:216-241 | `Black Knight (Williams 1980).vpx` resolves to `""` |
| ResolverProperties.AsteroidAnnieUnsupported | main.go:216-241 | `Asteroid Annie.vpx` resolves to `""` |
| Scores.FetchHiScore | main.go:123-143 | no ROM: -1 with no error and no library call; a failed read: -1 and the read error, with no parse; a good read: read then parse, giving the parser's score with no error, or -1 and the parse error |
| Scores.SelectedScore | main.go:96-104 | the panel shows a number exactly when the ROM is known, its NVRAM file reads and the parser returns a score other than -1, and that number is the parser's result |
| Scores.Label | main.go:100-104 | the panel says "table unsupported" exactly when the score is -1, and shows the score otherwise |
| ScoreProperties.ParsedMinusOneShowsUnsupported | main.go:100-101 | a successfully parsed -1 is shown as "table unsupported", with no error |
| ScoreProperties.FetchDependsOnlyOnRom | main.go:123-143 | two table names that resolve to the same ROM get the same score, error and library calls |
| ScoreProperties.FetchOrderIndependent | main.go:123-127 | the whole fetch, library calls included, does not depend on the map's iteration order |
| ScoreProperties.FetchByNameOrTitle | main.go:96 | fetching by file name and fetching by display title agree |
| ScoreProperties.BlackKnightRomNeverRead | main.go:123-132 | `bk_l4.nv` is never read and never parsed |
| ScoreProperties.AsteroidAnnieNeverReads | main.go:123-127 | the unmapped example `Asteroid Annie.vpx` gets -1 with no error and no library call |
| Catalog.TablePositions | main.go:202-212 | the positions of the table entries: in range, ascending, and covering every table entry |
| Catalog.ScanTables | main.go:191-214 | an empty path and a failed listing are errors; otherwise `Catalog.TableNames` of the listing: the names of the non-directory `.vpx` entries, in listing order |
| CatalogProperties.TableNamesFollowPositions | main.go:202-212 | the k-th listed table is the entry at the k-th table position |
| CatalogProperties.TableNamesMembership | main.go:202-212 | a name is listed exactly when a non-directory entry ending in `.vpx` carries it |
| CatalogProperties.ScanExample | main.go:204-210 | from `a.vpx`, `b.txt`, `c.VPX` and a directory `subdir`, only `a.vpx` is kept, so the suffix is case-sensitive |
| CatalogProperties.HiddenFileKeptDirectoryDropped | main.go:204-210 | a dot-file `.old.vpx` is kept, while a directory named `x.vpx` is dropped |
| Session.PlayCommand | main.go:59 | the emulator is given exactly `-play` and `<tablesPath>/<fileName>` |
| Session.Launch | main.go:57-69 | a failed run terminates with status 1; otherwise the session is "closed by player" exactly when the output contains `Player closed.`, and a normal exit otherwise |
| SessionProperties.PlayCommandInjective | main.go:59 | different table files give different emulator commands |
| SessionProperties.MarkerAnywhereDetected | main.go:65 | the marker counts wherever it appears in the output |
| SessionProperties.MarkerSplitsOutput | main.go:65 | conversely, output classified as "closed by player" is some text, then the marker, then some text |

## Behaviour kept from the code

The model follows `main.go` in each of these points:

- Extension: only the last extension is stripped, as `filepath.Ext` does. A
  name is not matched against a list of recognised suffixes.
- Idempotence: the snapshot key is not always idempotent. A dot left inside
  the key is read as an extension the second time
  (`NameProperties.NormalizeNotIdempotentWithDot`). Idempotence holds for keys
  without a dot (`NameProperties.NormalizeIdempotent`).
- Unbalanced `(`: a stem with `(` and no `)` is titled with the whole stem
  plus one `)`. No empty segment arises.
- Black Knight: the `black_knight` entry can never match. `Black Knight
  (Williams 1980)` therefore resolves to no ROM, not to `bk_l4.nv`.
- Tie-break: the keys of `tableMapping` are prefix-free. At most one key
  matches, so first-match and longest-prefix selection give the same answer.
- Dot-files: entries whose names start with a dot are not skipped.
- Failed emulator run: the launcher exits with status 1 (`Terminated(1)`). The
  failure is not surfaced as a recoverable error.

## Left out

- Fyne UI: the window, list widget, splits, button, dialogs and image canvas
  are left out. The list shows `FormatFileName` of each entry. The score panel
  shows `Label`, and `SelectedScore` composes it with the fetch.
- `tables[0]`: main.go:45 and main.go:55 read `tables[0]`, which panics
  whenever the table list is empty (a failed scan, or no `.vpx` file). The
  model has no such startup step.
- `scanTables` error handling: the startup code shows the error in a dialog
  (main.go:31-35), then panics at main.go:45 because the table list is nil.
  This UI path is not modelled.
- Logging: the `log.Printf`, `fmt.Println` and `popupImgErrs` calls only write
  text, so they are left out.
- Hard-coded paths: the emulator path, the tables directory and the NVRAM
  directory are hard-coded in main.go. Here they are parameters, or, for the
  NVRAM directory, internal to the reader.
- `os.ReadDir`, `os.Stat`, `exec.Command(...).Output()`, `ReadNVRamFile` and
  `Parse` are function parameters. Their behaviour is whatever the caller
  supplies. Go's `os.ReadDir` returns its entries sorted by file name; the
  model takes a listing in any order, so the catalog properties hold for
  every order, the sorted one included.
- `vpinscoreparser` is not part of this model.
- Strings.Lower: folds ASCII `A`-`Z` only. Go's `strings.ToLower` also folds
  non-ASCII letters, which the model does not attempt.
- Names.ExtStart: treats only `/` as a separator, as on Linux.
- Names.LoadImage: returns the snapshot path instead of a decoded
  `canvas.Image`. Decoding the image is left out.
- Scores.FetchHiScore: errors carry the library's message in a constructor
  (`ReadFailed` or `ParseFailed`). The model does not reproduce the formatted
  strings, such as `failed reading rom: ...`.
- Session.Launch: the outcome depends only on whether the run failed and on
  the captured standard output. A non-zero exit status is part of the `run`
  parameter's failure case, as `Output` reports it as an error.
