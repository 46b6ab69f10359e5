# scan_stitcher tile discovery, modelled in Dafny

scan_stitcher is a command-line tool. It lists a dataset directory and parses
every regular file's path as a tile name of the form
`Tile_r<row>-c<col>_Region<region>`, aborting on the first path that is not
one. It collects `(path, MetaData)` pairs.
`MetaData` holds the region, row and column as `u32` values. This project
models that discovery step and proves what it does:

- `Decimal` (decimal.dfy) covers ASCII digits and decimal values. It models
  `str::parse::<u32>` as checked digit-by-digit accumulation. It also renders
  a number in decimal, for the round trip.
- `TileName` (tile_name.dfy) models the regular expression
  `Tile_r(\d+)-c(\d+)_Region(\d+)`. The match at one position is computed
  with greedy digit runs, and the engine scans for the leftmost position where
  the pattern matches. `ParseTile` is the per-path parse. The regex is
  specified declaratively by `Occurrence`, `PatternAt` and `LeftmostMatch`,
  and the executable matcher is proved equal to that specification.
- `Discovery` (discovery.dfy) models the `for entry in read_dir(..)` loop.
  `CollectTiles` is a method with a loop that grows `files` the way the
  program pushes onto its `Vec`. It is proved equal to the fold `Collect`,
  whose properties are proved as lemmas.
- `Wrappers` (wrappers.dfy) holds `Option` and `Result`.

Each `unwrap` that can panic becomes an explicit failure value:
- a `TileError`: `NoMatch`, or `OutOfRange` naming the field;
- a `RunError`: an unreadable entry, or a file name that does not parse.

The code searches the whole path, unanchored, and takes the leftmost match.
It panics on the first bad file and keeps a plain `Vec` without
deduplication. The model does the same.

## Model

| member | source | states |
|---|---|---|
| `Decimal.Dec` | src/main.rs:54-56 | Renders a number as a non-empty digit string whose decimal value is that number, with no leading zero for a positive number. It is the inverse used for the round trip. |
| `Decimal.Accumulate` | src/main.rs:54-56 | The checked digit loop of `u32::from_str`. `AccumulateValue` and `AccumulateRejects` specify it: the value of a digit run when it fits in a u32, and failure on overflow or on a non-digit. |
| `Decimal.AccumulateValue` | src/main.rs:54-56 | The checked loop `acc * 10 + digit` over an all-digit string gives the string's decimal value when it fits in a u32. It fails exactly when the value exceeds 4294967295, so there is no wrap-around. |
| `Decimal.AccumulateRejects` | src/main.rs:54-56 | A non-digit character anywhere in the remaining text makes the checked loop fail. |
| `Decimal.ParseU32` | src/main.rs:54-56 | The parse succeeds exactly when the text after an optional leading `+` is a non-empty run of ASCII digits. Its value must also be at most 4294967295. On success it yields that value. |
| `TileName.DigitRunEnd` | src/main.rs:47 | `\d+` is greedy: the run found is all digits and is followed by a non-digit or the end of the path. |
| `TileName.MatchAt` | src/main.rs:47 | Soundness of the one-position matcher: anything it reports is a greedy match of the pattern at that position. |
| `TileName.MatchAtComplete` | src/main.rs:47 | Completeness of the one-position matcher: every greedy match at a position is exactly what the matcher reports there. |
| `TileName.PatternAtIffMatchAt` | src/main.rs:47 | The pattern can match at a position, with some choice of digit runs, exactly when the greedy attempt there succeeds. |
| `TileName.Search` | src/main.rs:53 | The scan reports a match at the first position, from its start, where the one-position matcher succeeds. It reports none only when no position succeeds. |
| `TileName.SearchIsLeftmost` | src/main.rs:53 | The match found is the leftmost one, and nothing is found exactly when the pattern occurs nowhere in the path. |
| `TileName.LeftmostUnique` | src/main.rs:53 | The leftmost greedy match is unique, in position and in captures. |
| `TileName.ParseTile` | src/main.rs:53-56 | The per-path parse. `ParseTileNoMatch` and `ParseTileOfLeftmost` specify it on every input. `NoMatch` means the pattern occurs nowhere. Otherwise the three decimal values of the leftmost match's groups are returned, or the first `OutOfRange`, in the order region, row, column. |
| `TileName.ParseTileNoMatch` | src/main.rs:53 | The parse fails with `NoMatch` exactly when the pattern occurs nowhere in the path; otherwise a leftmost match exists. |
| `TileName.ParseTileOfLeftmost` | src/main.rs:53-56 | Field mapping: row comes from group 1, column from group 2 and region from group 3, each the decimal value of its digits. An out-of-range group fails the parse; region is checked first, then row, then column. |
| `TileName.MatchTextOccurs` | src/main.rs:47 | A tile name built from three digit runs, placed anywhere in a path, is an occurrence of the pattern whose groups capture exactly those runs. |
| `TileName.TileNameInPath` | src/main.rs:47 | Unanchored search: a tile name is the leftmost match if `Tile_r` does not occur before it and its region digits end where it ends. Directories before it and any text after it, a second tile name included, make no difference. |
| `TileName.ParseTileName` | src/main.rs:53-56 | For a tile name after any prefix in which `Tile_r` does not occur, and before any suffix that does not start with a digit, the parse gives the decimal values of its row, column and region runs. A value above the u32 range is the matching `OutOfRange` error, checked in the order region, row, column. |
| `TileName.RoundTripInPath` | src/main.rs:47-56 | Every u32 address written as a tile name parses back to itself. This holds after any prefix in which `Tile_r` does not occur, and before any suffix that does not start with a digit. |
| `TileName.RoundTrip` | src/main.rs:47-56 | The bare tile name of every address parses back to that address. |
| `TileName.NoMarkerNoMatch` | src/main.rs:53 | A path in which `Tile_r` never occurs fails with `NoMatch`, never with a partial address. |
| `TileName.LowerCaseNoMatch` | src/main.rs:47 | The literal text is case-sensitive: a path with no capital `T` fails with `NoMatch`. |
| `TileName.FirstOfTwoNames` | src/main.rs:53 | When a path holds two tile names, the first one determines the address. |
| `TileName.RegionRunIsGreedy` | src/main.rs:47 | Digits right after the region run belong to the region: the region is the value of the whole run, or an out-of-range error if that value is too large. |
| `TileName.LeadingZerosValue` | src/main.rs:54-56 | Leading zeros do not change a decimal value. |
| `TileName.PaddedRoundTrip` | src/main.rs:54-56 | Zero-padded tile names, such as `Tile_r007-c012_Region3`, parse to the same address as unpadded ones. |
| `Discovery.Contribution` | src/main.rs:50-57 | One entry fails exactly when it is unreadable, or is a file whose name does not parse. Otherwise it contributes one tile per file and none for a non-file. That tile carries the file's own path and the parse of that path. |
| `Discovery.Collect` | src/main.rs:48-59 | The run over a listing, as a fold that stops at the first failure. `CollectFailsAtFirst` specifies it: success exactly when no entry fails, and otherwise the first failing entry's error. `CollectKeepsEveryFile` specifies it too: one (path, parse of path) pair per regular file, in order. `CollectAppend` and `DuplicatesKept` show that nothing is deduplicated. |
| `Discovery.CollectTiles` | src/main.rs:48-59 | The loop returns exactly `Collect` of the listing. Its invariant is that `files` is the collection of the entries processed so far, and it returns at the first failure. |
| `Discovery.FailureSticks` | src/main.rs:50-56 | Fail-fast: once a prefix of the listing fails, the whole run fails with the same error. |
| `Discovery.CollectFailsAtFirst` | src/main.rs:49-56 | The run succeeds exactly when no entry is unreadable and every file name parses. Otherwise it fails with the error of the first such entry in listing order. |
| `Discovery.CollectKeepsEveryFile` | src/main.rs:49-57 | On success there is one tile per regular file, in listing order, and non-files are skipped. Each tile carries its file's path and the parse of that path. |
| `Discovery.CollectAppend` | src/main.rs:57 | When both parts succeed, collection composes over concatenated listings: the tiles of the whole are those of the first part followed by those of the second. |
| `Discovery.DuplicatesKept` | src/main.rs:48-57 | Nothing is deduplicated: a listing repeated twice yields every tile twice, even though each address then occurs more than once. |

## Left out

- Command-line parsing (`Cli`), tracing and progress-bar setup, and the final
  debug print are not modelled. They are I/O and formatting.
- The rayon global thread pool is not modelled. It only configures
  concurrency, and nothing in the discovery step runs in parallel.
- The filesystem is replaced by an input listing of entries. Each entry is a
  full path with an "is a regular file" flag, or an entry that could not be
  read.
  - The listing's order is whatever the operating system returns. The model
    takes the order it is given.
  - `is_file` following symbolic links is not modelled.
  - Building a path by joining the directory and the file name is not
    modelled.
- The failure of `read_dir` on the dataset directory itself is not modelled.
  It happens before the loop, and the model starts from a listing.
- Converting an OS path to UTF-8 (`to_str().unwrap()`) is not modelled.
  Paths are Dafny strings, so a non-UTF-8 path cannot arise.
- `\d` matches ASCII digits only. The regex engine's `\d` also matches other
  Unicode decimal digits; the program then captures them and panics at the
  `u32` parse. The model differs in two cases:
  - A non-ASCII digit right after an ASCII digit run, as in
    `Tile_r1-c2_Region3٣` (U+0663), ends the model's greedy run early. The
    model then returns an address where the program panics. In this example
    the address is region 3, row 1, column 2.
  - A non-ASCII digit where the pattern still needs `-c` or `_Region`, or as
    the first digit of a run, stops the model matching at that name. It keeps
    scanning, and a later tile name in the same path can give an address
    where the program panics.
- A panic is a `Failure` value; the panic message is not modelled.
- The code pushes onto a plain `Vec` and panics on the first bad file. It has
  no tile index, conflict detection, gap query, anchored match or graceful
  skipping, so none is modelled.
