# GOG Galaxy 2.0 Start Menu tiles, modelled in Dafny

The tool reads games from the GOG Galaxy 2.0 database, turns each into a Start
Menu tile (a launch script, a tile manifest, an icon and a shortcut), lays the
tiles out as a Windows partial Start layout, and then applies that layout through
the `HKCU\Software\Policies\Microsoft\Windows\Explorer` registry key.

The repository keeps three revisions of this pipeline side by side, and the model
keeps them apart in the same way:

- **Canonical pipeline** (`src/game.go`, `src/database.go`, `game.go`, `powershell.go`).
  - `Games`: the `Game` record, `Sanitize` and `ExistsIn`.
  - `Catalog`: `listGames` after the query. It runs the accept loop, where the
    first title seen wins. Then it sorts by title and applies the 0 / 80 / 150
    count ceilings.
  - `Layout`: the tile grid, the flag checks and the packing loop of
    `createStartMenu`. The overflow check runs before a tile is placed.
  - `Shortcuts`: the files written per game and the two batched PowerShell runs.
  - `Registry`: `updateRegistry`, written as a step-by-step state machine over a
    map-valued key. The map-keyed revision's `updateRegistry` (src/main.go:229-276)
    takes the same steps and differs only in log texts and where the key is closed,
    so this module models both.
- **Map-keyed revision** (`src/main.go`), in module `KeyedRevision`.
  - The title is taken with `strings.Split`.
  - Games are stored in a map keyed by release key.
  - The overflow check runs after a tile is placed.
- **First revision** (`main.go`), in module `EarlyRevision`.
  - It reads one fixed tag and filters with the narrow allow-list.
  - It has no count ceilings.
  - All tiles go into one group that never overflows.
  - There is one PowerShell run per game.

Shared pieces:

- `Text`: the Go string operations used (`SplitN(..)[1]`, `Split(..)[1]`,
  `ReplaceAll`, bytewise `<`).
- `Sanitizer`: the two regular-expression allow-lists, as a per-character filter.
- `Wrappers`: `Option` and `Result`.

Inputs the program gets from the outside are parameters of the model:

- The database is a function from query to rows, where `None` is a failed query.
- The set of icon files already present.
- The iteration order of a Go map.
- Which registry calls fail.
- The line typed at the prompt. The run uses what `fmt.Scanln` stores from it:
  the first blank-separated token, or "" for a blank line or at end of input.
- The working directory.

The model follows the code, including these behaviours:

- A title without a colon makes the unguarded `[1]` index panic. It is not used
  unmodified. The model returns an error outcome.
- A failed `Export-StartLayout` backup is only logged by `execPowershell`. It is
  not fatal.
- Nothing rejects a title that filters to the empty string.
- Nothing bounds `height`. `maxTiles` is computed in Go's 64-bit `int` and wraps
  for a huge height, and the model computes it the same way. A wrapped negative
  capacity makes the packing loop open a group before every tile.

## Model

| member | source | states |
|---|---|---|
| Text.AfterFirst | src/game.go:21 | `SplitN(s, ":", 2)[1]`: absent iff there is no colon; otherwise the input is a colon-free prefix, the colon, then the result |
| Text.SecondField | src/main.go:141 | `Split(s, ":")[1]`: absent iff there is no colon; otherwise colon-free, a prefix of the text after the first colon, ending where that text ends or at the next colon |
| Text.SecondFieldOfTwoSeparators | src/main.go:141 | with two separators, `SplitN` keeps everything after the first one, while `Split` keeps only the text between the first two |
| Text.ReplaceAll | src/game.go:22 | definition of `strings.ReplaceAll` as a left-to-right scan; characterised by `Text.ReplaceAllWithoutPattern` and the `Games.NormalizeIcon…` lemmas |
| Text.ReplaceAllWithoutPattern | src/game.go:22 | `ReplaceAll` leaves a string without the pattern unchanged |
| Text.Less | src/database.go:73 | definition of Go's bytewise `<` on strings; characterised by `Text.LessIrreflexive`, `LessAsymmetric`, `LessTransitive` and `LessTotal` |
| Text.LessIrreflexive | src/database.go:72-74 | the bytewise title order is irreflexive |
| Text.LessAsymmetric | src/database.go:72-74 | the title order is asymmetric |
| Text.LessTransitive | src/database.go:72-74 | the title order is transitive |
| Text.LessTotal | src/database.go:72-74 | any two different titles are ordered one way or the other |
| Sanitizer.Filter | src/main.go:73 | the filtered string is no longer than the input, holds only allow-listed characters, holds nothing that was not in the input, and keeps every allowed character of the input |
| Sanitizer.FilterConcat | src/game.go:20-21 | deleting runs of disallowed characters acts character by character: the filter distributes over concatenation |
| Sanitizer.FilterFixedPoints | src/game.go:20-21 | the filter leaves a string unchanged iff every character is allow-listed |
| Sanitizer.FilterIdempotent | src/game.go:20-21 | filtering twice is filtering once |
| Sanitizer.NarrowAfterWide | main.go:69 | the narrow list `[A-Za-z0-9 ]` applied after the wide list equals the narrow list alone |
| Games.Sanitize | src/game.go:19-23 | no result iff the title has no colon (the index panic); otherwise the release key is unchanged, the file name is the filtered release key, the title is allow-listed and colon-free, and the icon name is the `.webp`→`.png` rewrite |
| Games.SanitizedTitleAfterFirstColon | game.go:23 | the title is the filtered text after the first colon, later colons included before filtering |
| Games.ExistsIn | src/game.go:26-33 | true iff some listed game has the same title |
| Games.ExistsInComparesTitlesOnly | game.go:28-35 | only the title matters (release keys are not compared), and a game is found once a game with its title is appended |
| Games.NormalizeIcon | src/game.go:22 | definition: `ReplaceAll(name, ".webp", ".png")`; characterised by `Games.NormalizeIconRemovesWebp`, `NormalizeIconKeepsOtherNames` and `NormalizeIconWebpSuffix` |
| Games.NormalizeIconRemovesWebp | src/game.go:22 | no `.webp` is left in the rewritten icon name |
| Games.NormalizeIconKeepsOtherNames | game.go:24 | a name without `.webp` is unchanged |
| Games.NormalizeIconWebpSuffix | src/game.go:22 | a name ending in `.webp` ends in `.png` after the rewrite, the rest rewritten alike |
| Catalog.SelectQuery | src/database.go:50-57 | exact, case-sensitive dispatch: "INSTALLED" → installed games, "ALL" → all games, anything else → the tagged query with that tag |
| Catalog.Scan | src/database.go:65-66 | definition: a fresh `Game` with release key, icon and raw title from the row and an empty file name; used by `Catalog.SanitizeRows` |
| Catalog.SanitizeRows | src/database.go:64-67 | fails iff some row's title has no colon; otherwise one sanitized game per row, in order |
| Catalog.AcceptFrom | src/database.go:63-71 | definition of the accept loop: a game is appended unless `ExistsIn` finds its title among those accepted; characterised by `Catalog.AcceptIsFirstSeen` |
| Catalog.Accept | src/database.go:63-71 | definition: the accept loop from an empty list; equal to `Catalog.FirstSeen` by `Catalog.AcceptIsFirstSeen` |
| Catalog.FirstSeen | src/database.go:63-71 | reference definition: keep a row iff no earlier row has its title; characterised by `Catalog.FirstSeenTitles` and `FirstSeenKeepsFirstOfEachTitle` |
| Catalog.FirstSeenTitles | src/database.go:64-71 | the accepted games have pairwise distinct titles and exactly the titles of all rows |
| Catalog.FirstSeenKeepsFirstOfEachTitle | src/database.go:64-71 | a game is accepted iff it is the first row with its title |
| Catalog.AcceptIsFirstSeen | src/database.go:64-71 | the accept loop with `ExistsIn` equals the first-seen reference definition |
| Catalog.InsertByTitle | src/database.go:72-74 | inserting into a sorted list keeps it sorted and adds exactly the one game |
| Catalog.SortByTitle | src/database.go:72-74 | the result is strictly ascending by title and a permutation of the input |
| Catalog.SortedPermutationUnique | src/database.go:72-74 | two strictly sorted permutations of the same games are equal, so any sort gives the same list |
| Catalog.SortedDistinct | src/database.go:72-74 | a strictly sorted list has distinct titles |
| Catalog.ListGames | src/database.go:50-83 | query failure, colon-free title, no games and more than 150 distinct titles are each fatal exactly when they occur; on success the list is sorted, has distinct titles covering every sanitized title, is a permutation of the first-seen games, holds 1..150 games, and warns iff it holds more than 80 |
| Layout.CheckFlags | src/main.go:101-106 | accepted iff width is 3 or 4 and tile size 1 or 2, width checked first; height is unchecked; for a height below 2^59 in size the capacity is the exact product and positive iff height ≥ 1 |
| Layout.Capacity | powershell.go:58 | definition of `maxTiles` in Go `int`; characterised by `Layout.CapacityExact` and `Layout.HugeHeightWraps` |
| Layout.WrapInt | powershell.go:58 | a Go `int` result: inside the signed 64-bit range, congruent to the exact value modulo 2^64, and equal to it when it fits |
| Layout.CapacityExact | powershell.go:58 | under valid flags the factor in front of height is between 3 and 16, so `maxTiles` does not wrap for a height below 2^59 in size |
| Layout.HugeHeightWraps | powershell.go:58 | flags the checks accept (width 3, size 2, height 3074457345618258603) give `maxTiles` = −2^63 + 1 |
| Layout.Column | powershell.go:74 | definition: column `(k mod W)·t`; bounded by `Layout.CellInsideGroup`, distinct slots separated by `Layout.CellsDisjoint` |
| Layout.Row | powershell.go:75 | the row written `(k − k mod W)/W·t` is `(k div W)·t` |
| Layout.TileAt | powershell.go:73-76 | definition of the tile element for slot k: size t, `Column`, `Row`, and the title as link; its values are pinned by `Layout.FiveTileExample` |
| Layout.Slot | powershell.go:67-77 | the running `tileCount` when tile k is placed: below the capacity, and k itself while k is below it |
| Layout.CellInsideGroup | powershell.go:58-59 | for height ≥ 1 and slot below capacity, column + t ≤ 2·width ≤ 8 (the group cell width) and row + t ≤ 2·height |
| Layout.CellsDisjoint | powershell.go:73-75 | distinct slots get non-overlapping t×t squares |
| Layout.FiveTileExample | powershell.go:73-75 | width 3, size 2, height 7: capacity 21, columns 0,2,4,0,2 and rows 0,0,0,2,2 |
| Layout.Place | powershell.go:69-77 | definition of one loop turn (check, then place); characterised by `Layout.PlaceKeepsLaid` |
| Layout.PlaceKeepsLaid | powershell.go:68-77 | one loop turn keeps the layout invariant: every tile at its slot, full groups before the last, the last non-empty |
| Layout.Pack | powershell.go:57-77 | every group carries the group name; tile k has the grid position of slot k mod C and links to title k; for C ≥ 1 all groups but the last are full, the last holds 1..C tiles and there are ⌈n/C⌉ groups (one empty group for no games); for C ≤ 0 every tile opens its own group after an empty first one |
| Shortcuts.NameOnLogo | powershell.go:60-63 | definition: "off" when names are hidden, "on" otherwise; used in the manifest of `Shortcuts.PlanShortcuts` |
| Shortcuts.NeedsIcon | powershell.go:83 | definition: the icon file is absent or `force` is set; characterised by `Shortcuts.IconDownloadsMembers` |
| Shortcuts.IconDownloads | powershell.go:83-85 | at most one download line per game, each a download |
| Shortcuts.IconDownloadsMembers | powershell.go:83-85 | a download is planned for a game iff its icon is missing or `force` is set |
| Shortcuts.ForcedDownloadsAll | powershell.go:83-85 | with `force`, every game's icon is fetched, in game order |
| Shortcuts.NothingMissing | powershell.go:83-85 | without `force` and with every icon present, nothing is fetched |
| Shortcuts.RerunFetchesNothing | powershell.go:83-85 | once the planned downloads have run, a second run without `force` fetches nothing |
| Shortcuts.PlanShortcuts | powershell.go:79-86 | per game in order: the launch script (file name, launching the release key), the manifest (showing the name or not), the planned download, and one shortcut named by the title targeting the file name |
| Shortcuts.Invocations | powershell.go:89-92 | the download batch runs iff it has a line and before the shortcut batch, which always runs once |
| Shortcuts.CreateStartMenu | powershell.go:49-95 | tile i's link and shortcut i carry game i's title; ⌈n/C⌉ groups; downloads as planned |
| Registry.Find | src/main.go:316-323 | `find` is true iff the value is in the slice |
| Registry.Write | powershell.go:131-132 | a set call: unless it fails, the value is stored under its name; every other value is untouched; a failed call changes nothing |
| Registry.Delete | powershell.go:146-147 | a delete call: unless it fails, the value is gone; every other value is untouched; a failed call changes nothing |
| Registry.Step | powershell.go:98-151 | a step never touches a value other than the two policy values, only appends events, and moves strictly towards the end |
| Registry.Run | powershell.go:98-151 | the run always ends (cancelled, failed or finished) and touches no other value |
| Registry.Apply | powershell.go:98-151 | `updateRegistry` from the start ends and keeps every other value of the key |
| Registry.CollisionWarningIff | powershell.go:109-115 | once the key is open and listed, the warning fires iff either value name is listed (iff either value exists when the listing is the key's contents); it does not stop the run |
| Registry.CancelIff | powershell.go:116-124 | the run is cancelled iff the key opens, is listed, `-y` is absent and the first token `Scanln` stores is not exactly "y"; a cancelled run changes no value of the key |
| Registry.SkipBlanks | powershell.go:119 | `Scanln` skipping leading spaces: the first non-blank position from i, with only blanks before it |
| Registry.TokenEnd | powershell.go:119 | `Scanln` reading a token: the first blank position from i, with no blank before it |
| Registry.ScannedAnswer | powershell.go:118-120 | the stored answer has no blank in it, and it is empty iff the typed line is all blanks |
| Registry.ScannedAnswerOf | powershell.go:118-120 | leading blanks, a token, then nothing or a blank and anything: the stored answer is exactly that token |
| Registry.ScannedAnswerExamples | powershell.go:118-120 | " y", "y\r" and "y please" all store "y", so each confirms |
| Registry.ScannedAnswerRejects | powershell.go:118-120 | "Y" stores "Y", which is not "y"; an empty line stores "" |
| Registry.SuccessIff | powershell.go:101-150 | the run finishes iff every registry call and the working-directory lookup succeed and it is confirmed; the backup export may fail |
| Registry.SuccessSequence | powershell.go:131-150 | on success: backup, optional warning, optional prompt, explorer stopped with the layout path set and lock 1, then with lock 0; both values are gone afterwards |
| Registry.BackupFailureOnlyLogged | powershell.go:101 | a failed backup export changes neither the outcome nor the key |
| Registry.PartialWriteIsKept | powershell.go:131-135 | when only the layout-path write fails, the run is fatal but the lock value 1 is already written |
| KeyedRevision.ExtractTitle | src/main.go:141 | no title iff there is no colon; otherwise an allow-listed, colon-free field |
| KeyedRevision.ExtractTitleStopsAtSecondColon | src/main.go:141 | with two colons only the filtered text between them is kept |
| KeyedRevision.SanitizeKeepsTextAfterSecondColon | src/game.go:21 | the canonical title keeps the text on both sides of a second colon |
| KeyedRevision.SplitDisagrees | src/main.go:141 | for such a title this revision yields the middle field and the canonical one the middle and the end |
| KeyedRevision.SplitLosesSubtitle | src/main.go:141 | "S:A: B" becomes "A" here and "A B" in the canonical revision |
| KeyedRevision.ExtractTitleAfterOnlyColon | src/main.go:141 | with exactly one colon, the title is the whole rest, filtered |
| KeyedRevision.Admit | src/main.go:142-156 | definition of one accepted row: skipped if its title is stored, otherwise its key is set (added or overwritten); characterised by `KeyedRevision.FirstTitleWins`, `RepeatedKeyOverwrites` and `CollectKeepsDistinct` |
| KeyedRevision.CollectFrom | src/main.go:139-157 | the loop panics iff some row's title has no colon |
| KeyedRevision.CollectKeepsDistinct | src/main.go:142-156 | no two stored keys share a title |
| KeyedRevision.CollectKeys | src/main.go:152-156 | keys are never removed and every added key is some row's release key |
| KeyedRevision.CollectTitlesAllowed | src/main.go:141 | every stored title is allow-listed |
| KeyedRevision.Collect | src/main.go:135-157 | panics iff a title has no colon; otherwise distinct, allow-listed titles under row keys, empty iff there were no rows |
| KeyedRevision.CollectKeepsFirstKey | src/main.go:152-156 | the first row's key is always stored |
| KeyedRevision.FirstTitleWins | src/main.go:142-151 | a later row with an already stored title is skipped, whatever its key |
| KeyedRevision.RepeatedKeyOverwrites | src/main.go:152-156 | a repeated key with a new title overwrites the entry and the earlier title is gone |
| KeyedRevision.ListGamesKeyed | src/main.go:115-168 | query failure, colon-free title, no rows and more than 150 stored games are each fatal exactly when they occur; on success 1..150 games with distinct titles, warning iff more than 80 |
| KeyedRevision.PlaceThenCheck | src/main.go:194-203 | definition of one loop turn (place, then check); characterised by `KeyedRevision.PlaceThenCheckKeepsShape` |
| KeyedRevision.PlaceThenCheckKeepsShape | src/main.go:193-203 | one turn of this revision's loop keeps its layout invariant: all groups but the last full, the last never full |
| KeyedRevision.PackAfterPlacement | src/main.go:183-203 | tile k at slot k mod C linking to title k; for C ≥ 1 there are 1 + n div C groups, the last holds n mod C tiles and is empty iff C divides n; for C ≤ 0 n + 1 groups ending with an empty one |
| KeyedRevision.TrailingEmptyGroupExample | src/main.go:199-203 | 21 games at capacity 21 give a full group and a trailing empty group |
| KeyedRevision.LayOutKeyed | src/main.go:183-203 | tile i links to the title stored under the i-th key of the iteration order, so every stored game has a tile |
| KeyedRevision.PlanKeyed | src/main.go:204-210 | the launch script is named by the filtered key and launches the raw key; shortcut i carries the stored title; downloads as below |
| KeyedRevision.KeyedGames | src/main.go:204-210 | definition: the stored games in iteration order, as one record each, with the filtered key as file name; used by `KeyedRevision.KeyedDownloads` and `CreateStartMenuKeyed` |
| KeyedRevision.KeyedDownloads | src/main.go:207-209 | a download, named by the filtered key, is planned iff that icon is missing or `force` is set |
| KeyedRevision.CreateStartMenuKeyed | src/main.go:170-219 | tile i and shortcut i belong to the same game under the same title; every stored game has a tile |
| EarlyRevision.NarrowTitleOfWideTitle | main.go:121 | for any title, this revision panics iff the map-keyed one does (src/main.go:141), and its title is the map-keyed title filtered again with `[A-Za-z0-9 ]` |
| EarlyRevision.ListGamesEarly | main.go:102-139 | the fixed "StartMenuTiles" query; fails iff the query fails or a title has no colon, with no empty or count check; titles distinct and within `[A-Za-z0-9 ]` |
| EarlyRevision.PackSingleGroup | main.go:154-163 | one group named ""; tile k at slot k over all games and linking to title k; tiles never overlap and stay within the eight cells of width |
| EarlyRevision.ColumnInsideGroup | main.go:160 | every column + t stays ≤ 2·width ≤ 8 |
| EarlyRevision.RowsUnbounded | main.go:161 | the (W·h)-th tile starts at row h·t, so the single group grows past any height |
| EarlyRevision.RawGames | main.go:164-169 | definition: the stored games in iteration order, as one record each, with the raw key as file name; used by `EarlyRevision.DownloadsAreForcedBatch` |
| EarlyRevision.PerGameRuns | main.go:164-169 | per game, files named by the raw key, the manifest always shows the name, and one run fetching the icon and creating the shortcut |
| EarlyRevision.DownloadLines | main.go:168-169 | one download line per run: the first command of run i, in order |
| EarlyRevision.DownloadsAreForcedBatch | main.go:168-169 | the runs fetch exactly the later revisions' batch with `force` set: every icon, in order |
| EarlyRevision.LayOutEarly | main.go:153-163 | tile i links to the title stored under the i-th key, so every stored game has a tile |
| EarlyRevision.CreateStartMenuEarly | main.go:141-170 | tile i, the launch script and run i belong to the same game, and tile i's link and run i's shortcut carry the same title |

## Left out

- Database access (`sql.Open`, the `lastCacheUpdate` query at src/database.go:38-48, the SQL text): I/O. Query results are an input function; the fatal exits for a failed open or cache query are not modelled.
- Filesystem (`writeFile`, `MkdirAll`, `UserHomeDir`, `fileExists`, `Getwd`): I/O. Present icons are an input set; files are modelled as typed writes named by file name, without the start-menu directory prefix or `path.Join`.
- PowerShell execution and the XML/PowerShell template text: commands are typed records and the layout is groups of tiles. `execPowershell` only logs errors, which is why a failed backup export is not fatal.
- The first revision's apply script (main.go:176, `powershellApplyStartLayout`): a foreign PowerShell script with no checks of its own, not modelled.
- `time.Sleep`, logging, colours, log-level parsing, the `runtime.GOOS` check and flag parsing: plumbing with no decidable behaviour.
- The regular-expression engine: replaced by a per-character allow-list filter, which is what deleting runs of excluded characters amounts to.
- Go `int` overflow outside `maxTiles`: other integers are unbounded. Width and tile size are validated small numbers. Tile counts and grid positions are bounded by the number of games, which stays far below 2^63.
- Go map iteration order is arbitrary: it is an input `order` listing each key once.
- `sort.Slice` is not stable: titles are distinct after the accept loop, and `SortedPermutationUnique` shows every strictly sorted permutation is the same list, so an insertion sort stands in for it.
- The main.go flag checks (main.go:91-96) are the same as src/main.go:101-106 and are modelled once, by `Layout.CheckFlags`.
- KeyedRevision.PlanKeyed: states the launch script of each game but not its manifest line, which is written as in the canonical revision (`Shortcuts.PlanShortcuts`).
- The registry key's `Close` and the exact log texts: no effect on the values or the outcome.
- Registry.CancelIff: `CreateKey` (powershell.go:103, src/main.go:233) creates the policy key itself when it is missing, before the prompt. The model's store is the key's values only. So a cancelled run changes no value, but it can leave a new, empty key behind, and that is not stated.
- Shortcuts.CreateStartMenu: the folders of links and shortcuts are not modelled. Tile links point into the fixed folder `%APPDATA%\Microsoft\Windows\Start Menu\Programs\GOG.com\GameTiles` (powershell.go:25). Shortcuts are created in the folder given by `-startFolder` (powershell.go:86). The contract matches tile and shortcut by title only. A tile opens the shortcut only when `-startFolder` names that same folder, which the default does.
- KeyedRevision.CreateStartMenuKeyed: the same folder gap, between src/main.go:49 and src/main.go:210.
- EarlyRevision.CreateStartMenuEarly: the same folder gap, between main.go:33 and main.go:169.

## Findings

| source | as written | input that shows it | evidently intended | confidence | as-written member | corrected member |
|---|---|---|---|---|---|---|
| src/main.go:199-203 | the group-full check runs after the tile is placed | 21 games with width 3, tile size 2, height 7 (capacity 21) | a new group only when another tile needs it, as powershell.go:69-72 does | not executed; high | KeyedRevision.TrailingEmptyGroupExample | Layout.Pack |
| src/main.go:141 | `strings.Split(title, ":")[1]` keeps only the field between the first two colons | the title "S:A: B" gives "A" | the whole text after the first colon, as `SplitN(title, ":", 2)[1]` in src/game.go:21 | not executed; medium | KeyedRevision.SplitLosesSubtitle | Games.SanitizedTitleAfterFirstColon |
