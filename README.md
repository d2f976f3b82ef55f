# Trice ID list management in Dafny

This project models the ID list management of the trice tool's package `id`.
Trice macros in C sources carry a small integer ID. The tool keeps a JSON list
from ID to trice format, where a format is the macro name (`Type`) and its
format string (`Strg`). Two parts are modelled.

- **The list and its ID searches** (`internal/id/manage.go`), in module `Manage`.
  - The list `TriceIDLookUp` is a class whose field `entries` is the map.
  - The three searches `newUpwardID`, `newDownwardID` and `newRandomID` each
    pick an ID of `[min, max]` that the list does not use, or give up with the
    fatal "no new ID possible". `newID` dispatches on the search method.
  - `reverse` builds the reverse index from the upper-cased format to an ID.
  - `AddFmtCount` rewrites type names in place so that they carry a parameter
    count.
  - `FromJSON` and `NewLut` load the list from file contents. An empty file is
    an empty list.
- **The reconciliation subcommands** (`internal/id/list.go`), in module `List`.
  - A `Session` class holds one command invocation's package-level state: the
    source roots `Srcs`, the `DryRun` flag, the list file's contents and how
    often it was written.
  - It also logs the roots handed to the per-root scan, the lines reported
    about skipped roots and the zeroing requests.
  - `walkSrcs` defaults the roots to `"./"` and scans every existing root once,
    in order. It reports and skips every other root.
  - `updateList`, `SubCmdReNewList`, `SubCmdRefreshList` and `SubCmdUpdate`
    decide which list the walk starts from and when the list file is written.
  - `ScZero` zeroes the IDs of one source tree.

The parts of the program that are not shown become parameters: the file
system's `os.Stat`, `ConditionalFilePath`, the per-root scans `refreshList` and
`IDsUpdate`, the JSON codec, `FormatSpecifierCount` and
`addFormatSpecifierCount`. The class's functions and lemmas state their
properties for every choice of these parameters.

The upward and downward searches inspect the list through the method `Used`,
which scans the keys the way the `for k := range lu` loop does. Their loops carry
an invariant and a measure bounded by a free ID whose existence the lemma
`FreeIDExists` proves by counting. `rand.Intn` and its retry loop become a
nondeterministic choice of a free ID. Go's map iteration order becomes a
nondeterministic choice of the next key.

The search methods have no `modifies` clause, so the verifier enforces that
they do not change the list. `Reverse` has none either.

**Exhaustion.** The give-up test compares the interval size with the size of
the whole list (`internal/id/manage.go:52-54`, `:77-79`, `:99-101`), so IDs
outside `[min, max]` count too.
- `Exhausted` states that a fully used range always gives up, and that a range
  that does not give up has a free ID.
- `ExhaustionIsConservative` exhibits a list that makes the search give up
  although every ID of the range is free.

## Model

| member | source | states |
|---|---|---|
| IdTypes.ToUpper | internal/id/manage.go:172 | the upper-cased name is as long as the name, and each ASCII letter is replaced by its upper-case form; what the list relies on is stated by `ToUpperIdempotent`, `ToUpperHasNoLowerCase` and `NormalizeFixture` |
| IdTypes.Normalize | internal/id/manage.go:172-173 | the key of a format keeps its format string and the length of its type name, holds no lower-case letter in the type name, and upper-casing it again changes nothing |
| IdTypes.ToUpperIdempotent | internal/id/manage.go:172 | upper-casing twice is upper-casing once |
| IdTypes.ToUpperHasNoLowerCase | internal/id/manage.go:172 | an upper-cased name holds no lower-case ASCII letter |
| IdTypes.NormalizeFixture | internal/id/update_whitebox_test.go:101-102 | `trice0`, `Trice0` and `TRICE0` with the same format string share one key (as `TRICE0` and `trice0` share ID 99), while `TRICE8_1 "Hi %d"` and `trice8_1 "hi %d"` do not, because case counts in the format string (the 98/99 pair of update_whitebox_test.go:214-224); a shared key does not make IDs from different ID ranges shared, which is why `Trice0` gets 32767 in the other range |
| IdTypes.ContainsAny | internal/id/manage.go:139 | a name contains one of the given characters exactly when some character of the given set occurs in it |
| Manage.Exhausted | internal/id/manage.go:77-79 | a list that uses every ID of [min, max] makes the searches give up; when they do not give up, [min, max] has a free ID |
| Manage.FmtCounted | internal/id/manage.go:139-144 | one entry keeps its format string, is kept whole when its type contains '0' or '_', and afterwards carries '0' or '_' whenever every added count shows as '_' |
| Manage.LoadedList | internal/id/manage.go:118-131 | an unreadable file loads nothing; an empty file loads the empty list; other contents load exactly when they decode, as the decoded entries |
| Manage.WithFmtCount | internal/id/manage.go:133-146 | adding the parameter counts keeps the key set and every format string, and keeps every entry whose type contains '0' or '_' |
| Manage.TriceIDLookUp.constructor | internal/id/list.go:36 | a new list is empty |
| Manage.TriceIDLookUp.Used | internal/id/manage.go:86-91 | the key scan finds `id` exactly when the list uses it |
| Manage.TriceIDLookUp.NewID | internal/id/manage.go:33-47 | random, upward and downward give up exactly when the list is exhausted; otherwise they give a free ID, the lowest free ID or the highest free ID; any other method gives the sentinel 0, which with `min > 0` only an unknown method gives |
| Manage.TriceIDLookUp.NewRandomID | internal/id/manage.go:49-72 | gives up exactly when the interval has no more IDs than the list has entries; otherwise gives an ID of [min, max] the list does not use; warns exactly when fewer than `interval >> 2` IDs are free (a quarter of the interval, rounded down) |
| Manage.TriceIDLookUp.NewUpwardID | internal/id/manage.go:74-94 | gives up exactly when the interval has no more IDs than the list has entries; otherwise gives an unused ID of [min, max] below which every ID of the interval is used |
| Manage.TriceIDLookUp.NewDownwardID | internal/id/manage.go:96-116 | gives up exactly when the interval has no more IDs than the list has entries; otherwise gives an unused ID of [min, max] above which every ID of the interval is used |
| Manage.TriceIDLookUp.FromJSON | internal/id/manage.go:118-124 | empty input is no error and changes nothing; decoded input is merged into the list with new values winning; a decoding error is returned, and the entries the decoder stored are merged in the same way: every entry that decodes, before or after the error; none after a syntax error |
| Manage.TriceIDLookUp.AddFmtCount | internal/id/manage.go:133-146 | the list afterwards is the old list with parameter counts added (see `WithFmtCount`) |
| Manage.TriceIDLookUp.Reverse | internal/id/manage.go:168-176 | the result's keys are exactly the normalised formats of the list, and each leads back to an ID with that normalised format; the list is unchanged |
| Manage.NewLut | internal/id/manage.go:20-28 | the load succeeds exactly when the file is readable and empty or well-formed; a loaded list is new and holds the file's entries |
| Manage.FreeIDExists | internal/id/manage.go:77-79 | a list that is not exhausted leaves a free ID of [min, max] |
| Manage.FullIntervalSize | internal/id/manage.go:77-79 | a list that uses every ID of [min, max] has at least max - min + 1 entries |
| Manage.ExhaustionIsConservative | internal/id/manage.go:77-79 | a list whose only entry lies outside [99, 99] makes the searches give up although 99 is free |
| Manage.LowestFreeIsUnique | internal/id/manage.go:74-75 | two upward searches on the same list give the same ID |
| Manage.HighestFreeIsUnique | internal/id/manage.go:96-97 | two downward searches on the same list give the same ID |
| Manage.UpwardAfterInsert | internal/id/manage.go:74-75 | after inserting the ID an upward search gave, the next one gives a bigger ID, and every ID between them was already used |
| Manage.DownwardAfterInsert | internal/id/manage.go:96-97 | after inserting the ID a downward search gave, the next one gives a smaller ID, and every ID between them was already used |
| Manage.DownwardNormalRangeFixture | internal/id/update_whitebox_test.go:97-110 | downward search in the normal range [10, 99] beside the short-range ID 32767 does not give up and gives 99, and after inserting 99 and 32766 it gives 98 |
| Manage.ReverseIndexCoversList | internal/id/manage.go:168-176 | every list entry's normalised format is a key of the reverse index and leads to an ID with that format |
| Manage.ReverseIndexInverts | internal/id/manage.go:168-176 | when no two IDs share a normalised format, the reverse index gives back each entry's own ID |
| Manage.ImageNoLarger | internal/id/manage.go:168-173 | normalising the formats of a set of IDs gives at most as many formats as IDs |
| Manage.ReverseIndexNoLarger | internal/id/manage.go:168 | the reverse index never has more entries than the list; colliding formats keep one ID |
| Manage.UnderscoreMarksCount | internal/id/manage.go:139 | a type name containing '_' is one the count is not added to |
| Manage.FmtCountIdempotent | internal/id/manage.go:133-146 | adding the parameter counts twice is adding them once, when every added count shows as '_' |
| Manage.FmtCountKeepsMarked | internal/id/manage.go:139-141 | a list whose every type name contains '0' or '_' is left as it is |
| Manage.FmtCountFixture | internal/id/update_whitebox_test.go:241 | the expected list of the shared-ID fixture with counts is left unchanged by adding the counts |
| Manage.EmptyFileGivesEmptyList | internal/id/manage.go:118-131 | an empty list file loads as the empty list |
| List.DefaultSrcs | internal/id/list.go:99-101 | the roots are never empty: given roots stay as they are, and no roots become "./" alone |
| List.Reports | internal/id/list.go:107-113 | there is at most one report per root |
| List.Walk | internal/id/list.go:102-106 | walking no roots changes nothing |
| List.ExistingRoots | internal/id/list.go:102-106 | the scanned roots are at most as many as the given roots, and each of them exists |
| List.RefreshListAdapter | internal/id/list.go:53-55 | the adapted read-only scan passes the list-modified flag through and does what `refreshList` does to the list and the index |
| List.Session.constructor | internal/args/init.go:198-210 | a session starts with the given roots, flag and file contents, and with empty logs |
| List.Session.ScZero | internal/id/list.go:19-27 | an empty root is an error and zeroes nothing; any other root is zeroed, writing exactly when not a dry run, and gives no error |
| List.Session.ToFile | internal/id/manage.go:153-166 | the list file then holds the encoded list, and one more write is counted |
| List.Session.VisitRoot | internal/id/list.go:103-113 | a root whose path exists is scanned once and logged; any other root is reported as missing or as unknown and left alone |
| List.Session.WalkRoots | internal/id/list.go:102-114 | the scan is called once per existing root, in order; every other root is reported; the list, index and flag are those of the scan's run over the existing roots |
| List.Session.WalkSrcs | internal/id/list.go:98-115 | the roots default to "./"; then as `WalkRoots` over the roots |
| List.Session.UpdateList | internal/id/list.go:57-81 | returns nil; walks the sources with the read-only scan from the list and its reverse index; writes the list file once exactly when the walked list differs from the list before and this is not a dry run |
| List.Session.SubCmdReNewList | internal/id/list.go:29-39 | returns nil and walks from the empty list with an empty index; writes exactly when the walk found entries and this is not a dry run |
| List.Session.SubCmdRefreshList | internal/id/list.go:41-51 | an unreadable or malformed list file is fatal and changes nothing; otherwise returns nil and walks from the loaded list, writing exactly when the walk changed it and this is not a dry run |
| List.Session.SubCmdUpdate | internal/id/list.go:83-96 | an unreadable or malformed list file is fatal and changes nothing; otherwise walks from the loaded list with the read-write scan and writes exactly when the scan flagged a modification and this is not a dry run |
| List.CopyLookUp | internal/id/list.go:60-64 | the copy equals the list at the time of copying |
| List.ReverseOfEmpty | internal/id/list.go:35-38 | the empty list's only reverse index is empty |
| List.ExistingRootsAppend | internal/id/list.go:102-106 | the existing roots of two runs of roots are those of the first followed by those of the second |
| List.ReportsAppend | internal/id/list.go:107-113 | the reports of two runs of roots are those of the first followed by those of the second |
| List.RootStep | internal/id/list.go:102-114 | one root splits the scanned roots and the reports into those before it, its own and those after it |
| List.EveryRootScannedOrReported | internal/id/list.go:105-113 | the existing roots and the reports together number exactly the given roots |
| List.MissingRootSkipped | internal/id/list.go:107-113 | a root that does not exist adds one report, and the walk goes on with the roots after it |
| List.AllRootsScanned | internal/id/list.go:102-106 | when every root exists, the scan sees each converted root in the given order, and nothing is reported |
| List.WalkAppend | internal/id/list.go:102-106 | walking two runs of roots is walking the first, then the second from where it stopped |
| List.ReportsAreSkippedRoots | internal/id/list.go:105-113 | every report is about a given root whose path does not exist or whose existence is unknown |
| List.WalkKeepsList | internal/id/list.go:68-78 | a scan that never changes the list leaves it unchanged after any walk, so the list is not written |
| List.RefreshWalkKeepsFlag | internal/id/list.go:53-55 | the read-only walk never changes the list-modified flag |
| List.DefaultRoot | internal/id/list.go:99-101 | an empty root list walks "./" alone, when it exists |

## Left out

- IdTypes.ToUpper: upper-cases ASCII letters only. Go's `strings.ToUpper` also maps non-ASCII letters, and Unicode case mapping is not modelled.
- The JSON codec (`json.Unmarshal`, `json.MarshalIndent`) is a parameter. The round trip between writing and reading the list file is therefore not stated.
- File I/O (`ioutil.ReadFile`, `os.Create`, `f.Write`, `f.Close`) is not modelled. The list file is a field holding its contents, or None when it cannot be read. A write always succeeds, so the fatal exit on a failed `toFile` is not modelled.
- `msg.Fatal*` calls become result values (`NoNewIDPossible`, `LoadFailed`, `FatalExit`). `msg.Info*`, the `Verbose` output and `cmd.PrintDefaults()` are left out because they only print.
- Manage.TriceIDLookUp.NewRandomID: `rand.Intn` and the retry loop become one nondeterministic choice of a free ID. The uniform distribution and the retry count are not modelled.
- Go map iteration order is a nondeterministic choice in `Used`, `Reverse`, `AddFmtCount` and `CopyLookUp`. Manage.TriceIDLookUp.Reverse does not say which of several colliding IDs is kept, because that depends on the iteration order.
- `TriceID` is an unbounded integer, so the wrap-around of Go's fixed-width integers in `max - min + 1`, `id++` and `id--` is not modelled. The type's width is not part of this model.
- `refreshList`, `IDsUpdate`, `ZeroSourceTreeIds`, `ConditionalFilePath`, `FormatSpecifierCount` and `addFormatSpecifierCount` are function-typed parameters, because their sources are not part of this model. `ZeroSourceTreeIds` is recorded as a request in the session's log.
- Idempotence of repeated `update` runs rests on the per-root scans, whose sources are not part of this model. The model states only what the walk, the snapshot comparison and the dry-run gate do with the scan's results.
- `reflect.DeepEqual(lu0, lu)` is map equality on the entries.
