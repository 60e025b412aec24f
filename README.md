# photo-recon reconciliation engine in Dafny

This project models the reconciliation engine of photo-recon, a tool that compares a source collection of photos with a destination collection. It covers:

- **File identity.** A photo's relative path is its full path with as many leading characters removed as its root directory's path has. Its identity is `relativePath + "," + size`, lower-cased.
- **Location index.** Each side's photos go into a dictionary keyed by identity. The last photo seen for an identity keeps the slot. Each photo it displaces is reported as a duplicate pair `(location, newer photo, displaced photo)`.
- **One-way reconciliation.** `Execute` starts a fresh report and indexes the source, then the destination. It then appends, to the report's Source missing list, the kept source photo for each source identity that the destination lacks. It uses the live code's LINQ `Except` for this: each identity appears once, in the order of the source dictionary's keys.
- **Report.** The report is append-only. It holds a list of duplicates and one missing list per location. Every location's list is created by the constructor.
- **Extension filter.** A file-extension filter admits a path unless the path's extension is in a fixed, case-sensitive exclusion set. `ExcludeExtensions` appends one such filter to a reconciler and returns that same reconciler.

Modules follow the source files:

| file | module | models |
|---|---|---|
| `Wrappers.dfy` | `Wrappers` | `Option` |
| `Text.dfy` | `Text` | lower-casing, the decimal rendering of a size and its parse, and the text after the last comma |
| `Photos.dfy` | `Photos` | `Dir`, `Photo`, `RelativePath`, `UniqueId` and the identity lemmas |
| `FileFilters.dfy` | `FileFilters` | `Path.GetExtension` and `FileExtensionFilter` |
| `Reports.dfy` | `Reports` | `LocationType`, `Duplicate`, and the `Report` and `ReportBuilder` classes |
| `Reconciliation.dfy` | `Reconciliation` | specification functions `Index`, `Duplicates`, `Except` and `MissingFrom`, their lemmas, and the `Reconciler` class |
| `ReconcilerExtensions.dfy` | `ReconcilerExtensions` | `ExcludeExtensions` |
| `Scenarios.dfy` | `Scenarios` | small worked runs: an empty run, a duplicate on one side, one file missing |

`Photo` and `Dir` are datatypes, because the engine never changes a photo after creating it. `Report`, `ReportBuilder` and `Reconciler` are classes. `Report` has no methods: its fields are changed through `ReportBuilder`, whose methods update its `report` object in place. `Reconciler`'s methods update its own fields.

The three loops of the core are methods with loop invariants:

- The `Report` constructor's loop over every location builds a map that has an empty list for each of them.
- `FilesToDictionary` is proved equal to the specification functions `Index` and `Duplicates`.
- The missing-file loop inside `Execute` is proved equal to `MissingFrom`.

The properties the source promises are lemmas about those functions. The .NET dictionary is modelled as a `map` together with the sequence of its keys in first-insertion order. Overwriting a key keeps the key's position. This makes the order of missing entries deterministic.

`Program.cs` also holds commented-out code for rename suppression and for a reverse (Destination) pass (lines 76-82 and 87-104). The model follows the live code: a plain set difference in one direction, and the Destination missing list stays empty.

## Model

| member | source | states |
|---|---|---|
| `Photos.RelativePath` | Program.cs:239 | for a photo whose root path is no longer than its full path, the result is the full path minus its first `\|root\|` characters; when the root is a prefix, root + result is the full path |
| `Photos.UniqueId` | Program.cs:249 | the identity; its meaning is stated by `UniqueIdParts`, `IdSizeOfUniqueId`, `UniqueIdIff`, `CaseInsensitiveId` and `SizeSeparatesIds` |
| `Photos.UniqueIdParts` | Program.cs:249 | the identity is the lower-cased relative path, then `,`, then the decimal size; lower-casing leaves the comma and the digits alone |
| `Photos.IdSizeOfUniqueId` | Program.cs:249 | the size can always be read back from an identity, as the decimal number after its last comma |
| `Photos.UniqueIdIff` | Program.cs:249 | two photos share an identity if and only if their relative paths are equal up to letter case and their sizes are equal |
| `Photos.SameIdSameParts` | Program.cs:249 | a shared identity implies equal sizes and equal lower-cased relative paths |
| `Photos.CaseInsensitiveId` | Program.cs:249 | paths that differ only in letter case, with equal sizes, give the same identity |
| `Photos.SizeSeparatesIds` | Program.cs:249 | photos of different sizes never share an identity, whatever their paths |
| `Text.Lower` | Program.cs:249 | `ToLowerInvariant` on ASCII: same length, each character lower-cased on its own; no result character is an upper-case letter, and non-letters are kept |
| `Text.Decimal` | Program.cs:249 | the `{Size}` rendering: one or more digits with no leading zero; `ParseDecimalOfDecimal` and `DecimalInjective` state that it is read back exactly |
| `Text.ParseDecimalOfDecimal` | Program.cs:249 | parsing the decimal rendering of a size gives back the size |
| `Text.DecimalInjective` | Program.cs:249 | different sizes have different decimal renderings |
| `Text.LowerConcat` | Program.cs:249 | lower-casing distributes over concatenation |
| `Text.AfterLastCommaOf` | Program.cs:249 | the text after a final comma that no other comma follows is exactly what follows that comma |
| `FileFilters.Extension` | Filters/FileExtensionFilter.cs:18 | a non-empty result is the unique suffix that starts with `.`, is at least two characters long, and holds no other `.` and no separator; an empty result means the path has no such suffix |
| `FileFilters.NewFileExtensionFilter` | Filters/FileExtensionFilter.cs:11-14 | the excluded set holds exactly the extensions passed in |
| `FileFilters.FileExtensionFilter.Include` | Filters/FileExtensionFilter.cs:16-20 | admits a path whose extension is not excluded; its meaning is stated by `IncludeIff`, `EmptyFilterAdmitsAll`, `IncludeAntitone` and `ExclusionIsCaseSensitive` |
| `FileFilters.IncludeIff` | Filters/FileExtensionFilter.cs:16-20 | a path is admitted if and only if its extension equals none of the excluded extensions |
| `FileFilters.EmptyFilterAdmitsAll` | Filters/FileExtensionFilter.cs:11-20 | a filter built with no extensions admits every path |
| `FileFilters.SameEntriesSameFilter` | Filters/FileExtensionFilter.cs:13 | lists with the same entries, whatever their order or repetition, build the same filter |
| `FileFilters.IncludeAntitone` | Filters/FileExtensionFilter.cs:16-20 | if set A is a subset of set B, every path the B-filter admits is also admitted by the A-filter |
| `FileFilters.ExclusionIsCaseSensitive` | Filters/FileExtensionFilter.cs:13-19 | excluding `.JPG` still admits `IMG_1.jpg`, and excluding `.jpg` rejects it |
| `Reports.Report.constructor` | ReportBuilder.cs:35-44 | a new report has no duplicates, and every location has an empty missing list |
| `Reports.ReportBuilder.constructor` | ReportBuilder.cs:12-15 | a new builder owns a fresh, empty, valid report |
| `Reports.ReportBuilder.AddDuplicateFile` | ReportBuilder.cs:17-20 | appends exactly `Duplicate(location, photo, other)` to the duplicates; the missing lists are unchanged |
| `Reports.ReportBuilder.AddMissingFile` | ReportBuilder.cs:22-25 | appends the photo to the end of the given location's list only; the location is always present, and other lists and the duplicates are unchanged |
| `Reconciliation.Index` | Program.cs:109-124 | the index's key order lists every key exactly once and nothing else |
| `Reconciliation.Insert` | Program.cs:120 | one dictionary assignment `d[p.UniqueId] = p`; what a run of them gives is stated by `Index`, `IndexKeys`, `IndexKeepsLast` and `IndexHoldsLatest` |
| `Reconciliation.Duplicates` | Program.cs:116-119 | the pairs reported while indexing; their number is stated by `DuplicateCount` and their form by `DuplicateShape` |
| `Reconciliation.IndexFiledById` | Program.cs:116-120 | every photo in the index is filed under its own identity |
| `Reconciliation.IndexKeys` | Program.cs:111-123 | the index's keys are exactly the identities that occur in the input |
| `Reconciliation.IndexKeepsLast` | Program.cs:113-121 | the last input photo with a given identity is the one the index keeps for it |
| `Reconciliation.IndexValuesFromInput` | Program.cs:113-121 | every photo the index keeps comes from the input |
| `Reconciliation.IndexHoldsLatest` | Program.cs:113-121 | the photo kept under an identity is an input photo of that identity, and no later input photo has it |
| `Reconciliation.IndexPlusDuplicates` | Program.cs:113-121 | index size plus number of duplicates equals input length |
| `Reconciliation.DuplicateCount` | Program.cs:113-121 | exactly `\|input\| - \|distinct identities\|` duplicate pairs are reported |
| `Reconciliation.DuplicateShape` | Program.cs:116-119 | each pair carries the location, then a later input photo, then the photo it displaced: an earlier input photo of the same identity with no photo of that identity between the two |
| `Reconciliation.RepeatPositionsSpec` | Program.cs:116-119 | `RepeatPositions` lists, in strictly increasing order, exactly the input positions whose photo has an identity that some earlier input photo has |
| `Reconciliation.DuplicateOrder` | Program.cs:113-121 | there is one pair per repeat position, in call order: the n-th pair's first photo is the photo at the n-th repeat position |
| `Reconciliation.EmptyInput` | Program.cs:111-123 | an empty input gives an empty index and no duplicates |
| `Reconciliation.Except` | Program.cs:67 | the result holds exactly the elements of the first list that are not in the second, each once |
| `Reconciliation.ExceptOfDistinct` | Program.cs:67 | on a duplicate-free list, `Except` is an order-preserving filter |
| `Reconciliation.MissingFrom` | Program.cs:67-84 | the missing list `Execute` builds; its meaning is stated by `MissingAt`, `MissingInKeyOrder`, `MissingSound`, `MissingComplete` and `MissingOnceEach` |
| `Reconciliation.MissingInKeyOrder` | Program.cs:67-84 | the missing photos are those filed under the source keys that the destination lacks, in the source dictionary's key order |
| `Reconciliation.MissingAt` | Program.cs:71-84 | the i-th missing photo is the source index's photo for the i-th key that `Except` yields; that key is absent from the destination |
| `Reconciliation.MissingSound` | Program.cs:67-85 | every missing photo is the kept source photo for an identity that occurs in the source and not in the destination |
| `Reconciliation.MissingComplete` | Program.cs:67-85 | every source identity the destination lacks has its kept photo in the missing list |
| `Reconciliation.MissingOnceEach` | Program.cs:67-85 | no photo is listed twice, and the list is as long as the set difference of the identities |
| `Reconciliation.Reconciler.constructor` | Program.cs:38-41 | a new reconciler has no filters and no report |
| `Reconciliation.Reconciler.AddFilter` | Program.cs:43-46 | appends the filter after the existing filters, which keep their order; the report is unchanged |
| `Reconciliation.Reconciler.FilesToDictionary` | Program.cs:109-124 | the result is `Index(photos)`; the report's duplicates grow by exactly `Duplicates(location, photos)`; the missing lists are unchanged |
| `Reconciliation.Reconciler.Execute` | Program.cs:48-107 | returns the fresh report it stored in its field; the duplicates are those of the source, then those of the destination; Missing[Source] is `MissingFrom(Index(source), Index(destination))`; Missing[Destination] is empty |
| `ReconcilerExtensions.ExcludeExtensions` | Filters/ReconcilerExtensions.cs:7-11 | returns the same reconciler with one more filter, which excludes exactly the given extensions; earlier filters are unchanged and in order |
| `ReconcilerExtensions.NewReconcilerExcludingNothing` | Program.cs:25 | `new Reconciler().ExcludeExtensions()` gives one filter that admits every path |
| `Scenarios.EmptyRun` | Program.cs:48-107 | with both sides empty, there are no duplicates and nothing is missing |
| `Scenarios.CaseVariantsCollide` | Program.cs:249 | `Old/c.jpg` under root `Old` and `Backup/C.JPG` under root `Backup`, both of size 50, have the same identity |
| `Scenarios.DuplicateOnSource` | Program.cs:113-121 | two photos with one identity give one slot, holding the second photo, and the single pair (second, first) |
| `Scenarios.OneFileMissing` | Program.cs:67-85 | with source [a, b], destination [a'], a' matching a and b matching nothing, there are no duplicates and exactly [b] is missing |

## Left out

- Device and filesystem enumeration (`GetFilesFromDevice`, `GetFiles`, `GetDirectories`, `Main`). These are MediaDevices and `System.IO` calls, plus `AsParallel`. `Execute` takes the two photo sequences as parameters instead of directory names.
- The filter loop in the unused directory walk (Program.cs:178-190). It sits in I/O code that nothing calls, so filters are stored but never applied in the model. The same holds for the live code.
- `SaveReport` (JSON serialisation and file writing), console progress output, and `Photo.ToString`. These are I/O and diagnostics.
- The rename-suppression rules and the Destination-side pass. Both are commented out in the source, so the model has neither.
- `Photos.RelativePath`: strings are sequences of Unicode characters, while C# `Length` and `Substring` count UTF-16 code units. They agree whenever the root, and the first |root| characters of the full path, hold no character outside the BMP. In particular they agree when the root is a real prefix. The source does not check that it is. They can differ otherwise. With root "😀" and full path "abc", C# gives "c" but the model gives "bc". With root "ab" and full path "😀", C# gives "", but the model's precondition `|root| <= |full|` rejects the input. That precondition stands in for the exception `Substring` throws when the root is longer. Null `Directory` or `FullPath` references are not modelled.
- Outside the BMP, all length and index arithmetic counts characters, not UTF-16 code units. This covers `Text.Lower` and `FileFilters.Extension`.
- `Text.Lower`: `ToLowerInvariant` is modelled only for ASCII capitals. Other Unicode case mappings are not modelled. The identity properties rest on two facts: lower-casing works character by character, so it distributes over concatenation (`LowerConcat`), and it leaves digits and `,` unchanged.
- `FileFilters.Extension`: models `Path.GetExtension` on Windows under .NET Core: a backward scan that stops at `\` or `/`, and returns "" when the last `.` is the final character. A null path is not modelled.
- `Reconciliation.Reconciler.FilesToDictionary`: requires `report != null`. In C#, `report` is dereferenced only when a duplicate occurs (Program.cs:118), so a call with no duplicates on a fresh reconciler succeeds. The only callers (Program.cs:55 and 62) run after line 50 has set the field.
- `IFileFilter`: `FileExtensionFilter` is the only implementation the core uses, so the reconciler's filter list is a sequence of those filters. `IFileFilter`'s declaration is not part of this model.
- `Include` gives the same answer every time only because the `HashSet` is never changed after construction. The model reflects this by making the filter an immutable datatype. No lemma states it.
- The `Duplicate` struct is a datatype. Its constructor keeps `location`, `photo1` and `photo2` as given by definition, so it has no separate lemma.
- `Photo.Size` is a 64-bit unsigned value, modelled as the subset type `uint64`. No arithmetic is done on it.
