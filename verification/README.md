# WebberTools core, modelled in Dafny

WebberTools is the library behind the `webber` command-line tool for SwiftWasm
web applications. This project models four of its parts, along with the
text operations from Foundation that they rely on:

- **Compilation-error parser** (`pasreCompilationErrors`). It reads the
  compiler's standard output and collects one `CompilationError` record per
  source file. Each record holds the places reported in that file, ordered
  by line. The records themselves are ordered by the file's last path
  component.
- **`Swift` driver**, covering:
  - the argument lists of its four commands;
  - the error descriptions;
  - how a finished `swift` process is classified as a result or a thrown
    error;
  - the queries over the decoded package manifest (executable products and
    local dependencies).
- **Package manifest decoders**: the hand-written decoders for resource
  rules and dependencies, plus the synthesized decoder for localizations.
- **Live-preview rewrite** (`replaceContentLinksToBase64`). A `src="..."`
  link in a preview's HTML is replaced by a base64 `data:` URL when three
  things hold: `URL(string:)` parses it, its extension has a MIME type, and
  its data can be fetched (remote) or read (local). The preview's `html`
  field is updated in place.

Files:

- `wrappers.dfy`: `Option` and `Result`.
- `text.dfy`: the Foundation string operations used by the core:
  - `components(separatedBy:)`, `joined`, `replacingOccurrences`;
  - trimming whitespace;
  - `Int(_:)` and integer printing;
  - string comparison.
- `compilation_error.dfy`: the `CompilationError` class and its `Place`.
- `errors_parser.dfy`: the parser. It has two parts:
  - a functional specification (`ParseGroup`, `ParseFrom`, `Parse`);
  - the imperative pass over `CompilationError` objects (`GracefulExit`,
    `ParsePlace`, `ParseCompilationErrors`), proved to produce what the
    specification says.
- `parser_properties.dfy`: what the parser guarantees:
  - the shape of its result;
  - how places are merged;
  - when it traps;
  - how it handles runs of well-formed diagnostics, with a worked example.
- `swift_package.dfy`: the manifest's JSON shape and decoders.
- `swift.dfy`: the `Swift` driver.
- `fs.dfy`: MIME types, the module directory, local file URLs, link
  inlining, and the `Preview` class.

These are the parameters of the model rather than things it computes:

- The process's exit status, standard output and standard error.
- UTF-8 decoding.
- The `Environment` record, whose fields stand for the outside world:
  - base64 decoding and encoding;
  - the regular-expression search for `src` values;
  - `URL(string:)`;
  - network fetches;
  - file reads.

The parser can hit a Swift runtime trap: `removeFirst` on an empty array.
This happens when an error header whose line field reads as an `Int` is
among the last two lines. A header whose line field does not read as an
`Int` is flushed instead. The model makes the trap an explicit outcome,
`Trapped`.

## Model

| member | source | states |
|---|---|---|
| Text.Split | Sources/WebberTools/CompilationErrorsParser.swift:12 | `components(separatedBy:)` yields at least one piece; its properties are in the Text lemmas below |
| Text.IndexFrom | Sources/WebberTools/CompilationErrorsParser.swift:17 | the first occurrence at or after a position: it occurs there and nowhere between |
| Text.IndexOf | Sources/WebberTools/CompilationErrorsParser.swift:17 | `contains` as a search: the index found is a first occurrence, and none means no occurrence at all |
| Text.OccursAtContains | Sources/WebberTools/CompilationErrorsParser.swift:17 | a pattern found at any position makes `contains` true |
| Text.JoinCons | Sources/WebberTools/Swift.swift:38 | joining `x` before a non-empty list puts one separator after `x` |
| Text.JoinSnoc | Sources/WebberTools/Swift.swift:38 | joining a list with one more element at the end adds one separator and that element |
| Text.JoinSplit | Sources/WebberTools/FS.swift:67 | splitting on a pattern and joining with it gives back the original text |
| Text.SplitPartsAvoidSeparator | Sources/WebberTools/CompilationErrorsParser.swift:20 | no piece of a split contains the separator |
| Text.SplitJoin | Sources/WebberTools/CompilationErrorsParser.swift:12 | splitting on a character gives back pieces that were joined with it and do not contain it |
| Text.CharSplitAlone | Sources/WebberTools/CompilationErrorsParser.swift:12 | text without the separator character splits into itself alone |
| Text.CharSplitStep | Sources/WebberTools/CompilationErrorsParser.swift:12 | a split on a character stops first at the first occurrence of that character |
| Text.SplitFirstPiece | Sources/WebberTools/FS.swift:50 | the first piece is a prefix, and when shorter than the text it is followed by the separator |
| Text.ContainsChar | Sources/WebberTools/FS.swift:72 | containing a one-character string is the same as containing that character |
| Text.SplitCount | Sources/WebberTools/CompilationErrorsParser.swift:17 | a split has more than one piece exactly when the separator occurs |
| Text.LeadingWhitespace | Sources/WebberTools/Swift.swift:148 | the count of leading whitespace (tab and the Unicode space separators): all of it is whitespace and the next character is not |
| Text.TrailingWhitespace | Sources/WebberTools/Swift.swift:148 | the count of trailing whitespace, with the same maximality |
| Text.Trim | Sources/WebberTools/Swift.swift:148 | `trimmingCharacters(in: .whitespaces)` is an infix that neither starts nor ends with whitespace, and only whitespace is removed |
| Text.LexLessIrreflexive | Sources/WebberTools/CompilationErrorsParser.swift:66 | string `<` is irreflexive |
| Text.LexLessTransitive | Sources/WebberTools/CompilationErrorsParser.swift:66 | string `<` is transitive |
| Text.LexLessTotal | Sources/WebberTools/CompilationErrorsParser.swift:66 | distinct strings are ordered one way or the other |
| Text.LexLessAsymmetric | Sources/WebberTools/CompilationErrorsParser.swift:66 | string `<` never holds both ways |
| Text.LexLessNegativelyTransitive | Sources/WebberTools/CompilationErrorsParser.swift:66 | "not less than" is transitive, which is what sorting by name relies on |
| Text.DigitChar | Sources/WebberTools/Swift.swift:58 | a digit is printed as a character that is a digit with that value |
| Text.ParseInt | Sources/WebberTools/CompilationErrorsParser.swift:45 | what `Int(_:)` accepts is non-empty, has only digits after its first character, and lies within 64 bits; its value and its first character are stated by the lemmas below |
| Text.ParseIntAccepts | Sources/WebberTools/CompilationErrorsParser.swift:45 | an accepted text starts with a sign or a digit and is not a sign alone |
| Text.ParseIntValue | Sources/WebberTools/CompilationErrorsParser.swift:45 | digits alone or after `+` read as their decimal value, and after `-` as its negation, exactly when that value fits in 64 bits; otherwise nothing is read |
| Text.ParseIntUnsigned | Sources/WebberTools/CompilationErrorsParser.swift:45 | digits without a sign read as their value when it is at most `Int.max`, and as nothing otherwise |
| Text.ParseIntSigned | Sources/WebberTools/CompilationErrorsParser.swift:45 | a sign followed by digits reads as the signed value when it lies between `Int.min` and `Int.max`, and as nothing otherwise |
| Text.LeadingZero | Sources/WebberTools/CompilationErrorsParser.swift:45 | a leading zero leaves the digits' value unchanged |
| Text.ParseIntLeadingZero | Sources/WebberTools/CompilationErrorsParser.swift:45 | a leading zero does not change what `Int(_:)` reads |
| Text.ParseIntSignExamples | Sources/WebberTools/CompilationErrorsParser.swift:45 | `Int("+5")` is 5 and `Int("-0")` is 0 |
| Text.ParseIntOtherExamples | Sources/WebberTools/CompilationErrorsParser.swift:45 | `Int("007")` is 7, while `"+"`, the empty text and `" 7"` are rejected |
| Text.NatToString | Sources/WebberTools/Swift.swift:58 | a natural number prints as a non-empty digit string without leading zeros, whose value is the number |
| Text.IntToStringParses | Sources/WebberTools/Swift.swift:58 | a printed 64-bit integer is read back by `Int(_:)` as itself |
| Diagnostics.CompilationError.constructor | Sources/WebberTools/CompilationError.swift:20-23 | a new record holds the given file and places |
| ErrorsParser.PlaceErrorComponents | Sources/WebberTools/CompilationErrorsParser.swift:19-25 | `placeErrorComponents`; what its result means is stated by `ErrorsParser.ErrorComponentsRejoin` and `ParserProperties.HeaderIff` |
| ErrorsParser.ErrorComponentsRejoin | Sources/WebberTools/CompilationErrorsParser.swift:19-25 | the five accepted fields hold no `:` and join back with `:` into the line itself, which mentions `error` |
| ErrorsParser.FieldContains | Sources/WebberTools/CompilationErrorsParser.swift:20 | text contained in one field is contained in the line the fields are joined into |
| ErrorsParser.LineIsPlace | Sources/WebberTools/CompilationErrorsParser.swift:16-18 | the first header test; the full header condition is stated by `ParserProperties.HeaderIff` |
| ErrorsParser.Header | Sources/WebberTools/CompilationErrorsParser.swift:16-28 | an accepted header has five fields |
| ErrorsParser.LinePosition | Sources/WebberTools/CompilationErrorsParser.swift:38 | a place goes after every place on an earlier line and before the first on the same or a later line |
| ErrorsParser.InsertByLine | Sources/WebberTools/CompilationErrorsParser.swift:38 | inserting into a line-sorted list keeps it sorted and adds exactly that place |
| ErrorsParser.InsertAtSorted | Sources/WebberTools/CompilationErrorsParser.swift:38 | inserting at that position keeps the list sorted and adds exactly that place |
| ErrorsParser.InsertAtIndex | Sources/WebberTools/CompilationErrorsParser.swift:38 | the element-by-element shape of a list with one element inserted |
| ErrorsParser.SortByLine | Sources/WebberTools/CompilationErrorsParser.swift:38-40 | `sort(by: line <)` returns the same places, as a multiset, ordered by line |
| ErrorsParser.NamePosition | Sources/WebberTools/CompilationErrorsParser.swift:66 | a record goes after every record with a smaller name and before the first one that is not smaller |
| ErrorsParser.InsertByName | Sources/WebberTools/CompilationErrorsParser.swift:66 | inserting into a name-sorted list keeps it sorted and adds exactly that record |
| ErrorsParser.InsertAtSortedByName | Sources/WebberTools/CompilationErrorsParser.swift:66 | inserting at that position keeps the list sorted by name and adds exactly that record |
| ErrorsParser.SortByName | Sources/WebberTools/CompilationErrorsParser.swift:66 | sorting by last path component returns the same records, as a multiset, ordered by name |
| ErrorsParser.SortByNameMembers | Sources/WebberTools/CompilationErrorsParser.swift:66 | sorting neither loses nor invents a record |
| ErrorsParser.MergePlaces | Sources/WebberTools/CompilationErrorsParser.swift:33-37 | the `forEach` that adds new (line, reason) pairs; stated by `ParserProperties.MergePlacesMembers`, `MergePlacesKeys`, `MergePlacesKeepsKeysUnique` and `MergeNothingNew` |
| ErrorsParser.Flush | Sources/WebberTools/CompilationErrorsParser.swift:30-44 | `gracefulExit` on values; stated by `ParserProperties.FlushFindsEntry`, `FlushLeavesOthers`, `FlushWellFormed` and `FlushTwice`, and implemented by `GracefulExit` |
| ErrorsParser.IndexOfKey | Sources/WebberTools/CompilationErrorsParser.swift:32 | `first(where: file == path)`: the index found is the first with that key, and none means no record has it |
| ErrorsParser.ParseGroup | Sources/WebberTools/CompilationErrorsParser.swift:27-62 | a finished group leaves a suffix of its lines unread |
| ErrorsParser.ParseFrom | Sources/WebberTools/CompilationErrorsParser.swift:13-64 | the `while` loop over the lines; stated by `ParserProperties.ParseFromWellFormed`, `TrapsOnlyNearEnd`, `ParseRun` and `ParseFromKeepsRecords` |
| ErrorsParser.Parse | Sources/WebberTools/CompilationErrorsParser.swift:10-68 | `pasreCompilationErrors` on values; stated by `ParserProperties.ParseWellFormed`, `ParseWithoutHeaders`, `ParseDroppedBlocks`, `ParseOneFile` and `ValidBlockRecorded`, and implemented by `ParseCompilationErrors` |
| ErrorsParser.IndexOfKeyAgrees | Sources/WebberTools/CompilationErrorsParser.swift:32 | the search gives the same index on objects and on their values |
| ErrorsParser.NamePositionAgrees | Sources/WebberTools/CompilationErrorsParser.swift:66 | the insertion point is the same on objects and on their values |
| ErrorsParser.SnapshotTail | Sources/WebberTools/CompilationError.swift:10-24 | the values of the tail are the tail of the values |
| ErrorsParser.SnapshotInsert | Sources/WebberTools/CompilationError.swift:10-24 | the values of a list with one record inserted have that record's value inserted |
| ErrorsParser.SnapshotSortByName | Sources/WebberTools/CompilationErrorsParser.swift:66 | sorting the objects by name and sorting their values give the same values |
| ErrorsParser.FlushKeepsFilesUnique | Sources/WebberTools/CompilationErrorsParser.swift:30-44 | flushing never creates a second record for a file |
| ErrorsParser.MergeInto | Sources/WebberTools/CompilationErrorsParser.swift:33-38 | the record's places become its old places merged by (line, reason) with the new ones, then sorted by line |
| ErrorsParser.MergeAt | Sources/WebberTools/CompilationErrorsParser.swift:32-38 | only the record at the index changes, and it takes the merged places |
| ErrorsParser.AppendNew | Sources/WebberTools/CompilationErrorsParser.swift:39-42 | the records grow by one new record holding the places sorted by line |
| ErrorsParser.GracefulExit | Sources/WebberTools/CompilationErrorsParser.swift:30-44 | the records after `gracefulExit` are the flush of the records before it |
| ErrorsParser.ParsePlace | Sources/WebberTools/CompilationErrorsParser.swift:27-62 | traps exactly when the group specification does; otherwise it returns the same unread lines and records as the specification, with files still unique |
| ErrorsParser.ParseCompilationErrors | Sources/WebberTools/CompilationErrorsParser.swift:10-68 | traps exactly when `Parse` does; otherwise the new records hold exactly what `Parse` computes |
| ParserProperties.HeaderIff | Sources/WebberTools/CompilationErrorsParser.swift:16-26 | a line is a header exactly when it starts with `/`, mentions `.swift:`, has five `:` fields and the fourth mentions `error` |
| ParserProperties.MergePlacesMembers | Sources/WebberTools/CompilationErrorsParser.swift:33-37 | merging keeps the existing places in front and adds only incoming ones |
| ParserProperties.SortByLineMembers | Sources/WebberTools/CompilationErrorsParser.swift:38 | sorting by line keeps the length and exactly the same places |
| ParserProperties.MergedEntryGood | Sources/WebberTools/CompilationErrorsParser.swift:32-38 | a merged record is non-empty, sorted, and every pointer has a `^` |
| ParserProperties.NewEntryGood | Sources/WebberTools/CompilationErrorsParser.swift:39-42 | a new record is non-empty, sorted, and every pointer has a `^` |
| ParserProperties.FlushWellFormed | Sources/WebberTools/CompilationErrorsParser.swift:30-44 | a flush keeps the records well formed: no empty record, no file twice |
| ParserProperties.UpdateWellFormed | Sources/WebberTools/CompilationErrorsParser.swift:32-38 | replacing a record by a good one with the same key keeps the list well formed |
| ParserProperties.AppendWellFormed | Sources/WebberTools/CompilationErrorsParser.swift:39-42 | appending a good record for a new file keeps the list well formed |
| ParserProperties.ParseGroupWellFormed | Sources/WebberTools/CompilationErrorsParser.swift:27-62 | a finished group leaves the records well formed |
| ParserProperties.ParseFromWellFormed | Sources/WebberTools/CompilationErrorsParser.swift:13-64 | a finished scan leaves the records well formed |
| ParserProperties.InsertKeepsFilesUnique | Sources/WebberTools/CompilationErrorsParser.swift:66 | inserting a record for a new file keeps files unique |
| ParserProperties.SortKeepsFilesUnique | Sources/WebberTools/CompilationErrorsParser.swift:66 | sorting by name keeps files unique |
| ParserProperties.ParseWellFormed | Sources/WebberTools/CompilationErrorsParser.swift:10-68 | a finished parse gives records sorted by name, one per file, each non-empty, sorted by line, every pointer holding `^` |
| ParserProperties.HasKeyIff | Sources/WebberTools/CompilationErrorsParser.swift:34 | the duplicate test is membership of the (line, reason) pair |
| ParserProperties.MergePlacesKeys | Sources/WebberTools/CompilationErrorsParser.swift:33-37 | after merging, the (line, reason) pairs are exactly the old ones plus the incoming ones |
| ParserProperties.MergePlacesKeepsKeysUnique | Sources/WebberTools/CompilationErrorsParser.swift:33-37 | merging never adds a duplicate pair |
| ParserProperties.MergeNothingNew | Sources/WebberTools/CompilationErrorsParser.swift:33-37 | incoming places whose pairs are all present change nothing |
| ParserProperties.SortByLineKeys | Sources/WebberTools/CompilationErrorsParser.swift:38 | sorting keeps the set of pairs |
| ParserProperties.SortSortedIsIdentity | Sources/WebberTools/CompilationErrorsParser.swift:38 | sorting places already ordered by line leaves them as they are |
| ParserProperties.FlushFindsEntry | Sources/WebberTools/CompilationErrorsParser.swift:30-44 | after flushing some places there is a sorted record for the file, holding the pairs it had plus the flushed ones |
| ParserProperties.FlushLeavesOthers | Sources/WebberTools/CompilationErrorsParser.swift:30-44 | a flush adds a record only for a new file with places, and leaves every other file's record unchanged |
| ParserProperties.IndexOfKeyUpdated | Sources/WebberTools/CompilationErrorsParser.swift:32 | updating the found record keeps it found at the same index |
| ParserProperties.IndexOfKeyAppended | Sources/WebberTools/CompilationErrorsParser.swift:32 | an appended record for a new file is found at the end |
| ParserProperties.FlushTwice | Sources/WebberTools/CompilationErrorsParser.swift:30-44 | flushing the same places twice equals flushing once |
| ParserProperties.AppendIfAbsentHasKey | Sources/WebberTools/CompilationErrorsParser.swift:34-36 | after a conditional append the pair is present |
| ParserProperties.MergeTwiceOnce | Sources/WebberTools/CompilationErrorsParser.swift:33-37 | merging a place twice is merging it once |
| ParserProperties.DuplicateMergedOnce | Sources/WebberTools/CompilationErrorsParser.swift:32-38 | a repeated place is collapsed when merged into an existing record |
| ParserProperties.DuplicateKeptInNewRecord | Sources/WebberTools/CompilationErrorsParser.swift:39-42 | a repeated place is kept twice in a new record, which then has a duplicate pair |
| ParserProperties.NoHeaders | Sources/WebberTools/CompilationErrorsParser.swift:13-26 | lines with no header leave the records unchanged |
| ParserProperties.ParseWithoutHeaders | Sources/WebberTools/CompilationErrorsParser.swift:10-68 | text without an error header parses to no records |
| ParserProperties.DroppedBlocksLeaveRecords | Sources/WebberTools/CompilationErrorsParser.swift:13-64 | when every error header with an `Int` line field is followed by a pointer line without `^`, each group is dropped, its flush adds nothing, and the records stay as they were |
| ParserProperties.ParseDroppedBlocks | Sources/WebberTools/CompilationErrorsParser.swift:10-68 | output in which every block is dropped, by a line field that is not an `Int` or by a pointer without `^`, parses to no records |
| ParserProperties.FlushKeepsRecords | Sources/WebberTools/CompilationErrorsParser.swift:30-44 | a flush never removes the record of a file |
| ParserProperties.ParseGroupKeepsRecords | Sources/WebberTools/CompilationErrorsParser.swift:27-62 | a finished group keeps the record of every file that had one |
| ParserProperties.ParseFromKeepsRecords | Sources/WebberTools/CompilationErrorsParser.swift:13-64 | a finished scan keeps the record of every file that had one |
| ParserProperties.SkipPlainLines | Sources/WebberTools/CompilationErrorsParser.swift:13-26 | lines that are not error headers are passed over without effect |
| ParserProperties.FirstRecordFromBlock | Sources/WebberTools/CompilationErrorsParser.swift:13-64 | the first valid diagnostic after plain lines starts a record for its file holding its place |
| ParserProperties.SortKeepsRecord | Sources/WebberTools/CompilationErrorsParser.swift:66 | sorting by name keeps the record of every file |
| ParserProperties.ValidBlockRecorded | Sources/WebberTools/CompilationErrorsParser.swift:10-68 | a valid diagnostic, after plain lines and ending its group, leaves a record for its file in a finished parse |
| ParserProperties.TrapAtEnd | Sources/WebberTools/CompilationErrorsParser.swift:45-51 | a header with an `Int` line field and fewer than two lines after it traps |
| ParserProperties.SuffixTrapNearEnd | Sources/WebberTools/CompilationErrorsParser.swift:50-51 | a trapping header near the end of a suffix is near the end of the whole |
| ParserProperties.GroupTrapsOnlyNearEnd | Sources/WebberTools/CompilationErrorsParser.swift:27-62 | a group traps only if one of the last two lines is a header with an `Int` line field |
| ParserProperties.TrapsOnlyNearEnd | Sources/WebberTools/CompilationErrorsParser.swift:13-64 | the scan traps only if one of the last two lines is a header with an `Int` line field |
| ParserProperties.GroupTrapAt | Sources/WebberTools/CompilationErrorsParser.swift:27-63 | a scan starting at a header traps only near the end |
| ParserProperties.NoTrapWhenOutputEndsPlain | Sources/WebberTools/CompilationErrorsParser.swift:10-68 | output whose last two lines are not error headers never traps |
| ParserProperties.NoColonInInt | Sources/WebberTools/CompilationErrorsParser.swift:20 | a printed integer holds no `:` |
| ParserProperties.HeaderLineParses | Sources/WebberTools/CompilationErrorsParser.swift:16-28 | the header line of a valid diagnostic is accepted with its own fields, and its line number reads back |
| ParserProperties.ContinueIntoBlock | Sources/WebberTools/CompilationErrorsParser.swift:57-58 | a next header for the same file continues the group |
| ParserProperties.BlockLinesCons | Sources/WebberTools/CompilationErrorsParser.swift:12 | the lines of a run of blocks begin with the first block's three lines |
| ParserProperties.RunFirstBlock | Sources/WebberTools/CompilationErrorsParser.swift:45-61 | the first block of a group adds its place |
| ParserProperties.RunNextBlock | Sources/WebberTools/CompilationErrorsParser.swift:57-58 | a following block for the same file continues the group |
| ParserProperties.GroupRun | Sources/WebberTools/CompilationErrorsParser.swift:27-62 | a run of valid blocks for one file is one group collecting their places in order |
| ParserProperties.FromHeader | Sources/WebberTools/CompilationErrorsParser.swift:13-28 | the scan hands a header line to the group parser |
| ParserProperties.RunThen | Sources/WebberTools/CompilationErrorsParser.swift:13-63 | the scan over a run of blocks is one group followed by whatever comes next |
| ParserProperties.ParseRun | Sources/WebberTools/CompilationErrorsParser.swift:13-63 | a run of valid blocks for one file, followed by lines that do not continue it, is one flush of their places |
| ParserProperties.MalformedPointerKeepsGroup | Sources/WebberTools/CompilationErrorsParser.swift:52-55 | a block whose pointer has no `^` is dropped, and the places collected so far are still flushed |
| ParserProperties.BadLineNumberKeepsGroup | Sources/WebberTools/CompilationErrorsParser.swift:45-48 | a header whose line field is not an `Int` ends the group, flushing what was collected |
| ParserProperties.RepeatedBlockKeptTwice | Sources/WebberTools/CompilationErrorsParser.swift:39-42 | the same block printed twice for a new file yields a record holding that place twice |
| ParserProperties.HeaderLineShape | Sources/WebberTools/CompilationErrorsParser.swift:20 | a header line is its five fields joined by `:` |
| ParserProperties.BlockLinesSingle | Sources/WebberTools/CompilationErrorsParser.swift:12 | lines of single-line blocks hold no line break |
| ParserProperties.SplitBlockText | Sources/WebberTools/CompilationErrorsParser.swift:12 | compiler output made of blocks splits back into exactly their lines |
| ParserProperties.SortTwo | Sources/WebberTools/CompilationErrorsParser.swift:40 | two places sort into line order, keeping their order on a tie |
| ParserProperties.RunAlone | Sources/WebberTools/CompilationErrorsParser.swift:13-64 | a run of valid blocks for one file, alone, gives one record with their places sorted by line |
| ParserProperties.ParseOneFile | Sources/WebberTools/CompilationErrorsParser.swift:10-68 | output made of valid blocks for one file parses to one record holding their places sorted by line |
| ParserProperties.TwoBlocksOneFile | Sources/WebberTools/CompilationErrorsParser.swift:10-68 | two blocks for one file give one record with both places in line order |
| ParserProperties.TwoPlacesSorted | Sources/WebberTools/CompilationErrorsParser.swift:40 | two blocks' places sorted by line |
| ParserProperties.MainSwiftExample | Sources/WebberTools/CompilationErrorsParser.swift:10-68 | two errors for `main.swift`, printed with the one on line 20 first, parse to one record holding the place on line 10 and then the place on line 20 |
| SwiftPackage.DecodeString | Sources/WebberTools/SwiftPackage.swift:59 | a string decodes exactly from a JSON string, to its text |
| SwiftPackage.DecodeStringField | Sources/WebberTools/SwiftPackage.swift:59-65 | a keyed string decodes exactly when the key holds a string; a missing key is `keyNotFound` |
| SwiftPackage.DecodeRule | Sources/WebberTools/SwiftPackage.swift:24-36 | the `Rule` decoder; stated by `RuleRoundTrip`, `RuleFromString`, `RuleFromDict` and `RuleDecodes` |
| SwiftPackage.DecodeLocalization | Sources/WebberTools/SwiftPackage.swift:38-40 | the `Localization` decoder; stated by `LocalizationIff` and `LocalizationDecodes` |
| SwiftPackage.DecodeDependency | Sources/WebberTools/SwiftPackage.swift:57-66 | the `Dependency` decoder; stated by `DependencyFields`, `DependencyMissingKeys` and `DependencyRoundTrip` |
| SwiftPackage.RuleRoundTrip | Sources/WebberTools/SwiftPackage.swift:24-36 | a rule written as its name or as a dictionary keyed by its name decodes back to itself |
| SwiftPackage.RuleFromString | Sources/WebberTools/SwiftPackage.swift:26-27 | a string decodes to a rule exactly when it is that rule's name |
| SwiftPackage.RuleFromDict | Sources/WebberTools/SwiftPackage.swift:29-34 | a well-typed dictionary decodes, to `process` exactly when it has that key |
| SwiftPackage.RuleDecodes | Sources/WebberTools/SwiftPackage.swift:24-36 | only a rule name or a well-typed dictionary decodes |
| SwiftPackage.LocalizationIff | Sources/WebberTools/SwiftPackage.swift:38-40 | a value decodes to a localization exactly when it is that localization's raw value |
| SwiftPackage.LocalizationDecodes | Sources/WebberTools/SwiftPackage.swift:38-40 | only `default` and `base` decode |
| SwiftPackage.DependencyFields | Sources/WebberTools/SwiftPackage.swift:57-66 | a decoded dependency takes identity and url from the two required keys, and is local exactly when its requirement has `localPackage` |
| SwiftPackage.DependencyMissingKeys | Sources/WebberTools/SwiftPackage.swift:59-65 | a missing identity is reported first, and a missing location after it |
| SwiftPackage.DependencyRoundTrip | Sources/WebberTools/SwiftPackage.swift:48-67 | a dependency as the manifest writes it decodes back to itself |
| SwiftTool.Arguments | Sources/WebberTools/Swift.swift:24-40 | `Command.arguments`; its properties are stated by `ArgumentsIgnoreTriple`, `BuildArgumentsShape`, `BuildArgumentsRoundTrip` and `PreviewArguments` |
| SwiftTool.ArgumentsIgnoreTriple | Sources/WebberTools/Swift.swift:24-40 | only a build depends on the WebAssembly flag |
| SwiftTool.BuildArgumentsShape | Sources/WebberTools/Swift.swift:28-36 | a build's arguments are the fixed prefix, then the WebAssembly suffix or the native build path |
| SwiftTool.BuildArgumentsRoundTrip | Sources/WebberTools/Swift.swift:28-36 | configuration, product and target can be read back from a build's arguments |
| SwiftTool.PreviewArguments | Sources/WebberTools/Swift.swift:38 | preview arguments are eight, name the module, and the selector splits back into the qualified previews |
| SwiftTool.Description | Sources/WebberTools/Swift.swift:50-62 | `SwiftError.description`; the count in the `.errors` case is stated by `ErrorsDescription` |
| SwiftTool.ErrorsDescription | Sources/WebberTools/Swift.swift:56-60 | the description of a non-empty error list states its count, which reads back, and uses the plural exactly when there is more than one |
| SwiftTool.StderrMessage | Sources/WebberTools/Swift.swift:146-148 | the message taken from standard error; stated by `StderrMessageAfterLast` |
| SwiftTool.FailureText | Sources/WebberTools/Swift.swift:143-152 | the error thrown when standard output is unusable; stated by `FailureTextStatus` and, through `ClassifyExit`, by `StderrMessageAfterLast` |
| SwiftTool.StderrMessageAfterLast | Sources/WebberTools/Swift.swift:146-148 | the message is the trimmed text after the last `: error:` |
| SwiftTool.FailureTextStatus | Sources/WebberTools/Swift.swift:151 | with an empty standard error the message ends in the exit status, which reads back |
| SwiftTool.ClassifyExit | Sources/WebberTools/Swift.swift:141-173 | success gives decoded stdout or `""`; failure with unusable stdout gives the stderr message; failure of a build gives the parsed records, or `Unable to parse errors` when there are none; any other failure gives the raw text |
| SwiftTool.FirstWhere | Sources/WebberTools/Swift.swift:192-194 | `filter(p).first`: the index found is the first satisfying `p`, and none means none does |
| SwiftTool.CheckIfProductPresent | Sources/WebberTools/Swift.swift:190-206 | `checkIfServiceWorkerProductPresent` and `checkIfAppProductPresent`: succeed exactly when some product with that name has an `executable` type, and otherwise fail with ``Unable to find <role> executable product with name `<target>` in Package.swift``, a text naming both the role and the target |
| SwiftTool.MissingProductMessage | Sources/WebberTools/Swift.swift:195-204 | the thrown message contains the role's `executable product` and the target name in backquotes |
| SwiftTool.LookupExecutableName | Sources/WebberTools/Swift.swift:208-217 | succeeds exactly when an executable other than the excluded one exists; returns the first one; otherwise fails with the message |
| SwiftTool.AllScmMembers | Sources/WebberTools/Swift.swift:226 | a dependency is collected exactly when some `scm` list holds it |
| SwiftTool.LocalUrlsMembers | Sources/WebberTools/Swift.swift:227-228 | a url is collected exactly when a local dependency has it |
| SwiftTool.SourceDirsMembers | Sources/WebberTools/Swift.swift:229-230 | a directory is returned exactly for a url not starting with `../` or `./`, with `/Sources` appended |
| SwiftTool.LookupLocalDependencies | Sources/WebberTools/Swift.swift:219-232 | `lookupLocalDependencies`; stated by `LocalDependenciesMembers` |
| SwiftTool.LocalDependenciesMembers | Sources/WebberTools/Swift.swift:219-232 | a directory is returned exactly when a local dependency has a url not starting with `../` or `./` and the directory is that url with `/Sources` |
| FileSystem.MimeType | Sources/WebberTools/FS.swift:101-112 | `String.mimeType`; stated by `MimeTypeDomain` and `MimeTypeInjective` |
| FileSystem.MimeTypeDomain | Sources/WebberTools/FS.swift:101-112 | exactly the seven extensions have a type; it is `image/...` exactly for the five image extensions |
| FileSystem.MimeTypeInjective | Sources/WebberTools/FS.swift:101-112 | no two extensions share a type |
| FileSystem.ModulePath | Sources/WebberTools/FS.swift:50-52 | the module directory of the `at:` path, which all previews share; stated by `ModulePathPieces`, `FirstComponentPrefix` and `ModulePathShape` |
| FileSystem.ModulePathPieces | Sources/WebberTools/FS.swift:50-52 | the project path is what precedes the first `/Sources/` |
| FileSystem.FirstComponentPrefix | Sources/WebberTools/FS.swift:51 | the module name has no `/`, and the name followed by `/` is a prefix of the rest |
| FileSystem.ModulePathShape | Sources/WebberTools/FS.swift:49-52 | the module directory is the path up to the first `/Sources/` and one more component, ending in `/`, and is a prefix of the path |
| FileSystem.NonEmptyComponents | Sources/WebberTools/FS.swift:71-74 | no empty component is kept, and every non-empty component is kept as often as it occurs |
| FileSystem.NonEmptyComponentsConcat | Sources/WebberTools/FS.swift:71-74 | the components are filtered one by one, so their order is kept |
| FileSystem.LocalFile | Sources/WebberTools/FS.swift:70-74 | the file URL built for a local link; stated by `LocalFileComponents` and `LocalFileOf` |
| FileSystem.LocalFileComponents | Sources/WebberTools/FS.swift:70-74 | the local file lies under the module directory, and its relative part splits into exactly the link's non-empty components |
| FileSystem.LocalFileOf | Sources/WebberTools/FS.swift:70-74 | the loop builds the local file URL, all of whose components are non-empty |
| FileSystem.InlinedLink | Sources/WebberTools/FS.swift:60-81 | the `data:` URL a link is replaced by, if any; stated by `InlinedLinkIff` |
| FileSystem.InlinedLinkIff | Sources/WebberTools/FS.swift:60-81 | a link is inlined exactly when it parses, its extension has a type and its bytes can be read, remote or local |
| FileSystem.RewriteLink | Sources/WebberTools/FS.swift:67-79 | one link's replacement in the HTML; stated by `RewriteAbsentLink` and `InlineLink` |
| FileSystem.RewriteLinks | Sources/WebberTools/FS.swift:59-83 | the HTML after every found link is handled, in order; stated by `RewriteHtml` |
| FileSystem.RewriteAbsentLink | Sources/WebberTools/FS.swift:67 | HTML without `src="link"` is left as it is |
| FileSystem.InlineLink | Sources/WebberTools/FS.swift:60-82 | one link's step replaces its `src` by the `data:` URL when the link is inlined |
| FileSystem.RewriteHtml | Sources/WebberTools/FS.swift:59-83 | the loop inlines each `src` value the search returns, in turn |
| FileSystem.Preview.constructor | Sources/WebberTools/Preview.swift:13-20 | a new preview holds the given fields |
| FileSystem.PreviewHtml | Sources/WebberTools/FS.swift:58-94 | a preview's new HTML; stated by `UndecodablePassesThrough` and `InlineLinks` |
| FileSystem.UndecodablePassesThrough | Sources/WebberTools/FS.swift:91-93 | HTML that is not base64 of UTF-8 text is never changed |
| FileSystem.InlineLinks | Sources/WebberTools/FS.swift:58-94 | one preview's HTML becomes its rewritten HTML, and nothing else changes |
| FileSystem.ReplaceContentLinksToBase64 | Sources/WebberTools/FS.swift:48-97 | returns the same previews in order; without `/Sources/` nothing changes; otherwise each preview's HTML is rewritten once for each time it is listed |
| FileSystem.RewrittenOnce | Sources/WebberTools/FS.swift:54-95 | when no preview is listed twice, each is rewritten exactly once |

## Left out

- `DirectoryMonitor` (watching a directory with a dispatch source) and
  `String+SHA` (hashing) are not part of this model. Both are I/O or
  cryptography with nothing to prove about values.
- `Swift.execute` process plumbing is left out because it is I/O. This
  covers:
  - launching `swift`;
  - copying the environment (`Swift.swift:113-117`);
  - the stdout and stderr pipes.

  The exit status, the two byte streams and UTF-8 decoding are parameters
  of `SwiftTool.ClassifyExit`.
- `dumpPackage` is not modelled:
  - running `swift package dump-package` is I/O;
  - `JSONDecoder` is foreign code;
  - its cache is never assigned, so it never applies.

  The manifest queries take an already decoded `Package`. Decoding is
  modelled only for the three hand-made or enum decoders: `Rule`,
  `Localization` and `Dependency`. The synthesized decoders of the other
  structs are left out.
- `extractPreviewNamesAndHash` and `FS` file reads and writes are left out
  because they are I/O and regular expressions.
- `String.matches(for:)` is a foreign call into `NSRegularExpression`. The
  list of `src` values it finds, after removing duplicates through a `Set`,
  is the `srcValues` field of the environment, so its order is whatever the
  environment gives.
- Base64, network fetches and `_networkCache` are parameters of the
  environment. The cache only avoids refetching, so it becomes a pure
  `fetch`.
- URLs are modelled as strings. `URL(string:)` is a parameter. A file URL
  is its directory plus the appended components. `pathExtension` is the
  text after the last `.` of the last component, which differs from
  Foundation for names that start with a dot. `URL` normalisation is not
  modelled.
- `FileSystem.InlineLinks`: re-encoding always succeeds, because UTF-8
  encoding of a Swift string cannot fail. The "not modified 1" branch is
  therefore not modelled.
- The `print` logging is left out because it is output only.
- `Preview`'s `Codable` conformance and `Package.swift` are not part of
  this model.
- `ErrorsParser.SortByLine` and `ErrorsParser.SortByName` model Swift's
  `sort(by:)` as a stable insertion sort. Swift does not promise that
  `sort(by:)` is stable; its current implementation is, with another
  algorithm. The model fixes the order of ties where Swift leaves it open.
- `Text.LexLess` models Swift's `String <` as lexicographic order on
  characters. Unicode canonical equivalence is not modelled.
- Strings are sequences of Unicode scalars throughout. Swift's
  `hasPrefix`, `==` and `<` compare extended grapheme clusters (`Character`),
  and Foundation's `contains`, `components(separatedBy:)` and
  `replacingOccurrences` work on UTF-16 code units. Grapheme clustering and
  normalisation are not modelled, so `Text.HasPrefix`, `Text.Contains`,
  `Text.Split` and `Text.ReplaceAll` can differ from Swift on text with
  combining marks.
- `SwiftTool.LinesDescription` renders an array as `["a", "b"]` without
  escaping quotes or backslashes inside the elements.
- `SwiftPackage.Json`: numbers are integers. No decoded field holds a
  number.
- `SwiftTool.ErrorsDescription`: requires at most `Int.max` records so
  that the count reads back as an `Int`.
- `SwiftTool.ErrorsDescription` also does not cover an empty list. The
  source describes it as "found 1 error", but `execute` never throws
  `.errors` with an empty list.

Behaviour of the code worth knowing:

- A new record is sorted but not deduplicated
  (`CompilationErrorsParser.swift:39-42`), so one block printed twice for a
  new file stays twice (`ParserProperties.RepeatedBlockKeptTwice`).
  Deduplication by (line, reason) applies only when merging into an
  existing record.
- The line field is anything `Int(_:)` accepts, including a sign.
- The WebAssembly build adds 8 arguments (`Swift.swift:31`).
- The message of `lookupExecutableName` for an excluded service worker has
  no closing parenthesis (`Swift.swift:213`).
