# perdue: a Dafny model of the directory, scraping and migration logic

perdue collects Purdue University graduate-student records. It scrapes each
college's staff directory, which is either HTML rows or a paged JSON API. It
matches the students against the state compensation export and stores them in
SQLite. It then serves a directory page that can be filtered and sorted. A
separate tool applies numbered SQL migration scripts.

This project models the sequential logic of those pieces:

- the schema migration runner and its command-line flag reader (modules `Migrate`, `Cli`);
- the HTML row parsers with each college's overrides, and the liberal-arts scraper (modules `Parser`, `LiberalArtsParser`, `LiberalArts`, over `Html` and `Students`);
- the College of Agriculture JSON mapping and paging (module `Agriculture`);
- the directory page: the sort and filter edits to the query in the page URL, the headings, the SQL text, and the row formatting (module `Directory`);
- the student, office and salary persistence: escaping, the name-narrowing lookup, and fifty-row statements (modules `College`, `Salary`);
- small utilities: the id generator (`Id`), the environment and `.env` handling (`Configuration`), header and query lookup (`Http`), and the `Status` error type (`Error`).

Shared helpers follow Rust's `str` operations. They are `Split`, `Join`,
`Replace`, `Trim`, `ToLower`, `Chunks` and `usize` parsing and printing (module
`Strings`). `Option`, `Result` and `Outcome` live in module `Wrappers`.
`Outcome.Panic` is a Rust panic from `unwrap`, `panic!` or `usize` underflow in a debug build.

The environment is replaced by plain inputs:

- A database query becomes a lookup function, such as `lookup: string -> Option<GraduateStudent>` for a `LIKE` pattern.
- A statement the code would execute becomes its SQL text.
- The directory listing of the migration tool becomes a sequence of file names.
- Whether a migration script fails becomes a predicate.
- Random bytes become a function `draw(round, index)`.
- The thousands-grouping number format becomes a function `formatDollars`.
- An HTML element becomes its text nodes and its `href`.

The stateful parts are classes whose methods state their new state:

- `Migrate.Migrator` holds the single `Version` row and the committed scripts.
- `Cli.FlagMap` holds the flags read so far.
- `Directory.QueryState` holds the page query that the handlers edit in place.
- `Agriculture.ListRequest` holds the paged request.
- `Configuration.ProcessEnvironment` holds the process variables.

The loops of the source are methods, each proved equal to a reference
function: `GenerateId`, `ReadFlags`, `CollectMigrations`, `RunScripts`,
`GetStudentByName`, `StoreStudents`, `StoreOffices`, `BuildRows`,
`ProcessSalaries`, `StoreSalaries` and `LoadEnvFile`.

## Model

| member | source | states |
|---|---|---|
| Error.Prefix | src/error.rs:14-18 | each variant has its own prefix, ending in `": "` |
| Error.Display | src/error.rs:12-20 | the text is the variant's prefix followed by the message |
| Error.ParseDisplayOfDisplay | src/error.rs:12-20 | the variant and message can be read back from the displayed text |
| Error.DisplayInjective | src/error.rs:6-20 | two statuses that display the same are equal, so every status has exactly one prefix |
| Http.FindHeader | app/src/http.rs:4-9 | the result is `None` exactly when no header name matches case-insensitively; otherwise it is a matching header from the list |
| Http.QueryText | app/src/http.rs:15 | the query text never contains `?` |
| Http.NoQuestionMarkNoQuery | app/src/http.rs:15 | a URL without `?` gives the empty query |
| Http.QueryBetweenMarks | app/src/http.rs:15 | the query is the text after the first `?`, up to the next `?` if there is one |
| Id.NextPowerOfTwo | app/src/id.rs:14 | the result is a power of two, at least `n`, and the least such: it is 1 or its half is below `n` |
| Id.PowerAtLeast | app/src/id.rs:14 | searching upwards by doubling from a power of two ends at a power of two at least `n` whose half is below `n` unless it is the start |
| Id.Mask | app/src/id.rs:14 | the mask for the 64-character alphabet is 63 |
| Id.CharOf | app/src/id.rs:26-30 | every byte selects the alphabet character at its low six bits; none is rejected |
| Id.Encode | app/src/id.rs:25-31 | every character of the encoding is in the alphabet |
| Id.EncodeAppend | app/src/id.rs:25-30 | one more byte appends the character it selects |
| Id.EncodeEveryByte | app/src/id.rs:26-30 | the encoding has one character per byte: character `i` is `ALPHABET[bytes[i] & 63]` |
| Id.Drawn | app/src/id.rs:20-23 | `n` bytes are drawn, round by round |
| Id.MaskedIndex | app/src/id.rs:26 | masking with 63 gives an index below the alphabet's length |
| Id.AlphabetFitsMask | app/src/id.rs:13-17 | the checks asserted hold: the alphabet has 64 characters, fits a byte and fits the mask; 33 bytes per round is at least 21 |
| Id.GenerateId | app/src/id.rs:12-37 | the id has 21 characters, all from the alphabet, and is `ALPHABET[b & 63]` over the first 21 bytes of the first round |
| Id.FirstRoundSuffices | app/src/id.rs:20-35 | when the drawn bytes complete the id, exactly 21 were drawn, and character `i` is that of byte `i` of the first round |
| Id.DrawnNext | app/src/id.rs:20-25 | byte `j` of round `r` comes right after the bytes drawn before it |
| Id.EncodeNext | app/src/id.rs:25-30 | drawing one more byte appends the character it selects |
| Id.PushNext | app/src/id.rs:26-30 | every masked byte is inside the alphabet and appends its character |
| Id.PushRound | app/src/id.rs:25-34 | one round of bytes: when the id completes it is the encoding of the first 21 bytes drawn; otherwise it grew and encodes every byte drawn so far |
| Id.EncodeLength | app/src/id.rs:26-30 | one character per byte |
| Configuration.ConnectionString | configuration/lib.rs:39-46 | `Memory` is `:memory:`, and `Path(p)` is `p` |
| Configuration.AsStr | configuration/lib.rs:53-60 | the names are already lower-case |
| Configuration.Display | configuration/lib.rs:74-78 | `Display` writes exactly `as_str` |
| Configuration.TryFrom | configuration/lib.rs:62-72 | the result is `Local` or `Production` exactly when the lower-cased text is `local` or `production`; otherwise it is the quoted error |
| Configuration.TryFromAsStr | configuration/lib.rs:53-72 | printing an environment and parsing it back gives the same environment |
| Configuration.TryFromIgnoresCase | configuration/lib.rs:65-70 | letter case does not change the result |
| Configuration.StartupEnvironment | configuration/lib.rs:84-92 | an unset variable means `local`; `.env` is loaded exactly for `Local` |
| Configuration.ApplyLine | configuration/lib.rs:121-128 | an empty line is skipped; a line without `=` panics; otherwise the key is the text before the first `=` and the value the text up to the second `=` |
| Configuration.ProcessEnvironment.LoadEnvFile | configuration/lib.rs:121-128 | the new variables are those of applying the lines in order; a panic is reported when a line panics |
| Configuration.KeyValueLine | configuration/lib.rs:126-127 | `key=value` sets `key` to `value` |
| Configuration.ExtraEqualsIgnored | configuration/lib.rs:126-127 | the text after a second `=` is ignored |
| Configuration.LaterLineWins | configuration/lib.rs:121-128 | a later line for the same key overrides an earlier one |
| Cli.ReadCommand | migrate/src/cli.rs:22-32 | no argument, or one that does not parse, is the empty error; exactly one argument is consumed when there is one |
| Cli.Flag.Value | migrate/src/cli.rs:39-47 | the value is the parsed text, and a text that does not parse panics |
| Cli.RequiredFlag | migrate/src/cli.rs:64-75 | it is the optional configuration with presence `Required` |
| Cli.OptionalFlag | migrate/src/cli.rs:77-88 | the names and description are kept and the presence is `Optional` |
| Cli.FlagMap.Has | migrate/src/cli.rs:176-178 | true exactly when the key was inserted |
| Cli.FlagMap.Insert | migrate/src/cli.rs:180-182 | the key now maps to the flag, replacing an earlier value; other keys are unchanged |
| Cli.FlagMap.Get | migrate/src/cli.rs:184-190 | an absent key panics; a present key gives its parsed value |
| Cli.FlagMap.GetOptional | migrate/src/cli.rs:192-200 | an absent key gives `None`; a present key gives its parsed value, or panics when the value does not parse |
| Cli.LongNames | migrate/src/cli.rs:104-111 | every flag's long name is mapped to a flag with that long name |
| Cli.ShortNames | migrate/src/cli.rs:104-111 | every short name is mapped to a flag with that short name |
| Cli.ScanShort | migrate/src/cli.rs:130-142 | a short group of `n` letters consumes exactly `n` following arguments; it completes exactly when every letter names a known flag and enough arguments follow, and otherwise panics on the unknown key or the missing value |
| Cli.Scan | migrate/src/cli.rs:113-145 | the scan stops at the end or at the first argument not starting with `-`, and records only known flags; it panics on an unknown `--name` ("Should get key"), on a known `--name` with no value after it, on a short group with an unknown letter, and on a short group with fewer values than letters |
| Cli.ReadFlagsSpec | migrate/src/cli.rs:91-156 | a successful read has every required flag, only known flags, and stops before the first non-flag argument; a first `--name` no flag has panics with "Should get key", a lone `--name` panics for want of a value, and a short group with a letter no flag has panics |
| Cli.ReadFlags | migrate/src/cli.rs:91-156 | the method's flag map, consumed count and panic agree with `ReadFlagsSpec` |
| Cli.ReadShortGroup | migrate/src/cli.rs:131-141 | the letter loop gives the flags and position of `ScanShort` |
| Cli.CheckRequired | migrate/src/cli.rs:147-153 | the check passes exactly when every required flag is present |
| Cli.ScanLongFlag | migrate/src/cli.rs:119-129 | `--name value` records `value` under the flag whose long name is `name`, and scanning continues two arguments on |
| Cli.LastValueWins | migrate/src/cli.rs:123-128 | giving a long flag twice keeps the last value |
| Cli.ShortGroupTakesValuesInOrder | migrate/src/cli.rs:130-142 | the letters of `-abc` take the next arguments in order as their values, and other flags are unchanged |
| Cli.ReadFlagsRequiredOnly | migrate/src/cli.rs:147-153 | after a successful scan, reading panics exactly when a required flag is missing |
| Migrate.ParseDirection | migrate/src/main.rs:47-59 | `up` and `down` in any letter case give the direction; anything else is the `Invalid direction` panic |
| Migrate.ParseFileNameOfFileName | migrate/src/main.rs:44-59 | `<id>_<direction>.<ext>` parses back to its id and direction |
| Migrate.IdPiece | migrate/src/main.rs:45-46 | the digits of an id hold no `_`, so they are the first piece of the name |
| Migrate.DirectionPiece | migrate/src/main.rs:47-52 | the text between the first `_` and the next `.` is the direction, whatever the extension |
| Migrate.DirectionTextParses | migrate/src/main.rs:53-58 | the direction a file name spells parses back to itself |
| Migrate.CollectedIsFilter | migrate/src/main.rs:42-66 | the scan panics exactly when a name is malformed; otherwise it keeps exactly the files of the requested direction, in directory order |
| Migrate.OfDirectionSound | migrate/src/main.rs:61-65 | every kept migration comes from a name of the requested direction |
| Migrate.CollectedPanicPersists | migrate/src/main.rs:42-59 | a malformed name panics the scan whatever follows it |
| Migrate.CollectMigrations | migrate/src/main.rs:42-66 | the scan loop computes `Collected` |
| Migrate.Insert | migrate/src/main.rs:68-71 | insertion is a permutation: the input plus the new element |
| Migrate.InsertSorted | migrate/src/main.rs:68-71 | insertion keeps the run order |
| Migrate.SortById | migrate/src/main.rs:68-71 | the result is a permutation, ascending by id for Up and descending for Down |
| Migrate.DefaultTarget | migrate/src/main.rs:73-80 | panics when there is no migration file, and for Down when the last file's id is 0; otherwise it is the last file's id for Up and one less for Down |
| Migrate.DefaultTargetIsExtreme | migrate/src/main.rs:73-80 | on files sorted for the direction: no file panics; the default target is the largest id for Up and the smallest id minus one for Down, and Down panics when some file has id 0 |
| Migrate.Pending | migrate/src/main.rs:84-91 | a migration is pending exactly when it lies in the window between the stored version and the target |
| Migrate.PendingSorted | migrate/src/main.rs:84-91 | the pending scripts keep the run order |
| Migrate.NothingPendingAtTarget | migrate/src/main.rs:84-91 | with the stored version at the target, nothing is pending |
| Migrate.PlannedExecutesWindow | migrate/src/main.rs:68-107 | a successful run executes exactly the files of the direction in the window, in run order, and stores the target |
| Migrate.RerunExecutesNothing | migrate/src/main.rs:31-108 | a second run with the default target executes nothing and stores the same version |
| Migrate.Migrator.Run | migrate/src/main.rs:24-109 | on success the version is the target and the executed scripts are committed; on a panic only the 0 row written before the transaction remains |
| Migrate.RunTwice | migrate/src/main.rs:31-108 | after a successful run, a second run executes nothing and changes nothing |
| Migrate.RunScripts | migrate/src/main.rs:84-104 | the loop executes exactly the pending scripts, or panics when one of them fails |
| Migrate.PendingPrefixFails | migrate/src/main.rs:84-103 | a failing script inside the window fails the run |
| Migrate.PendingStep | migrate/src/main.rs:84-91 | each script extends the pending list exactly when it is in the window |
| LiberalArtsParser.Positions | app/src/liberal_arts.rs:32-46 | the result is `None` without an element or text; otherwise it is the trimmed parts of the trimmed text split on `" // "` |
| LiberalArtsParser.Email | app/src/liberal_arts.rs:48-50 | the e-mail is all text nodes concatenated, with no `@` check |
| LiberalArtsParser.MissingPositionInvalid | app/src/liberal_arts.rs:24-30 | a missing position cell, or one without text, is invalid |
| LiberalArtsParser.SinglePositionValid | app/src/liberal_arts.rs:24-30 | a position reading exactly `Graduate Student` is valid |
| Parser.LastNameFirstWords | app/src/parser.rs:197-206 | every name is a single word |
| Parser.FirstNameText | app/src/parser.rs:191-196 | there is a text exactly when the first element exists and has text |
| Parser.NamesOfElements | app/src/parser.rs:13-28 | the default names are single words |
| Parser.ElementNames | app/src/parser.rs:16-24 | one element's names are single words, none when it has no text |
| Parser.ParseNames | app/src/parser.rs:13-28 | every parser's names are single words |
| Parser.EmailOfHref | app/src/parser.rs:30-44 | the e-mail exists exactly when there is an `href` containing `@` or equal to `#`; it is that `href` with `mailto:` removed, trimmed and lower-cased |
| Parser.PhysicsId | app/src/parser.rs:288-290 | the physics id is the cell's first text, unchanged |
| Parser.ParseEmail | app/src/parser.rs:292-295 | physics builds `id@purdue.edu`; the liberal-arts parser joins the texts; every other parser uses the default |
| Parser.LocalPart | app/src/parser.rs:73-81 | the id holds no `@` and is lower-case |
| Parser.ParseId | app/src/parser.rs:73-81 | except for physics, the id exists exactly when the e-mail does, and is its lower-cased text before the first `@` |
| Parser.FirstTwoWords | app/src/parser.rs:54-59 | the first word of the trimmed text, and the second or empty |
| Parser.OfficeOfText | app/src/parser.rs:46-60 | an office exists exactly when the cell has text: building, then room |
| Parser.ParseOffice | app/src/parser.rs:46-431 | per parser: the default row gives its configured office without a location text and building-then-room otherwise; chemistry swaps building and room; physics always gives an office, `PHYS` without a location text; veterinary medicine gives an empty office; biology reads the second text with ` (lab)` and ` (Lab)` removed and gives nothing without one; statistics gives `MATH` without a cell, after an `Email: ` text or without a second text, and otherwise the second text with `Office:` removed from the building; the others read building then room from the first text |
| Parser.DepartmentOfText | app/src/parser.rs:62-71 | the department is the trimmed first text, when there is one |
| Parser.ParseDepartment | app/src/parser.rs:62-395 | the default-row parser gives its configured department without a cell, and the cell's text otherwise; last-name-first and liberal arts read the trimmed first text; pharmacy, chemistry, physics, veterinary medicine, biology and statistics give their fixed department names |
| Parser.ParsePositions | app/src/parser.rs:83-85 | only the liberal-arts parser lists positions |
| Parser.ParseRow | app/src/parser.rs:87-115 | no student exactly when the position is invalid or there is no id; otherwise names, id, e-mail, department and office are each the parsed value or the default |
| Parser.NamesOfElementsAppend | app/src/parser.rs:13-28 | the names of concatenated elements are concatenated, in element order |
| Parser.NamesOfTextless | app/src/parser.rs:16-24 | an element without text contributes no names |
| Parser.LastNameFirstPair | app/src/parser.rs:197-206 | `Last, First Middle` gives `[First, Middle, Last]` |
| Parser.LastNameFirstOrder | app/src/parser.rs:195-206 | the same, read from an element's trimmed text |
| Parser.LastNameFirstParsers | app/src/parser.rs:189-208 | the last-name-first and physics parsers give `[First, Middle, Last]` |
| Parser.LastNameFirstWithin | app/src/parser.rs:197-206 | every character of a name comes from the written name |
| Parser.StrippedNames | app/src/parser.rs:232-364 | chemistry and veterinary names hold no parentheses, and veterinary names hold no full stops |
| Parser.EmailNormalised | app/src/parser.rs:43 | the default e-mail is already trimmed and lower-cased |
| Parser.ChemicalOfficeSwapped | app/src/parser.rs:211-226 | the chemistry office is the default office with building and room swapped |
| Parser.OfficeOfBuildingRoom | app/src/parser.rs:54-59 | `Building Room` gives that building and room |
| Parser.OfficeOfBuildingOnly | app/src/parser.rs:54-59 | a building alone leaves the room empty |
| Parser.BiologicalLabDropped | app/src/parser.rs:372-389 | a biology location `Building Room (lab)` gives that building and room |
| Parser.BiologicalOfSecondCell | app/src/parser.rs:372-389 | the biology parser reads the office from the second text with the lab markers removed |
| Parser.WithoutLabMarker | app/src/parser.rs:381-383 | removing the lab markers from `x (lab)` leaves `x` when `x` has no parenthesis |
| Parser.LabMarkerOnlyAtEnd | app/src/parser.rs:381-383 | ` (lab)` cannot start inside a text without a parenthesis |
| Parser.DefaultRowParserDefaults | app/src/parser.rs:137-163 | the configured department is used without a department cell; the configured office is used without a location cell or text |
| Parser.IdIsLocalPartOfEmail | app/src/parser.rs:73-81 | except for physics, a student's id is the local part of its e-mail |
| Parser.PhysicsPositionValid | app/src/parser.rs:256-266 | physics accepts a row exactly when its position text, lower-cased, is `graduate students` |
| Parser.PhysicsEmailFromId | app/src/parser.rs:288-295 | the physics e-mail is the id at `purdue.edu` |
| LiberalArts.FirstDepartment | app/src/liberal_arts.rs:88-98 | the result is the first position that is not one of the six roles, or `None` when all are roles |
| LiberalArts.RowStudent | app/src/liberal_arts.rs:81-101 | a row gives a student exactly when `parse_row` accepts it; the department is then replaced by the first non-role position, or empty |
| LiberalArts.Kept | app/src/liberal_arts.rs:81-102 | `filter_map` keeps only present results, as `Ok` |
| LiberalArts.Scrape | app/src/liberal_arts.rs:69-102 | at most one `Ok` student per row |
| LiberalArts.RowResults | app/src/liberal_arts.rs:80-101 | one verdict per row, in row order |
| LiberalArts.ScrapeAppend | app/src/liberal_arts.rs:80-102 | rows are scraped independently and in order |
| LiberalArts.RowAccepted | app/src/liberal_arts.rs:24-30 | a row is accepted exactly when its positions include `Graduate Student` and it has an e-mail cell |
| LiberalArts.ScrapeOneRow | app/src/liberal_arts.rs:81-101 | one row gives one student or none, by the same condition |
| LiberalArts.DepartmentsAreNotRoles | app/src/liberal_arts.rs:88-98 | no scraped department is one of the roles |
| LiberalArts.GraduateStudentOfDepartment | app/src/liberal_arts.rs:88-100 | `Graduate Student // Sociology` gives the department `Sociology` |
| Agriculture.ListRequest.Default | app/src/agriculture.rs:66-75 | the default request is page 1 of 50, organisation `CoA`, classification 6 |
| Agriculture.ListRequest.CurrentPage | app/src/agriculture.rs:82-84 | the current page is one less than the page number, and page number 0 panics |
| Agriculture.ListRequest.SetPage | app/src/agriculture.rs:78-80 | only the page number changes |
| Agriculture.TotalPages | app/src/agriculture.rs:87-96 | present pages are `Ok`, and missing pages are the `NotFound` error |
| Agriculture.Deserialize | app/src/agriculture.rs:101-113 | a status other than 200 is `Internal` |
| Agriculture.NameWords | app/src/agriculture.rs:158-168 | a missing name part gives no words |
| Agriculture.DepartmentOf | app/src/agriculture.rs:170-174 | the department is the first list entry's, or empty without one; a first entry without a department panics |
| Agriculture.StudentOf | app/src/agriculture.rs:138-186 | an entry with neither id nor e-mail is `NotFound`; otherwise names are first, middle, last, with the department, e-mail and office as given or empty |
| Agriculture.StudentsOf | app/src/agriculture.rs:136-187 | one result per entry, in order, and a panic in any entry panics the page |
| Agriculture.Scrape | app/src/agriculture.rs:128-188 | missing `Data` is `NotFound`; otherwise the results of the entries |
| Agriculture.EmptyDataEmptyResults | app/src/agriculture.rs:136-187 | an empty `Data` list gives an empty `Ok` list |
| Agriculture.MissingIdErrsAlone | app/src/agriculture.rs:142-144 | an entry without id or e-mail is an error for that entry only |
| Agriculture.IdIsAlias | app/src/agriculture.rs:146-156 | with a `stralias`, the id is that alias |
| Agriculture.IdFromEmail | app/src/agriculture.rs:146-156 | without a `stralias`, the id is the lower-cased text before the `@` |
| Agriculture.IdFromWholeEmail | app/src/agriculture.rs:146-156 | without a `stralias`, an e-mail with no `@` is the id, lower-cased |
| Agriculture.NamesInOrder | app/src/agriculture.rs:158-168 | names are in the order first, middle, last |
| Directory.ToSql | app/src/directory.rs:106-113 | ascending is `ASC` and descending is `DESC` |
| Directory.SortClick | app/src/directory.rs:120-125 | a click sorts ascending unless the column is already ascending |
| Directory.ClickReverses | app/src/directory.rs:120-125 | a click reverses a sorted column and sorts an unsorted one ascending |
| Directory.Sorted | app/src/directory.rs:120-125 | the filters are kept and the clicked column is sorted in the new direction |
| Directory.WithFilter | app/src/directory.rs:216-222 | the filter is appended at the end, or starts a one-element list |
| Directory.Position | app/src/directory.rs:193-196 | the index is of the first equal filter, or `None` when there is none |
| Directory.WithoutFilter | app/src/directory.rs:192-199 | the first equal filter is removed; a missing list stays missing |
| Directory.DeleteRemovesOneCopy | app/src/directory.rs:192-199 | deleting removes exactly one copy of the filter |
| Directory.DeleteUndoesCreate | app/src/directory.rs:192-222 | deleting a filter just created restores the list |
| Directory.QueryState.constructor | app/src/directory.rs:68-73 | the state holds the given query |
| Directory.QueryState.SortBy | app/src/directory.rs:115-125 | the query becomes `Sorted` of the old query |
| Directory.QueryState.CreateFilter | app/src/directory.rs:212-222 | the filters become `WithFilter` of the old filters |
| Directory.QueryState.DeleteFilter | app/src/directory.rs:187-199 | the filters become `WithoutFilter` of the old filters |
| Directory.FetchColumns | app/src/directory.rs:140-175 | there are eight columns with distinct names; only `AmountUsd` is shown renamed |
| Directory.HeadingState | app/src/directory.rs:400-416 | a heading panics exactly when it is the sort column and no direction is given; only the sort column, or `Id` without one, shows a state |
| Directory.BuildHeadings | app/src/directory.rs:397-425 | one heading per column, in order |
| Directory.AtMostOneSortedHeading | app/src/directory.rs:397-425 | among distinct columns, at most one heading shows a sort state |
| Directory.ClickedHeading | app/src/directory.rs:120-125 | after a click, the clicked heading shows the new order and the others show none |
| Directory.DefaultHeadings | app/src/directory.rs:410-415 | without a sort column, only `Id` is ascending |
| Directory.ClickedHeadingOf | app/src/directory.rs:397-425 | for any columns with distinct names: the sorted heading shows the query's order and every other heading shows none |
| Directory.DefaultHeadingsOf | app/src/directory.rs:410-415 | for any columns with distinct names whose first is `Id`: without a sort column only the first heading is ascending |
| Directory.FilterCondition | app/src/directory.rs:273-279 | a filter without `=` panics; otherwise the condition is `column = 'value'` |
| Directory.FilterConditionOfText | app/src/directory.rs:273-279 | a filter written by `CreateFilter` gives back its column and value |
| Directory.Conditions | app/src/directory.rs:267-283 | it panics exactly when some filter has no `=`; otherwise it gives one condition per filter, in order |
| Directory.Condition | app/src/directory.rs:267-283 | no filter list gives the empty condition; otherwise the conditions joined by ` OR ` |
| Directory.JoinedConditionsNonEmpty | app/src/directory.rs:267-283 | conditions joined from at least one filter are not empty |
| Directory.ConditionEmpty | app/src/directory.rs:267-294 | the condition is empty exactly when there are no filters |
| Directory.SortClause | app/src/directory.rs:284-292 | the default ordering is `ORDER BY Id ASC` |
| Directory.DirectoryStatement | app/src/directory.rs:294-320 | `WHERE` appears exactly when the condition is not empty |
| Directory.DefaultStatement | app/src/directory.rs:294-307 | an empty query lists every student by ascending `Id` |
| Directory.OneFilterStatement | app/src/directory.rs:309-320 | one filter gives the condition `column = 'value'` under `WHERE` |
| Directory.DisplayName | app/src/directory.rs:341-345 | every `", "` in the name becomes `" "` |
| Directory.DisplayNameOfPair | app/src/directory.rs:341-345 | `Last, First` is shown as `Last First` |
| Directory.UnpaddedCompensation | app/src/directory.rs:330-350 | as written: `$`, the formatted dollars, `.` and the unpadded cents |
| Directory.UnpaddedCentsMisread | app/src/directory.rs:330-350 | as written, 1005 cents is shown `$10.5`, which reads as 50 cents |
| Directory.UnpaddedCentsMisreadAll | app/src/directory.rs:330-350 | as written, every amount whose cents are 1 to 9 is shown with a single cent digit, which reads as ten times the cents |
| Directory.UnpaddedAgreesFromTenCents | app/src/directory.rs:330-350 | from 10 cents on, the as-written text equals the two-digit `Compensation` |
| Directory.TwoDigitsValue | app/src/directory.rs:332 | two digits give back the cents |
| Directory.PaddedCents | app/src/directory.rs:332 | two digits that read as the cents |
| Directory.Compensation | app/src/directory.rs:330-350 | the dollars, a `.`, and two digits that read as `amount % 100` |
| Directory.CompensationInjective | app/src/directory.rs:330-350 | with a one-to-one dollars format, different amounts are shown differently |
| Directory.BuildRows | app/src/directory.rs:323-356 | one row per record, in order |
| College.UnescapeEscape | app/src/college.rs:113 | escaping loses nothing: unescaping gives the text back |
| College.Attempts | app/src/college.rs:138 | at most `max(1, n - 1)` lookups |
| College.Narrowed | app/src/college.rs:138-140 | attempt `k` keeps the first and last names and drops `k` names after the first |
| College.Patterns | app/src/college.rs:112-140 | one `LIKE` pattern per attempt; pattern `k` is the escaped `%`-join of the names with `k` dropped after the first |
| College.FirstMatchMisses | app/src/college.rs:138-164 | no student is found exactly when every remaining pattern misses |
| College.FirstMatchFirstHit | app/src/college.rs:138-164 | a found student is the one the first matching pattern returns, and every earlier pattern missed |
| College.GetStudentByName | app/src/college.rs:107-167 | the retry loop returns the student of the first matching attempt, or `None` when all miss |
| College.StudentRows | app/src/college.rs:174-192 | at most one row per entry (the exact count is `College.StudentRowsCount`) |
| College.StudentRowsCount | app/src/college.rs:174-192 | exactly one row per `Ok` entry and none per error |
| College.StudentRowsSnoc | app/src/college.rs:174-192 | an `Ok` entry appends its own row after the earlier ones; an error entry adds nothing |
| College.StudentRowsAppend | app/src/college.rs:174-192 | rows follow the entries in order |
| College.StudentStatementsAsWritten | app/src/college.rs:173-203 | as written: one statement per chunk, even with no rows |
| College.ErrorChunkEmptyInsert | app/src/college.rs:173-203 | as written, a chunk of errors gives an `INSERT` with no rows |
| College.StudentChunkRows | app/src/college.rs:173-193 | no chunk's rows are empty |
| College.Inserts | app/src/college.rs:194-203 | one statement per chunk of rows |
| College.StudentChunkRowsCover | app/src/college.rs:173-193 | the chunk rows are the rows of all `Ok` students, in order |
| College.StudentStatementsCover | app/src/college.rs:173-193 | every `Ok` student is written once, in order, at most fifty rows per statement |
| College.ChunkRowsBounded | app/src/college.rs:173 | a chunk of at most `n` entries gives at most `n` rows |
| College.OfficeRows | app/src/college.rs:229-251 | at most one office row per entry |
| College.OfficeRowsCount | app/src/college.rs:229-251 | one row per `Ok` student without an office, none for the others |
| College.OfficeStatementsAsWritten | app/src/college.rs:228-268 | as written: the store stops at the first chunk with no new office, so it issues at most one statement per chunk (the exact statements are `College.OfficeStatementsStopAt`) |
| College.Emitted | app/src/college.rs:193-268 | with the empty chunks skipped, a chunk gives one statement when it has rows and none otherwise |
| College.OfficeStatementsStopAt | app/src/college.rs:228-257 | for every input, with `k` the first chunk without a new office, the statements as written are the inserts of the office rows of the first `k` chunks, one per chunk |
| College.OfficeStatementsNoEarlyStop | app/src/college.rs:228-257 | when every chunk has a new office, the statements as written insert the office rows of every chunk |
| College.OfficeRowsWrittenAsWritten | app/src/college.rs:228-257 | as written, the rows inserted are exactly the office rows of the students of the first `k` chunks |
| College.OfficeRowsEmpty | app/src/college.rs:229-255 | a chunk has no office row exactly when it has no new office |
| College.LaterOfficesDropped | app/src/college.rs:253-255 | as written, a new student after fifty known ones gets no office |
| College.OfficeChunkRows | app/src/college.rs:228-257 | no chunk's office rows are empty |
| College.OfficeRowsAppend | app/src/college.rs:229-251 | office rows follow the entries in order |
| College.OfficeChunkRowsCover | app/src/college.rs:228-257 | every student without an office gets one row, whichever chunk it is in |
| College.OfficeStatementsCover | app/src/college.rs:228-257 | the office rows cover all new offices, one each |
| College.StoreStudents | app/src/college.rs:169-207 | the statements are the student statements, then the office statements |
| College.StoreOffices | app/src/college.rs:209-269 | one office statement per chunk with new offices |
| College.CollegeIdFromUrl | app/src/college.rs:48 | the id is the text after the first `/college/`; a URL without it panics |
| College.CollegeIdOfPath | app/src/college.rs:48 | `/college/<id>` gives `<id>` |
| College.CollegeIdMissing | app/src/college.rs:48 | a URL without `/college/` panics |
| Salary.Year | app/src/salary.rs:46 | the year is the number after byte 16; a shorter text or a non-number panics |
| Salary.YearAfterLabel | app/src/salary.rs:46 | a 16-character prefix followed by a year gives that year |
| Salary.AmountDigits | app/src/salary.rs:54-58 | no `$`, `,` or `.` is left |
| Salary.AmountUsd | app/src/salary.rs:54-60 | the amount is the remaining digits as a number, and anything else panics |
| Salary.AmountOfDollarsAndCents | app/src/salary.rs:54-60 | `$D.CC` is `D * 100 + CC` cents |
| Salary.AmountWithSeparator | app/src/salary.rs:54-60 | a thousands separator is dropped: `$1,234.56` is 123456 cents |
| Salary.AmountOfParts | app/src/salary.rs:54-60 | text whose kept characters are the dollars then two cent digits is `dollars * 100 + cents` cents |
| Salary.SalaryOf | app/src/salary.rs:42-71 | other job titles give nothing; the year and amount are read before the lookup; a found student gives a salary with its id |
| Salary.Salaries | app/src/salary.rs:39-74 | there are at most as many salaries as rows |
| Salary.OtherTitlesSkipped | app/src/salary.rs:42-44 | a row with another job title changes nothing |
| Salary.SalariesAppend | app/src/salary.rs:39-74 | rows are processed in order: two blocks give the salaries of each |
| Salary.SalaryOfNamedStudent | app/src/salary.rs:47-71 | `Last, First Middle` is looked up as `[First, Middle, Last]`, and a match gives a salary with that student's id |
| Salary.ProcessSalaries | app/src/salary.rs:31-75 | the loop computes `Salaries` |
| Salary.SalaryRows | app/src/salary.rs:81-86 | one `SELECT` per salary, in order |
| Salary.ChunkRows | app/src/salary.rs:78-87 | the rows of each chunk |
| Salary.SalaryStatements | app/src/salary.rs:77-100 | one statement per chunk |
| Salary.SalaryStatementsCover | app/src/salary.rs:77-100 | every salary is written once, in order, in statements of one to fifty rows |
| Salary.StoreSalaries | app/src/salary.rs:77-101 | the loop computes `SalaryStatements` |

## Left out

- SQLite execution, connection pools and transactions are not modelled. A lookup is a function, a statement is its text, and a migration transaction is all-or-nothing.
- HTTP requests, responses, headers written back, templates and async scraping are not modelled. URL-query serialisation (`serde_qs::to_string`) and form-body parsing are not modelled either: the handlers' edits to the query are modelled, not how the query is encoded.
- HTML selection is not modelled. An element is its text nodes and `href`, and selector errors in `scrape_html` are not modelled.
- JSON and CSV decoding are not modelled. `Agriculture.Deserialize` takes the decoder's result as input, and `Salary.ProcessSalaries` takes parsed rows, so CSV reader errors are not modelled.
- File and process I/O are not modelled. Migration file names and `.env` text are inputs, reading a script is folded into the `fails` predicate, and `set_var` updates a map.
- Random bytes in `generate_id` are a function `draw(round, index)`. In `store_offices` each office id is a function of the row's position.
- The `num_format` thousands grouping is the `formatDollars` parameter.
- Letter case: `ToLower` maps ASCII letters only; Unicode case mapping is not modelled.
- `Salary.Year`: `row.year[16..]` slices bytes; the model slices characters, which agree for ASCII text. Slicing inside a multi-byte character is not modelled.
- Database row `get(...).unwrap()` failures in `build_rows`, `get_student_by_name` and `display_college` are not modelled.
- The row loop of `display_college` (app/src/college.rs:75-101) is not modelled apart from its college id. It formats rows like `build_rows`, with the same unpadded cents.
- `Directory.BuildRows` formats compensation with the corrected `Directory.Compensation`, not the unpadded text (see Findings).
- `College.StoreStudents` and `College.StoreOffices` produce the corrected statements: chunks without rows produce no statement (see Findings).
- `Configuration.ApplyLine` treats an empty key or a key or value containing NUL as a panic, following `std::env::set_var`; other platform restrictions on variable names are not modelled.
- `Migrate.Migrator.Run`: the failure of a script is a predicate on its file name; the SQL it runs is not modelled.
- `read_configuration`'s file reading and JSON parsing are not modelled; only the environment choice is.
- `DefaultRowParser` uses its default department only when the department cell is missing (app/src/parser.rs:138-147). A cell without text gives no department, so the student keeps an empty one.
- The migration tool keeps a single `Version` integer and overwrites it with the target (migrate/src/main.rs:27, 107). It keeps no record of which scripts were applied.
- `usize` subtraction that would go below zero is modelled as a panic, which is what a debug build does. A release build wraps around instead, which the model does not capture. This affects `Migrate.DefaultTarget` for a `Down` file with id 0 (migrate/src/main.rs:78) and `Agriculture.ListRequest.CurrentPage` for page 0.

## Findings

| source | as written | input that shows it | evidently intended | confidence | as-written member | corrected member |
|---|---|---|---|---|---|---|
| app/src/directory.rs:330-350 | the cents are printed with `{}`, without zero padding | 1005 cents is shown as `$10.5`, which reads as 10 dollars 50 cents | cents printed as two digits, `$10.05` | high, not executed | Directory.UnpaddedCentsMisread | Directory.Compensation |
| app/src/college.rs:253-255 | `store_offices` returns at the first chunk with no new office | 50 students who already have offices, then one who has none: the new student gets no office | skip that chunk and continue with the next | high, not executed | College.LaterOfficesDropped | College.OfficeStatements |
| app/src/college.rs:173-203 | `store_students` executes an `INSERT` for every chunk, even one whose entries are all errors | a chunk of one `Err` gives `INSERT ... CollegeId) ` with no `SELECT`, which SQLite rejects, and the `unwrap` panics | skip chunks without rows and go on with the next chunk | medium, not executed | College.ErrorChunkEmptyInsert | College.StudentStatements |
