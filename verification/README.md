# TSD Comp Tabulator — a Dafny model of its scoring and awards core

The model covers the tabulator a dance-competition desk uses. Routines are imported from a program file, each judge's scores are typed into a score sheet, and award reports are produced from the stored scores. Every part is written as immutable datatypes and pure functions, with the database tables as sequences and maps that each operation transforms. The modules follow the program's own layers:

- **Class configuration** (`ClassConfig`): the master and event stores of class definitions and aliases. It covers seeding, upserts, deletes, class-text resolution (an alias wins over a key; only the trimmed text matters) and the list of unmapped classes.
- **Award reports**:
  - `ClassGrouping`, `Placement` and `AwardRanking` model the Solo, Duet and Trio services of the Core layer and the Solo and Duet services of the Application layer. Candidates are grouped by resolved class key and joined to their class definition ignoring case. Groups are ordered by bucket priority, sort order and name. Each group is placed with shared places for ties, and the cut at 12 keeps ties.
  - `Ensemble` and `EnsembleLabels` model the Bucket → Class → Type hierarchy, which sums scores, makes a hard cut at 12 and places by exact score equality.
  - `JudgeScores` computes the mean of the judge totals.
  - `PlaceNames` and `ClassOrder` hold the lookup helpers.
- **Score storage** (`EventDb`, `ScoreRepository`): the score-cell upserts, the deletes, the scored status, and the candidate queries. Those queries average per-judge sums, keep the best routine per participant string and order by class, then by score descending.
- **Score entry** (`ScoreCells`, `GroupHeaders`, `ScoreTab`, `ScoreSheets`): the cell validation and its invariant, the judge rows and their totals, and the column and group-header layout. Also the save and load of a routine, and the four built-in sheets.
- **Import** (`Fingerprint`, `RoutineImport`): name normalisation and the fingerprint key, plus the upsert-by-fingerprint import with participant relinking inside one transaction. It also covers the routine grid.
- **Report plumbing** (`Reports`, `SoloLoader`, `ReportTabs`):
  - the report lists per competition type and the report catalog;
  - the solo awards data loader;
  - the report tabs' refresh state, CSV escaping and export.
- **Library modules** (`Text`, `Seqs`, `Sorting`, `Grouping`, `Wrappers`): the .NET and SQLite string functions the code relies on, LINQ's `Where`, `OrderBy` (stable) and `GroupBy` (first-occurrence order), and `Option`/`Result`.

Several things are parameters of the model rather than part of it:
- Culture-dependent parsing (`decimal.TryParse`) and formatting (`F2`, a stored double's `ToString`) are function parameters `parse` and `fmt`.
- Fresh GUIDs come from an oracle `gen` and a draw counter.
- The SHA-1 digest of the fingerprint key is left abstract: the model works with the key text.

Query results keep SQL's NULL as `Option` inside the repository. When a row becomes one of the C# candidate records, a NULL text column leaves the record's default empty string, so the records hold plain strings (`Ensemble.CandidateOf`, `SoloLoader.FromRepository`).

Where the tests or the design notes disagree with the code, the model follows the code:
- The Spirit Rally sheet shows three group headers (`ScoreTab.SpiritRallyHeaders`).
- The repository deduplicates by participant string only.
- Without definitions every bucket is "".

## Model

| member | source | states |
|---|---|---|
| ClassConfig.Seed | Tsd.Tabulator.Data.Sqlite/ClassConfigService.cs:92-135 | a whitespace path throws and changes nothing; otherwise every master definition and alias is in the event store with master's values, event-only rows are untouched, master is never written, and valid stores stay valid |
| ClassConfig.SeedIdempotent | Tsd.Tabulator.Data.Sqlite/ClassConfigService.cs:104-135 | seeding twice leaves the same stores as seeding once |
| ClassConfig.PutDefinition | Tsd.Tabulator.Data.Sqlite/ClassConfigService.cs:148-158 | the insert-or-replace stores the row under its key and leaves every other key and all aliases unchanged |
| ClassConfig.UpsertDefinition | Tsd.Tabulator.Data.Sqlite/ClassConfigService.cs:138-173 | a null definition or whitespace path throws before any write; otherwise the event store always gets the row, master gets it exactly when saveGlobally is set, and validity is kept |
| ClassConfig.PutAlias | Tsd.Tabulator.Data.Sqlite/ClassConfigService.cs:189-195 | the alias row is stored exactly when its class key has a definition (the foreign key); only that alias changes |
| ClassConfig.UpsertAlias | Tsd.Tabulator.Data.Sqlite/ClassConfigService.cs:176-208 | whitespace alias, key or path is rejected in that order; the trimmed alias to trimmed key is written to the event store, and to master only when saveGlobally is set; master changes only on success |
| ClassConfig.UpsertAliasPartialWrite | Tsd.Tabulator.Data.Sqlite/ClassConfigService.cs:186-206 | with a key known to the event store but not to master, the event write stays in place while the master write fails on its foreign key |
| ClassConfig.UpsertAliasValid | Tsd.Tabulator.Data.Sqlite/ClassConfigService.cs:176-208 | an alias upsert keeps both stores valid: every alias targets a stored definition |
| ClassConfig.RemoveDefinition | Tsd.Tabulator.Data.Sqlite/ClassConfigService.cs:219-223 | afterwards the key and every alias targeting it are gone, all other definitions and aliases are kept with their values, and validity is kept |
| ClassConfig.DeleteDefinition | Tsd.Tabulator.Data.Sqlite/ClassConfigService.cs:211-235 | whitespace key or path throws and changes nothing; otherwise the event store loses the key with its aliases, master does too exactly when deleteGlobally is set |
| ClassConfig.RemoveMissingDefinition | Tsd.Tabulator.Data.Sqlite/ClassConfigService.cs:219-223 | deleting a key that has no definition changes nothing in a valid store |
| ClassConfig.DeleteAlias | Tsd.Tabulator.Data.Sqlite/ClassConfigService.cs:238-255 | whitespace alias or path throws; otherwise exactly the alias as given, untrimmed, is removed from the event store and, with deleteGlobally, from master |
| ClassConfig.ResolveAliasFirst | Tsd.Tabulator.Data.Sqlite/ClassConfigService.cs:309-319 | a text whose trimmed form is an alias resolves to that alias's target, even when it is also a class key |
| ClassConfig.ResolveWithoutAlias | Tsd.Tabulator.Data.Sqlite/ClassConfigService.cs:321-328 | without an alias the text resolves to its trimmed form exactly when that is a stored key (case-sensitive), and to nothing otherwise |
| ClassConfig.ResolveTrims | Tsd.Tabulator.Data.Sqlite/ClassConfigService.cs:307-309 | only the trimmed text matters to the lookup |
| ClassConfig.ResolveClassKey | Tsd.Tabulator.Data.Sqlite/ClassConfigService.cs:304-329 | a whitespace path is the only failure; null or whitespace text resolves to nothing; a resolved key is never blank |
| ClassConfig.UpsertAliasThenResolve | Tsd.Tabulator.Data.Sqlite/ClassConfigService.cs:176-195 | after a successful alias upsert, resolving the alias against the event store yields the trimmed key |
| ClassConfig.DistinctValues | Tsd.Tabulator.Data.Sqlite/ClassConfigService.cs:265 | SELECT DISTINCT keeps exactly the values of its input, each once |
| ClassConfig.UnmappedRowsAsWritten | Tsd.Tabulator.Data.Sqlite/ClassConfigService.cs:264-271 | the query as written yields, without repeats, exactly the space-trimmed class texts that are not blank and are neither an alias nor a key as stored |
| ClassConfig.GetUnmappedAsWritten | Tsd.Tabulator.Data.Sqlite/ClassConfigService.cs:257-272 | each result is the matching query row trimmed again by .NET's Trim, one per row and in row order, so all results are non-blank and trimmed but may repeat |
| ClassConfig.GetUnmapped | Tsd.Tabulator.Data.Sqlite/ClassConfigService.cs:257-272 | the corrected query returns each trimmed, non-empty routine class text that is neither an alias nor a key, once |
| ClassConfig.UnmappedDoNotResolve | Tsd.Tabulator.Data.Sqlite/ClassConfigService.cs:264-271 | no text the corrected query reports resolves to a class |
| ClassConfig.UnmappedAsWrittenReportsAlias | Tsd.Tabulator.Data.Sqlite/ClassConfigService.cs:265-271 | a routine class "Tn\t" with alias "Tn" is reported as unmapped by the query as written, although it resolves |
| ClassConfig.TabbedAliasTrims | Tsd.Tabulator.Data.Sqlite/ClassConfigService.cs:265-271 | SQLite's trim keeps the tab of "Tn\t", while string.Trim removes it |
| ClassGrouping.FindDefinition | Tsd.Tabulator.Core/Services/SoloAwardReportService.cs:54 | finds the first definition whose key equals the group key ignoring case, and none exactly when no definition's key does |
| ClassGrouping.ClassGroupOf | Tsd.Tabulator.Core/Services/SoloAwardReportService.cs:52-66 | a group keeps its key and members; with a matching definition it takes that definition's bucket, display name and sort order, otherwise the empty bucket, the key as name and sort order 1000 |
| ClassGrouping.GroupOrderTotal | Tsd.Tabulator.Core/Services/SoloAwardReportService.cs:68-70 | ordering by bucket priority, then sort order, then display name is a total preorder, so the stable sort is well defined |
| ClassGrouping.ClassGroups | Tsd.Tabulator.Core/Services/SoloAwardReportService.cs:48-71 | the groups are a permutation of the groups GroupBy formed, sorted by bucket priority, then sort order, then display name; groups that tie on all three keep their GroupBy order (first occurrence of their key), as the stable OrderBy/ThenBy does |
| ClassGrouping.ClassGroupOrigin | Tsd.Tabulator.Core/Services/SoloAwardReportService.cs:48-67 | each sorted group is the group formed from one of GroupBy's groups |
| ClassGrouping.ClassGroupKeysDistinct | Tsd.Tabulator.Core/Services/SoloAwardReportService.cs:49 | no two groups share a class key |
| ClassGrouping.ClassGroupMembers | Tsd.Tabulator.Core/Services/SoloAwardReportService.cs:49-58 | no group is empty, and an item is a member of a group exactly when its key is the group's key |
| ClassGrouping.ClassGroupsCover | Tsd.Tabulator.Core/Services/SoloAwardReportService.cs:49-58 | every item lands in some group |
| ClassGrouping.GroupMemberIsItem | Tsd.Tabulator.Core/Services/SoloAwardReportService.cs:58 | a member of a group is one of the items and has the group's key |
| ClassGrouping.ClassGroupsByPriority | Tsd.Tabulator.Core/Services/SoloAwardReportService.cs:68 | groups come out in non-decreasing bucket priority |
| AwardRanking.GroupKeyIgnoresPadding | Tsd.Tabulator.Core/Services/SoloAwardReportService.cs:33-49 | two candidates whose class texts differ only by surrounding white space fall into the same group |
| AwardRanking.AliasSharesGroup | Tsd.Tabulator.Core/Services/SoloAwardReportService.cs:33-49 | a candidate written with an alias is grouped with the candidates written with the class key the alias names |
| AwardRanking.BucketPriority | Tsd.Tabulator.Core/Services/SoloAwardReportService.cs:43-45 | priority 1 exactly for "studio" and 2 exactly for "school", both ignoring case; 99 for every other bucket |
| AwardRanking.ClassGroupsPartition | Tsd.Tabulator.Core/Services/SoloAwardReportService.cs:48-71 | each candidate sits in exactly one group, the one keyed by its resolved key or trimmed class text; group keys are distinct and the groups run in bucket-priority order |
| AwardRanking.ByScore | Tsd.Tabulator.Core/Services/SoloAwardReportService.cs:92 | the sorted candidates are a permutation of the group, in non-increasing score order, with candidates of equal score kept in their input order |
| AwardRanking.CreateGroup | Tsd.Tabulator.Core/Services/SoloAwardReportService.cs:86-132 | the group keeps its bucket and heading; its entries show a prefix of the score-sorted candidates, each carrying the class key |
| AwardRanking.CreateGroupPlaces | Tsd.Tabulator.Core/Services/SoloAwardReportService.cs:99-116 | a non-empty group starts at place 1; entry k has a place between 1 and k+1; scores never rise and places never fall down the list |
| AwardRanking.CreateGroupTies | Tsd.Tabulator.Core/Services/SoloAwardReportService.cs:105-116 | an entry shares the previous place exactly when it is within 0.0001 of the score of the first entry at that place; otherwise its place is its position |
| AwardRanking.CreateGroupCut | Tsd.Tabulator.Core/Services/SoloAwardReportService.cs:101-103 | a group shows every candidate up to 12, and entries past the 12th all share the 12th entry's place |
| AwardRanking.CreateGroupStops | Tsd.Tabulator.Core/Services/SoloAwardReportService.cs:101-103 | when candidates are dropped the group has at least 12 entries and the first dropped candidate does not tie the first entry of the last place |
| AwardRanking.CreateGroupKeepsTop | Tsd.Tabulator.Core/Services/SoloAwardReportService.cs:92-103 | no candidate that outscores the last entry is left out of the group |
| AwardRanking.CreateGroupDistinctScores | Tsd.Tabulator.Core/Services/SoloAwardReportService.cs:99-128 | with pairwise non-tying scores the places are 1, 2, 3, … and the group stops at 12 entries |
| AwardRanking.CoreReportEntries | Tsd.Tabulator.Core/Services/SoloAwardReportService.cs:73-83 | in the Core reports every entry carries its group's class key and shows a candidate whose group key is that key |
| AwardRanking.ApplicationReportLabels | Tsd.Tabulator.Application/Services/SoloAwardReportService.cs:73-131 | in the Application reports a group is headed by the matching definition's display name, or by its key when none matches, and its entries' class key is empty (see the admission under Left out) |
| AwardRanking.LoadCandidatesFails | Tsd.Tabulator.Core/Services/DuetAwardReportService.cs:88-97 | loading the duet candidates fails exactly when some scored routine has no cells on its last sheet, because averaging no judge totals throws |
| AwardRanking.LoadCandidatesScores | Tsd.Tabulator.Core/Services/DuetAwardReportService.cs:88-107 | a successful load gives one candidate per routine, in order, scored by the mean over distinct judges of each judge's summed cells |
| AwardRanking.LoadCandidatesMatchesQuery | Tsd.Tabulator.Core/Services/DuetAwardReportService.cs:92-97 | when every routine has cells, the service's own scoring agrees with the repository's judge-average scoring |
| AwardRanking.CoreScoredReportFails | Tsd.Tabulator.Core/Services/TrioAwardReportService.cs:83-98 | the Trio (and Duet) report fails exactly when some routine matching the entry-type word has no cells on its sheet |
| Placement.PlacesMeetRule | Tsd.Tabulator.Core/Services/SoloAwardReportService.cs:94-129 | the placing loop gives each kept entry one more than the index of the first entry of its tie run, and keeps exactly the entries before the first run that starts at or after the 12th position |
| Placement.PlacesShape | Tsd.Tabulator.Core/Services/SoloAwardReportService.cs:99-116 | at least min(n, 12) and at most n entries are kept; the first is placed 1; places never decrease and never exceed position + 1 |
| Placement.PlacesTieRule | Tsd.Tabulator.Core/Services/SoloAwardReportService.cs:105-116 | an entry tying the score of its run's first entry repeats the previous place; any other entry is placed at its position + 1, skipping by the size of the run before it |
| Placement.PlacesCap | Tsd.Tabulator.Core/Services/SoloAwardReportService.cs:101-103 | entries after the 12th all share the 12th's place; when entries are dropped, at least 12 were kept and the first dropped one does not tie the last run |
| Placement.DistinctScoresPlaces | Tsd.Tabulator.Tests/Reports/SoloAwardReportServiceTests.cs:68-96 | scores that pairwise do not tie are placed 1, 2, 3, … and the list stops after 12 |
| Placement.SharedFirstPlace | Tsd.Tabulator.Tests/Reports/SoloAwardReportServiceTests.cs:13-40 | scores 95.5, 95.5, 92.0 are placed 1, 1, 3 |
| Placement.TieAtTheCut | Tsd.Tabulator.Core/Services/DuetAwardReportService.cs:128-130 | with 14 scores whose 12th and 13th tie, 13 entries are kept, the last two share 12th place, and the 14th is dropped |
| PlaceNames.ToPlaceName | Tsd.Tabulator.Core/Reporting/AwardPlaceNames.cs:3-14 | total on every 32-bit integer, with `place - 1` wrapping as C#'s unchecked int does; the name is "Winner" exactly for place 1 and ends in " Runner Up" for every other place |
| PlaceNames.ToPlaceNameInjective | Tsd.Tabulator.Core/Reporting/AwardPlaceNames.cs:5-13 | two 32-bit places with the same name are the same place |
| PlaceNames.LeastPlaceWraps | Tsd.Tabulator.Core/Reporting/AwardPlaceNames.cs:12 | the least int, whose predecessor wraps around, is named "2147483647th Runner Up" |
| PlaceNames.FirstPlaces | Tsd.Tabulator.Core/Reporting/AwardPlaceNames.cs:7-11 | places 1 to 5 are "Winner" and "1st" to "4th Runner Up" |
| PlaceNames.LaterPlaces | Tsd.Tabulator.Core/Reporting/AwardPlaceNames.cs:12 | place 22 is "21th Runner Up" and place 0 is "-1th Runner Up" |
| PlaceNames.LongOrdinal | Tsd.Tabulator.Core/Reporting/AwardPlaceNames.cs:12 | the generic "{n-1}th" ordinal never spells one of the four fixed ordinals |
| ClassOrder.GetOrder | Tsd.Tabulator.Core/Models/ClassOrder.cs:17-43 | a null or whitespace name, and only such a name, orders at int.MaxValue; other names are ordered by their trimmed, lower-cased text |
| ClassOrder.GetOrderIsTableLookup | Tsd.Tabulator.Core/Models/ClassOrder.cs:26-42 | the keyword tests are a first-match lookup in the table of twelve keywords, with 1000 when none matches |
| ClassOrder.FirstKeywordHit | Tsd.Tabulator.Core/Models/ClassOrder.cs:26-39 | the first listed keyword that the name contains decides the order |
| ClassOrder.AgeBeforeLevel | Tsd.Tabulator.Core/Models/ClassOrder.cs:23-39 | a name with an age keyword orders at most 60 and a name without one at least 100, so ages precede levels |
| ClassOrder.JuniorName | Tsd.Tabulator.Core/Models/ClassOrder.cs:26-28 | a name containing "junior" but neither "petite" nor "mini" orders 30, whatever level it also names |
| ClassOrder.GetBucketOrder | Tsd.Tabulator.Core/Models/ClassOrder.cs:48-56 | the order is 1, 2 or 999, and 999 for a null bucket |
| ClassOrder.BucketOrderAgrees | Tsd.Tabulator.Core/Models/ClassOrder.cs:50-55 | "studio" (any case) is 1, "school" is 2 and everything else 999, in step with the award reports' bucket priority |
| ClassOrder.PaddedBucketIsLast | Tsd.Tabulator.Core/Models/ClassOrder.cs:50 | the bucket name is not trimmed: " studio" orders 999 |
| Grouping.GroupKeys | Tsd.Tabulator.Core/Services/SoloAwardReportService.cs:49 | the group keys are distinct, cover every element's key, and each comes from some element |
| Grouping.GroupByPartition | Tsd.Tabulator.Core/Services/SoloAwardReportService.cs:48-58 | group keys are distinct, no group is empty, and an element is in a group exactly when it has that group's key, so every element lands in exactly one group |
| Grouping.GroupItemsInOrder | Tsd.Tabulator.Core/Services/SoloAwardReportService.cs:58 | a group is the input restricted to the positions holding its key: its t-th member is the element at the t-th such position, and the positions increase, so members keep input order even when elements repeat |
| Grouping.GroupHolds | Tsd.Tabulator.Core/Services/SoloAwardReportService.cs:58 | a group holds only input elements with the group's key |
| JudgeScores.Judges | Tsd.Tabulator.Core/Services/DuetAwardReportService.cs:92-93 | the judges are distinct, include every cell's judge index, and each entered some cell |
| JudgeScores.JudgeTotals | Tsd.Tabulator.Core/Services/DuetAwardReportService.cs:92-95 | one total per distinct judge, in order of first cell, each the sum of that judge's cells |
| JudgeScores.Average | Tsd.Tabulator.Core/Services/DuetAwardReportService.cs:97 | averaging fails exactly on an empty list; otherwise the mean times the count is the sum |
| JudgeScores.AveragedScore | Tsd.Tabulator.Core/Services/DuetAwardReportService.cs:92-97 | the judge-average score fails exactly when the routine has no cells |
| JudgeScores.JudgeTotalsPartitionCells | Tsd.Tabulator.Core/Services/DuetAwardReportService.cs:92-95 | the judge totals add up to the sum of all cells: each cell counts once |
| JudgeScores.SummedIsJudgesTimesAveraged | Tsd.Tabulator.Core/Services/EnsembleAwardReportService.cs:165-166 | for a routine with cells, the Ensemble plain sum is the judge count times the Solo/Duet/Trio judge average |
| Ensemble.LoadCandidatesMembers | Tsd.Tabulator.Core/Services/EnsembleAwardReportService.cs:155-181 | the candidates are exactly the scored ensemble rows whose last sheet key is not blank, each scored by the plain sum of all its cells on that sheet, not a judge average |
| Ensemble.BucketPriority | Tsd.Tabulator.Core/Services/EnsembleAwardReportService.cs:240-245 | studio 1, school 2, select school 3, elite school 4 (each ignoring case, first match wins), anything else 99 |
| Ensemble.TypePriority | Tsd.Tabulator.Core/Services/EnsembleAwardReportService.cs:262-269 | 1 exactly when the type contains "Small" ignoring case; 99 exactly when it contains none of Small, Medium, Large, XL |
| Ensemble.ClassKeyTrimmed | Tsd.Tabulator.Core/Services/EnsembleAwardReportService.cs:68-69 | a class text that does not resolve is grouped under its trimmed form, which has no padding |
| Ensemble.AssignPlacesRule | Tsd.Tabulator.Core/Services/EnsembleAwardReportService.cs:191-208 | each entry's place is one more than the index of the first entry of its run of exactly equal scores |
| Ensemble.CompetitionRanking | Tsd.Tabulator.Core/Services/EnsembleAwardReportService.cs:188-212 | on non-increasing scores, an entry's place is one more than the number of strictly higher scores (standard competition ranking) |
| Ensemble.Ranked | Tsd.Tabulator.Core/Services/EnsembleAwardReportService.cs:110-112 | the members are permuted into score-descending, then routine-id-ascending order |
| Ensemble.Winners | Tsd.Tabulator.Core/Services/EnsembleAwardReportService.cs:110-114 | the winners are the first min(12, n) ranked members: a hard cut that may split a tie |
| Ensemble.TypeGroupOf | Tsd.Tabulator.Core/Services/EnsembleAwardReportService.cs:107-132 | a type group is labelled with its raw type and holds min(12, n) entries |
| Ensemble.TypeGroupEntries | Tsd.Tabulator.Core/Services/EnsembleAwardReportService.cs:117-130 | entry k shows winner k with the class's canonical key, the candidate's type and raw division, placed one past the number of better winner scores |
| Ensemble.TypeGroupKeepsTop | Tsd.Tabulator.Core/Services/EnsembleAwardReportService.cs:110-114 | every member left out ranks at or below every winner |
| Ensemble.WinnersAreMembers | Tsd.Tabulator.Core/Services/EnsembleAwardReportService.cs:110-114 | every winner is a member of its type group |
| Ensemble.OrderGroups | Tsd.Tabulator.Core/Services/EnsembleAwardReportService.cs:97 | OrderBy on key priority is a sorted permutation of the groups that keeps groups of equal priority in their GroupBy order |
| Ensemble.OrderGroupsKeysDistinct | Tsd.Tabulator.Core/Services/EnsembleAwardReportService.cs:95-97 | ordering the GroupBy groups by key priority keeps keys distinct and puts them in non-decreasing priority |
| Ensemble.OrderGroupsMembers | Tsd.Tabulator.Core/Services/EnsembleAwardReportService.cs:104-106 | an ordered group holds exactly the items with its key |
| Ensemble.NullClassGroupedUnderEmpty | Tsd.Tabulator.Core/Services/EnsembleAwardReportService.cs:60-69 | a scored routine with a NULL class loads with the record's empty class text, which no alias or key resolves, so it is grouped under the class key "" instead of failing the report |
| Ensemble.ClassGroupsPartition | Tsd.Tabulator.Core/Services/EnsembleAwardReportService.cs:68-92 | each candidate sits in exactly one class group, the one of its canonical key; class keys are distinct |
| Ensemble.BucketsOrdered | Tsd.Tabulator.Core/Services/EnsembleAwardReportService.cs:95-97 | buckets in the report are distinct and run in bucket-priority order |
| Ensemble.BucketHoldsItsClasses | Tsd.Tabulator.Core/Services/EnsembleAwardReportService.cs:95-101 | a bucket holds exactly the class groups whose bucket is its name |
| Ensemble.TypeGroupsOrdered | Tsd.Tabulator.Core/Services/EnsembleAwardReportService.cs:104-106 | the type groups of a class have distinct types in non-decreasing size priority |
| Ensemble.TypeGroupMembers | Tsd.Tabulator.Core/Services/EnsembleAwardReportService.cs:104-130 | a type group's entries show members of the class that have that type, with the class key |
| Ensemble.DistinctTypesSeparate | Tsd.Tabulator.Core/Services/EnsembleAwardReportService.cs:104-105 | two candidates of different types never share a type group |
| Ensemble.ReportClassOrigin | Tsd.Tabulator.Core/Services/EnsembleAwardReportService.cs:95-141 | every class in the report comes from one of the class groups, whose members are all candidates |
| Ensemble.LoadedTypesEmpty | Tsd.Tabulator.Core/Services/EnsembleAwardReportService.cs:172 | every candidate the service loads has the empty type, because the scored-routine query never selects it |
| Ensemble.OneTypeGroup | Tsd.Tabulator.Core/Services/EnsembleAwardReportService.cs:104-106 | members that all share one type form at most one type group |
| Ensemble.TypesCollapse | Tsd.Tabulator.Core/Services/EnsembleAwardReportService.cs:104-106 | as written, every class of the report has at most one type group, of the empty type, whatever sizes its ensembles are |
| Ensemble.UniformTypeGroups | Tsd.Tabulator.Core/Services/EnsembleAwardReportService.cs:104-106 | when every member has one type, every type group has that type |
| Ensemble.RoutineEntryType | Tsd.Tabulator.Core/Services/EnsembleAwardReportService.cs:172 | the type a routine id maps to is the entry type of the first routine with that id |
| Ensemble.TypedCandidateOfRoutine | Tsd.Tabulator.Core/Services/EnsembleAwardReportService.cs:157-177 | with the entry type selected, each scored ensemble routine with a sheet becomes a candidate carrying its own entry type |
| Ensemble.TypedReportSeparatesTypes | Tsd.Tabulator.Core/Services/EnsembleAwardReportService.cs:104-106 | with the entry type selected, two candidates of different types never share a type group |
| EnsembleLabels.ExtractEnsembleType | Tsd.Tabulator.Core/Services/EnsembleAwardReportService.cs:228-235 | one of Small, Medium, Large, XL, Other; "Small" exactly when the type contains it ignoring case; "Other" exactly when no size word matches |
| EnsembleLabels.ExtractedTypeKeepsPriority | Tsd.Tabulator.Core/Services/EnsembleAwardReportService.cs:228-269 | the extracted size word has the same priority as the entry type it came from |
| EnsembleLabels.ExtractLevel | Tsd.Tabulator.Core/Services/EnsembleAwardReportService.cs:274-288 | the level of the first rule whose prefix starts the name ignoring case; with no rule, the first two words joined by a space, or the name itself |
| EnsembleLabels.RuleLevels | Tsd.Tabulator.Core/Services/EnsembleAwardReportService.cs:247-260 | every rule names one of six levels |
| EnsembleLabels.TwoWordFallback | Tsd.Tabulator.Core/Services/EnsembleAwardReportService.cs:283-285 | a two-word name that no rule matches is its own level |
| EnsembleLabels.ParseProgramNumber | Tsd.Tabulator.Core/Services/EnsembleAwardReportService.cs:217-223 | the result fits in a long; null or non-numeric text gives 0 |
| EnsembleLabels.ParseFormatted | Tsd.Tabulator.Core/Services/EnsembleAwardReportService.cs:217-223 | the decimal text of any 64-bit integer parses back to it |
| EnsembleLabels.ParseOverflow | Tsd.Tabulator.Core/Services/EnsembleAwardReportService.cs:219-222 | the text of a number outside the 64-bit range reads as 0 |
| ScoreRepository.GetCellsMembers | Tsd.Tabulator.Data.Sqlite/Scoring/ScoreRepository.cs:21-30 | a stored cell is read back exactly when it belongs to the requested routine and sheet |
| ScoreRepository.UpsertCell | Tsd.Tabulator.Data.Sqlite/Scoring/ScoreRepository.cs:37-44 | one upsert adds the cell's key to the stored keys and makes the cell's value the value under that key, every other key keeping its value |
| ScoreRepository.UpsertCellUnique | Tsd.Tabulator.Data.Sqlite/Scoring/ScoreRepository.cs:40-43 | the conflict clause keeps the stored keys unique |
| ScoreRepository.SaveCells | Tsd.Tabulator.Data.Sqlite/Scoring/ScoreRepository.cs:32-59 | the transaction fails as a whole exactly when some cell names a routine that does not exist, and otherwise changes only the score cells |
| ScoreRepository.SaveCellsValues | Tsd.Tabulator.Data.Sqlite/Scoring/ScoreRepository.cs:46-58 | after a successful save each key holds the value of the last saved cell with that key, unsaved keys keep their values, and no key is stored twice |
| ScoreRepository.DeleteScoresExceptSheet | Tsd.Tabulator.Data.Sqlite/Scoring/ScoreRepository.cs:100-107 | exactly the routine's cells on other sheets are removed, everything else stays, and unique keys stay unique |
| ScoreRepository.SetLastSheetKey | Tsd.Tabulator.Data.Sqlite/Scoring/ScoreRepository.cs:88-98 | fails exactly when the routine does not exist; otherwise the routine is marked scored with the sheet as its last, and every other routine's status is unchanged |
| ScoreRepository.ClearAllScores | Tsd.Tabulator.Data.Sqlite/Scoring/ScoreRepository.cs:109-118 | every score cell and status row is gone while routines, participants and links stay |
| ScoreRepository.ScoredRoutinesSelect | Tsd.Tabulator.Data.Sqlite/Scoring/ScoreRepository.cs:124-138 | every scored routine with a last sheet whose entry type contains the word (ignoring case) is returned |
| ScoreRepository.ScoredRowsSelected | Tsd.Tabulator.Data.Sqlite/Scoring/ScoreRepository.cs:124-138 | every returned row comes from a routine whose entry type contains the word and whose status is scored with a last sheet, and carries that routine's fields and last sheet |
| ScoreRepository.GetScoredRoutines | Tsd.Tabulator.Data.Sqlite/Scoring/ScoreRepository.cs:124-138 | the query does not select the entry type, so every returned row carries an empty type |
| ScoreRepository.ClearedHasNoScoredRoutines | Tsd.Tabulator.Data.Sqlite/Scoring/ScoreRepository.cs:109-138 | after all scores are cleared no routine is reported as scored |
| ScoreRepository.ToScoreCells | Tsd.Tabulator.Data.Sqlite/Scoring/ScoreRepository.cs:144-157 | each stored cell becomes its judge index and value, a NULL value counting as 0 |
| ScoreRepository.RoutineScoresSound | Tsd.Tabulator.Data.Sqlite/Scoring/ScoreRepository.cs:185-213 | every scored candidate comes from a scored routine with cells on its last sheet, with the mean of its judge totals as its score |
| ScoreRepository.RoutineScoresComplete | Tsd.Tabulator.Data.Sqlite/Scoring/ScoreRepository.cs:185-213 | every scored routine with cells on its last sheet yields its candidate |
| ScoreRepository.BestPerParticipants | Tsd.Tabulator.Data.Sqlite/Scoring/ScoreRepository.cs:214-231 | exactly the candidates that rank first among those sharing their participant string are kept |
| ScoreRepository.BestIsUnique | Tsd.Tabulator.Data.Sqlite/Scoring/ScoreRepository.cs:217-231 | no two kept candidates share a participant string |
| ScoreRepository.BestKept | Tsd.Tabulator.Data.Sqlite/Scoring/ScoreRepository.cs:217-231 | every participant string keeps a candidate scoring at least as much as each of its routines |
| ScoreRepository.CandidateOrderTotal | Tsd.Tabulator.Data.Sqlite/Scoring/ScoreRepository.cs:232 | ordering by class (NULL first) then by score descending is a total preorder |
| ScoreRepository.AwardCandidates | Tsd.Tabulator.Data.Sqlite/Scoring/ScoreRepository.cs:168-233 | the result is sorted by class, then score descending, and is a permutation of the best candidate per participant string |
| ScoreRepository.CandidatesOrderedAndDeduplicated | Tsd.Tabulator.Data.Sqlite/Scoring/ScoreRepository.cs:247-312 | the candidates come out ordered by class and, within a class, by score descending, and no two share a participant string |
| ScoreRepository.CandidatesKeepBest | Tsd.Tabulator.Data.Sqlite/Scoring/ScoreRepository.cs:168-233 | for every scored routine a candidate with its participant string and at least its score is returned |
| ScoreRepository.GetCellsFindsStored | Tsd.Tabulator.Data.Sqlite/Scoring/ScoreRepository.cs:21-30 | reading a routine's cells for a sheet finds, under each stored key, the stored value |
| ScoreCells.Validate | Tsd.Tabulator.Wpf/ViewModels/Scoring/ScoreCellVM.cs:76-111 | a blank (after trimming) text gives neither value nor error; otherwise a value is produced exactly when the trimmed text parses to a number in [0, Max], that value being the parsed one, and every other text gives an error and no value |
| ScoreCells.SetText | Tsd.Tabulator.Wpf/ViewModels/Scoring/ScoreCellVM.cs:36-46 | setting the text a cell already has leaves it unchanged; any other text (null read as "") is stored and the cell's value and error become the ones its text validates to, so a consistent cell stays consistent; key and maximum never change |
| ScoreCells.ConsistentInRange | Tsd.Tabulator.Wpf/ViewModels/Scoring/ScoreCellVM.cs:95-110 | a cell whose value came from its text holds a value only between 0 and its maximum, and never a value together with an error |
| ScoreCells.NewCellConsistent | Tsd.Tabulator.Wpf/ViewModels/Scoring/ScoreCellVM.cs:10-35 | a new cell (empty text, no value, no error) is already in the state its empty text validates to |
| ScoreCells.PaddingIgnored | Tsd.Tabulator.Wpf/ViewModels/Scoring/ScoreCellVM.cs:78 | a number typed with surrounding spaces validates exactly as the same number typed without them |
| ScoreCells.CellsForColumns | Tsd.Tabulator.Wpf/ViewModels/Scoring/JudgeRowVM.cs:21-24 | the row gets one empty cell per non-total column, in column order, each with that column's key and its maximum (0 when the column has none) |
| ScoreCells.NewJudgeRow | Tsd.Tabulator.Wpf/ViewModels/Scoring/JudgeRowVM.cs:11-33 | building a row fails exactly when two score columns share a key; otherwise the row keeps the judge index and title, holds the cells of the score columns and shows one row cell per column mirroring them |
| ScoreCells.RowCellsMirror | Tsd.Tabulator.Wpf/ViewModels/Scoring/JudgeRowVM.cs:65-84 | when every score column has a cell, the displayed row has one entry per column: a total placeholder for the total column and, for a score column, the first cell carrying its key |
| ScoreCells.ScoreColumnsHaveCells | Tsd.Tabulator.Wpf/ViewModels/Scoring/JudgeRowVM.cs:77 | the lookup of a score column's key among the cells made for the columns always finds a cell, so `First` cannot throw |
| ScoreCells.CellsByKey | Tsd.Tabulator.Wpf/ViewModels/Scoring/JudgeRowVM.cs:26 | with distinct keys, looking up a cell's own key finds that very cell |
| ScoreCells.TotalBounds | Tsd.Tabulator.Wpf/ViewModels/Scoring/JudgeRowVM.cs:86-91 | the total of a row whose cells follow their texts lies between 0 and the sum of the cells' maxima |
| ScoreCells.Clear | Tsd.Tabulator.Wpf/ViewModels/Scoring/JudgeRowVM.cs:93-97 | clearing keeps the row's judge, displayed cells, and every cell's key and maximum |
| ScoreCells.ClearEmpties | Tsd.Tabulator.Wpf/ViewModels/Scoring/JudgeRowVM.cs:93-97 | clearing a consistent row leaves every cell with empty text, no value and no error, the row consistent and its total 0 |
| ScoreCells.ClearKeepsEmptyText | Tsd.Tabulator.Wpf/ViewModels/Scoring/ScoreCellVM.cs:41 | a cell already showing "" is left exactly as it was by clearing, whatever value or error it holds |
| ScoreCells.Edit | Tsd.Tabulator.Wpf/ViewModels/Scoring/ScoreCellVM.cs:36-46 | typing into one cell changes only that cell, as setting its text does, and keeps a consistent row consistent |
| GroupHeaders.RunEnd | Tsd.Tabulator.Wpf/ViewModels/Scoring/ScoreSheetTabVM.cs:101-105 | the inner loop stops at the first column from the run's start whose group differs, every column before it having the run's group |
| GroupHeaders.ComputeGroupHeaders | Tsd.Tabulator.Wpf/ViewModels/Scoring/ScoreSheetTabVM.cs:75-112 | the two nested loops, with the column counter kept apart from the index, produce exactly the header list whose shape and coverage the lemmas below describe |
| GroupHeaders.HeadersEmptyIff | Tsd.Tabulator.Wpf/ViewModels/Scoring/ScoreSheetTabVM.cs:63 | there are no headers exactly when no criterion has a group |
| GroupHeaders.GuardIsRedundant | Tsd.Tabulator.Wpf/ViewModels/Scoring/ScoreSheetTabVM.cs:78-79 | the early return when no group is shown gives the same result as running the loops, which find no runs anyway |
| GroupHeaders.HeadersShape | Tsd.Tabulator.Wpf/ViewModels/Scoring/ScoreSheetTabVM.cs:84-109 | each header spans a maximal run of consecutive columns of its group (the columns just before and after belong elsewhere), headers never overlap and start at strictly increasing columns |
| GroupHeaders.HeadersCover | Tsd.Tabulator.Wpf/ViewModels/Scoring/ScoreSheetTabVM.cs:84-109 | every grouped column lies under some header, no column lies under two, and an ungrouped column lies under none |
| GroupHeaders.HeadersSpans | Tsd.Tabulator.Wpf/ViewModels/Scoring/ScoreSheetTabVM.cs:103-108 | the spans add up to at most the number of criteria, and to exactly that number when every criterion is grouped |
| ScoreTab.OrderedCriteria | Tsd.Tabulator.Wpf/ViewModels/Scoring/ScoreSheetTabVM.cs:52 | the criteria are a permutation of the sheet's, in non-decreasing order, and criteria with equal order keep their declaration order (a stable sort) |
| ScoreTab.DeclarationOrderKept | Tsd.Tabulator.Wpf/ViewModels/Scoring/ScoreSheetTabVM.cs:52 | criteria already in non-decreasing order come out of the sort exactly as declared |
| ScoreTab.PositionsAreDeclarationOrder | Tsd.Tabulator.Core/Scoring/ScoreSheetDefinitions.cs:17-34 | a sheet whose criteria are numbered by position is displayed in declaration order |
| ScoreTab.ColumnsShape | Tsd.Tabulator.Wpf/ViewModels/Scoring/ScoreSheetTabVM.cs:55-60 | the tab has one column per criterion plus the total column, which comes last; column i is the i-th criterion by order, and every criterion's column is present |
| ScoreTab.ColumnsInDeclarationOrder | Tsd.Tabulator.Wpf/ViewModels/Scoring/ScoreSheetTabVM.cs:55-60 | for a sheet numbered by position the columns are its criteria as declared, then Total |
| ScoreTab.ThreeRunHeaders | Tsd.Tabulator.Wpf/ViewModels/Scoring/ScoreSheetTabVM.cs:84-109 | three consecutive runs of different groups give exactly three headers, at 0, after the first run and after the second, each spanning its run |
| ScoreTab.GameDayHeaders | Tsd.Tabulator.Tests/Scoring/GroupHeaderTests.cs:14-42 | Game Day shows Fight Song over columns 0-2, Spirit Raising over 3-5 and Performance over 6-9 |
| ScoreTab.SpiritRallyHeaders | Tsd.Tabulator.Core/Scoring/ScoreSheetDefinitions.cs:130-143 | Spirit Rally, whose criteria carry groups, shows three headers of two columns each (Execution, Choreography, Showmanship) |
| ScoreTab.UngroupedNoHeaders | Tsd.Tabulator.Tests/Scoring/GroupHeaderTests.cs:45-56 | a sheet without groups, such as Standard, shows no headers |
| ScoreTab.CellsForCriteria | Tsd.Tabulator.Wpf/ViewModels/Scoring/JudgeRowVM.cs:21-24 | the cells a judge row builds from the tab's columns are one fresh cell per ordered criterion, with its key and maximum; the total column gets none |
| ScoreTab.CellKeysDistinct | Tsd.Tabulator.Wpf/ViewModels/Scoring/JudgeRowVM.cs:26 | the key dictionary can be built exactly when the sheet's criterion keys are distinct; ordering the criteria does not affect that |
| ScoreTab.BuildJudges | Tsd.Tabulator.Wpf/ViewModels/Scoring/ScoreSheetTabVM.cs:67-70 | the loop builds max(n, 0) rows, numbered 1 to n and titled "Judge i", and fails exactly when there is a judge and the columns repeat a key |
| ScoreTab.NewTab | Tsd.Tabulator.Wpf/ViewModels/Scoring/ScoreSheetTabVM.cs:46-73 | the constructor fails exactly when the sheet has a judge and repeats a criterion key; otherwise the tab holds the ordered columns, the group headers of the ordered criteria, one row per judge, no routine and a clean state |
| ScoreTab.BuiltInSheetsMakeTabs | Tsd.Tabulator.Core/Scoring/ScoreSheetDefinitions.cs:17-161 | each of the four built-in sheets builds a tab without error |
| ScoreTab.NewTabValid | Tsd.Tabulator.Wpf/ViewModels/Scoring/ScoreSheetTabVM.cs:46-73 | a new tab satisfies the tab invariant: rows numbered from 1, laid out after the ordered criteria, with distinct keys and cells consistent with their texts |
| ScoreTab.RowTotalBounded | Tsd.Tabulator.Wpf/ViewModels/Scoring/JudgeRowVM.cs:86-91 | a row laid out after a sheet's criteria totals between 0 and the sum of the criteria's maxima |
| ScoreTab.JudgeTotalsBounded | Tsd.Tabulator.Wpf/ViewModels/Scoring/ScoreSheetTabVM.cs:200 | on a valid tab each judge total lies between 0 and the sheet's maximum |
| ScoreTab.AverageBounded | Tsd.Tabulator.Wpf/ViewModels/Scoring/ScoreSheetTabVM.cs:196-202 | judge totals in [0, m] give a grand total in [0, judges·m] and an average in [0, m], the average being 0 without judges |
| ScoreTab.ScoreBounds | Tsd.Tabulator.Wpf/ViewModels/Scoring/ScoreSheetTabVM.cs:196-202 | on a valid tab the grand total is not negative and the average lies between 0 and the sheet's maximum |
| ScoreTab.StandardMaxima | Tsd.Tabulator.Core/Scoring/ScoreSheetDefinitions.cs:17-34 | the Standard sheet's maxima are not negative and add up to at most 100 |
| ScoreTab.GameDayMaxima | Tsd.Tabulator.Core/Scoring/ScoreSheetDefinitions.cs:36-125 | the Game Day sheet's maxima are not negative and add up to at most 100 |
| ScoreTab.SpiritRallyMaxima | Tsd.Tabulator.Core/Scoring/ScoreSheetDefinitions.cs:130-143 | the Spirit Rally sheet's maxima are not negative and add up to at most 100 |
| ScoreTab.TrendsettersMaxima | Tsd.Tabulator.Core/Scoring/ScoreSheetDefinitions.cs:148-161 | the Trendsetters sheet's maxima are not negative and add up to at most 100 |
| ScoreTab.BuiltInAverageAtMost100 | Tsd.Tabulator.Wpf/ViewModels/Scoring/ScoreSheetTabVM.cs:201 | on any built-in sheet the displayed average lies between 0 and 100 |
| ScoreTab.EditCell | Tsd.Tabulator.Wpf/ViewModels/Scoring/ScoreSheetTabVM.cs:114-119 | typing into one cell changes only that cell of that judge, as its text setter does, and marks the tab dirty exactly when it was dirty or the cell's value changed |
| ScoreTab.EditCellValid | Tsd.Tabulator.Wpf/ViewModels/Scoring/ScoreCellVM.cs:36-46 | an edit keeps a valid tab valid |
| ScoreTab.RowTotalUpdate | Tsd.Tabulator.Wpf/ViewModels/Scoring/JudgeRowVM.cs:86-91 | editing a cell moves the row total by exactly the change in that cell's numeric part |
| ScoreTab.EditCellTotal | Tsd.Tabulator.Wpf/ViewModels/Scoring/ScoreSheetTabVM.cs:114-119 | an edit moves the grand total by exactly the change in the edited cell's numeric part |
| ScoreTab.ClearAll | Tsd.Tabulator.Wpf/ViewModels/Scoring/ScoreSheetTabVM.cs:189-194 | clearing keeps the sheet, columns, headers, routine and every row's layout, and leaves the tab clean |
| ScoreTab.ClearAllValid | Tsd.Tabulator.Wpf/ViewModels/Scoring/ScoreSheetTabVM.cs:189-194 | clearing a valid tab keeps it valid and leaves every cell without a value or an error |
| ScoreTab.ClearAllZero | Tsd.Tabulator.Wpf/ViewModels/Scoring/ScoreSheetTabVM.cs:189-194 | after clearing, the grand total and the average are both 0 |
| ScoreTab.RowsOf | Tsd.Tabulator.Wpf/ViewModels/Scoring/ScoreSheetTabVM.cs:171-174 | one row is saved per cell of a judge, carrying the routine, sheet, judge index, the cell's key and its value |
| ScoreTab.RowsToSaveOwner | Tsd.Tabulator.Wpf/ViewModels/Scoring/ScoreSheetTabVM.cs:171-174 | every saved row belongs to the current routine and sheet and to one of the tab's judges |
| ScoreTab.RowsToSaveLast | Tsd.Tabulator.Wpf/ViewModels/Scoring/ScoreSheetTabVM.cs:171-174 | with distinct judge indexes and cell keys, the last row the batch holds for a judge and key carries that cell's value |
| ScoreTab.Save | Tsd.Tabulator.Wpf/ViewModels/Scoring/ScoreSheetTabVM.cs:163-187 | without a routine or with an invalid cell nothing is written and false is returned; otherwise the save fails exactly when the routine is missing from the database, and on success the routine is marked scored with this sheet as its last, the tab becomes clean, and routines, participants and links are untouched |
| ScoreTab.SaveStores | Tsd.Tabulator.Wpf/ViewModels/Scoring/ScoreSheetTabVM.cs:171-183 | after a successful save of a valid tab, every cell's value is stored under its routine, sheet, judge and criterion, and the stored keys stay unique |
| ScoreTab.SaveKeepsOtherRoutines | Tsd.Tabulator.Wpf/ViewModels/Scoring/ScoreSheetTabVM.cs:176-180 | a save leaves the stored scores of every other routine unchanged |
| ScoreTab.SaveDropsOtherSheets | Tsd.Tabulator.Wpf/ViewModels/Scoring/ScoreSheetTabVM.cs:176-177 | after a save the routine has no stored score on any other sheet |
| ScoreTab.JudgeAt | Tsd.Tabulator.Wpf/ViewModels/Scoring/ScoreSheetTabVM.cs:135 | finds the first judge row with the stored index, or reports that no row has it |
| ScoreTab.ApplyStored | Tsd.Tabulator.Wpf/ViewModels/Scoring/ScoreSheetTabVM.cs:133-140 | applying one stored cell keeps the number of rows and each row's number of cells |
| ScoreTab.ApplyStoredEffect | Tsd.Tabulator.Wpf/ViewModels/Scoring/ScoreSheetTabVM.cs:135-139 | a stored cell sets the text of exactly the cell with its judge and key to the value's text ("" for null) and leaves every other cell alone |
| ScoreTab.ApplyAllCell | Tsd.Tabulator.Wpf/ViewModels/Scoring/ScoreSheetTabVM.cs:133-140 | after the stored rows are applied in order, each cell shows the last row stored under its judge and key, or is unchanged when there is none |
| ScoreTab.LoadRoutine | Tsd.Tabulator.Wpf/ViewModels/Scoring/ScoreSheetTabVM.cs:121-145 | loading keeps the sheet, columns, headers and number of judges, sets the current routine and leaves the tab clean |
| ScoreTab.LoadShows | Tsd.Tabulator.Wpf/ViewModels/Scoring/ScoreSheetTabVM.cs:121-145 | after loading, each cell of a valid tab shows the text of the last value stored for it on this sheet ("" when none), with the value and error that text validates to |
| ScoreTab.LoadValid | Tsd.Tabulator.Wpf/ViewModels/Scoring/ScoreSheetTabVM.cs:121-145 | loading keeps a valid tab valid |
| ScoreTab.ShownStored | Tsd.Tabulator.Wpf/ViewModels/Scoring/ScoreSheetTabVM.cs:138 | showing the stored text of an error-free value gives that value back, without error, whenever the value's text parses back to it |
| ScoreTab.SaveThenLoad | Tsd.Tabulator.Wpf/ViewModels/Scoring/ScoreSheetTabVM.cs:163-187 | saving a valid tab and loading the same routine back restores every cell whose value reads back, with no error, and leaves the tab clean |
| Reports.GetReportsFor | Tsd.Tabulator.Core/Reports/ReportConfiguration.cs:15-55 | the list is never empty and starts with SoloAwards; it holds DuetAwards exactly when the type is neither USASF nor OKState; no id is repeated |
| Reports.UnnamedFallsBack | Tsd.Tabulator.Core/Reports/ReportConfiguration.cs:48-54 | a competition type with no configured list gets the TSDance list |
| Reports.DuetAwardsFollowSheets | Tsd.Tabulator.Core/Reports/ReportConfiguration.cs:17-40 | duet awards are offered exactly for the types whose default score sheet is Trendsetters |
| Reports.BuildIndex | Tsd.Tabulator.Core/Reports/ReportCatalog.cs:18 | building the index fails, with a duplicate-key error, exactly when two ids are equal ignoring case; otherwise it maps each folded id to its definition and holds nothing else |
| Reports.NewCatalog | Tsd.Tabulator.Core/Reports/ReportCatalog.cs:15-19 | a null sequence is rejected; otherwise construction fails exactly on an id collision ignoring case, and a catalog keeps the sequence as given with an exact index |
| Reports.GetReport | Tsd.Tabulator.Core/Reports/ReportCatalog.cs:23-32 | a null or whitespace id, and only such an id, raises the argument error; any other failure is "not found" for that id |
| Reports.AllReportsRoundTrip | Tsd.Tabulator.Core/Reports/ReportCatalog.cs:17-21 | a catalog built from colliding-free definitions returns them unchanged |
| Reports.GetReportFinds | Tsd.Tabulator.Core/Reports/ReportCatalog.cs:28-29 | a non-blank id returns definition i exactly when their ids are equal ignoring case |
| Reports.GetReportMissing | Tsd.Tabulator.Core/Reports/ReportCatalog.cs:31 | a non-blank id that matches no definition ignoring case is reported as not found |
| Reports.PaddedIdNotFound | Tsd.Tabulator.Core/Reports/ReportCatalog.cs:28-31 | the lookup does not trim: " SoloAwards" is not found in a catalog holding SoloAwards |
| ScoreSheets.NewCriterion | Tsd.Tabulator.Core/Scoring/ScoreCriterionDefinition.cs:14-28 | key, display name, maximum, order and group are stored as given, with order 0 and no group by default; the canonical key is the given one, else the key |
| ScoreSheets.SheetKeysDistinct | Tsd.Tabulator.Core/Scoring/ScoreSheetDefinitions.cs:17-150 | the keys STANDARD, GAMEDAY, SPIRIT_RALLY and TRENDSETTERS differ |
| ScoreSheets.StandardShape | Tsd.Tabulator.Core/Scoring/ScoreSheetDefinitions.cs:17-34 | Standard has ten ungrouped criteria out of 10 each, whose canonical key is their key, three judges and orders 0..9 |
| ScoreSheets.GameDayShape | Tsd.Tabulator.Core/Scoring/ScoreSheetDefinitions.cs:36-125 | Game Day's groups are runs of Fight Song ×3, Spirit Raising ×3 and Performance ×4; canonical keys are display names, so Effectiveness is shared across groups |
| ScoreSheets.SpiritRallyShape | Tsd.Tabulator.Core/Scoring/ScoreSheetDefinitions.cs:130-143 | Spirit Rally has three consecutive pairs grouped Execution, Choreography and Showmanship, totalling 60 |
| ScoreSheets.TrendsettersShape | Tsd.Tabulator.Core/Scoring/ScoreSheetDefinitions.cs:148-161 | Trendsetters is ungrouped with maxima 25, 25, 25, 10, 10, 5 summing to 100 |
| ScoreSheets.AllSheetsWellFormed | Tsd.Tabulator.Core/Scoring/ScoreSheetDefinitions.cs:17-161 | every built-in sheet has three judges, criterion orders exactly 0..n-1, distinct keys and positive maxima |
| ScoreSheets.GetSheets | Tsd.Tabulator.Core/Scoring/DefaultScoreSheetSelector.cs:15-65 | the default key names one of the offered sheets; GameDay is always offered; OKState and USASF get Standard and default STANDARD, every other type defaults to TRENDSETTERS |
| ScoreSheets.UnnamedIsTSDance | Tsd.Tabulator.Core/Scoring/DefaultScoreSheetSelector.cs:19-25 | an unnamed competition type gets exactly what TSDance gets |
| ScoreSheets.OfferedSheetsDistinct | Tsd.Tabulator.Core/Scoring/DefaultScoreSheetSelector.cs:28-65 | the offered sheets are well formed and have distinct keys |
| Fingerprint.CollapseFrom | Tsd.Tabulator.Application/Services/FingerprintService.cs:15 | the replacement leaves only single spaces between non-whitespace characters and keeps a non-whitespace first and last character in place |
| Fingerprint.CollapseContent | Tsd.Tabulator.Application/Services/FingerprintService.cs:15 | collapsing whitespace runs keeps every non-whitespace character, in order |
| Fingerprint.UpperCollapseIsUpperOfCollapse | Tsd.Tabulator.Application/Services/FingerprintService.cs:15-16 | a one-pass collapse-and-uppercase agrees with the regular-expression replacement followed by upper-casing |
| Fingerprint.NormalizeShape | Tsd.Tabulator.Application/Services/FingerprintService.cs:12-17 | a normalized name has no outer whitespace, only single spaces between words, and no lower-case letter |
| Fingerprint.NormalizeEmpty | Tsd.Tabulator.Application/Services/FingerprintService.cs:14-16 | a name normalizes to "" exactly when it is blank |
| Fingerprint.NormalizeContent | Tsd.Tabulator.Application/Services/FingerprintService.cs:12-17 | normalizing keeps the non-whitespace characters in order and only upper-cases them |
| Fingerprint.NormalizeFixpoint | Tsd.Tabulator.Application/Services/FingerprintService.cs:12-17 | every upper-case name of normal shape normalizes to itself |
| Fingerprint.NormalizeIdempotent | Tsd.Tabulator.Application/Services/FingerprintService.cs:12-17 | normalizing twice gives the same name as normalizing once |
| Fingerprint.KeptNamesPermutation | Tsd.Tabulator.Application/Services/FingerprintService.cs:25-28 | the surviving names depend only on which pieces there are, not on their order |
| Fingerprint.KeptNamesMembers | Tsd.Tabulator.Application/Services/FingerprintService.cs:25-28 | a surviving name is the normalized form of a piece with content, and every such piece contributes one |
| Fingerprint.SortNames | Tsd.Tabulator.Application/Services/FingerprintService.cs:29 | the names are permuted into ascending ordinal order |
| Fingerprint.SplitAndNormalizeParticipants | Tsd.Tabulator.Application/Services/FingerprintService.cs:19-33 | null or whitespace gives []; otherwise a sorted permutation of the normalized non-blank comma-separated pieces, none empty or holding a comma |
| Fingerprint.ParticipantsOfSplit | Tsd.Tabulator.Application/Services/FingerprintService.cs:21-22 | the blank-input guard changes nothing: the result is always the sorted surviving pieces |
| Fingerprint.BlankParticipants | Tsd.Tabulator.Application/Services/FingerprintService.cs:21-22 | a whitespace-only participants text gives no participants |
| Fingerprint.ParticipantsMembers | Tsd.Tabulator.Application/Services/FingerprintService.cs:25-30 | a participant is listed exactly when it is the normalized form of a comma-separated piece with content |
| Fingerprint.ParticipantOrderIrrelevant | Tsd.Tabulator.Application/Services/FingerprintService.cs:25-30 | listing the same names in any other order gives the same participant list |
| Fingerprint.SameNameTwice | Tsd.Tabulator.Application/Services/FingerprintService.cs:25-30 | two pieces that normalize alike are both kept: "Ann, ann" lists ANN twice |
| Fingerprint.KeyPartsPipeFree | Tsd.Tabulator.Application/Services/FingerprintService.cs:44-52 | when no input contains '\|', no part of the key does |
| Fingerprint.FingerprintKeySplits | Tsd.Tabulator.Application/Services/FingerprintService.cs:44-52 | without '\|' in the inputs, the key splits back into the five normalized name fields and the comma-joined participants |
| Fingerprint.FingerprintKeyInjective | Tsd.Tabulator.Application/Services/FingerprintService.cs:43-52 | two '\|'-free routines share a key only when their normalized fields and participant lists agree; the program number plays no part |
| Fingerprint.SameNormalizedFieldsSameKey | Tsd.Tabulator.Application/Services/FingerprintService.cs:44-56 | routines whose name fields differ only in case or spacing get the same key, hence the same hash |
| Fingerprint.FingerprintIgnoresParticipantOrder | Tsd.Tabulator.Application/Services/FingerprintService.cs:44-51 | the order of names in the participants cell does not change the key |
| RoutineImport.FindRoutine | Tsd.Tabulator.Data.Sqlite/Import/RoutineImportService.cs:34-37 | the lookup finds the first routine with the fingerprint, and reports none exactly when no routine has it |
| RoutineImport.FindParticipant | Tsd.Tabulator.Data.Sqlite/Import/RoutineImportService.cs:110-112 | the lookup finds a participant with the normalized name, and reports none exactly when no participant has it |
| RoutineImport.InsertRoutine | Tsd.Tabulator.Data.Sqlite/Sqlite/SchemaInitializer.cs:62-63 | inserting a routine succeeds exactly when its id, fingerprint and program number are all new, appends it, and keeps the routine table's keys unique; otherwise a routine-key error is reported |
| RoutineImport.SetProgramNumber | Tsd.Tabulator.Data.Sqlite/Import/RoutineImportService.cs:93-99 | renumbering succeeds exactly when no other routine has the number, changes only that routine's number, and otherwise reports the program-number index |
| RoutineImport.InsertParticipant | Tsd.Tabulator.Data.Sqlite/Sqlite/SchemaInitializer.cs:71 | inserting a participant succeeds exactly when its id and normalized name are new, appends it and keeps the participant keys unique |
| RoutineImport.InsertLink | Tsd.Tabulator.Data.Sqlite/Sqlite/SchemaInitializer.cs:77 | linking succeeds exactly when the routine is not yet linked to that participant, appends the link, and otherwise reports the link key |
| RoutineImport.UpdateRoutine | Tsd.Tabulator.Data.Sqlite/Import/RoutineImportService.cs:65-100 | a known routine keeps its id and is overwritten in place with the row's descriptive fields; its program number follows the row unless the program is locked, a locked program never makes the update fail, and only the routine table changes |
| RoutineImport.UpsertRoutine | Tsd.Tabulator.Data.Sqlite/Import/RoutineImportService.cs:34-100 | a new fingerprint inserts a routine with a fresh id and the row's fields; a known one keeps the routine's id, fingerprint and inactive flag, overwrites its descriptive fields, and changes its program number only when the program is not locked; only the routine table changes |
| RoutineImport.UpsertFinds | Tsd.Tabulator.Data.Sqlite/Import/RoutineImportService.cs:34-100 | after the upsert, looking the fingerprint up finds the routine whose id the upsert returned |
| RoutineImport.EnsureParticipant | Tsd.Tabulator.Data.Sqlite/Import/RoutineImportService.cs:110-121 | an existing participant with the name is reused without change; otherwise one is appended with a fresh id and the name as display and normalized name; the returned id names the name |
| RoutineImport.Relink | Tsd.Tabulator.Data.Sqlite/Import/RoutineImportService.cs:103-127 | relinking changes only participants (which it extends) and links, and keeps both tables' keys unique |
| RoutineImport.RelinkLinks | Tsd.Tabulator.Data.Sqlite/Import/RoutineImportService.cs:103-127 | afterwards the routine's links are its participants in list order, numbered 0, 1, …, and every other routine's links are as before |
| RoutineImport.RowNames | Tsd.Tabulator.Data.Sqlite/Import/RoutineImportService.cs:30 | the corrected participant list holds no name twice |
| RoutineImport.NewRowInserts | Tsd.Tabulator.Data.Sqlite/Import/RoutineImportService.cs:40-64 | a row with a new fingerprint appends exactly one routine holding the row's fields under a fresh id |
| RoutineImport.MatchingRowUpdates | Tsd.Tabulator.Data.Sqlite/Import/RoutineImportService.cs:65-91 | a row matching a routine keeps its id, fingerprint and inactive flag and overwrites its title, entry type, studio, category, class, start time and participants text |
| RoutineImport.ImportAll | Tsd.Tabulator.Data.Sqlite/Import/RoutineImportService.cs:28-130 | a successful run keeps every existing routine's id and fingerprint, keeps program numbers when locked, keeps the database valid, and never touches scores |
| RoutineImport.ImportFromCsv | Tsd.Tabulator.Data.Sqlite/Import/RoutineImportService.cs:14-134 | the import returns the number of rows on success; on any failure the transaction leaves the database exactly as it was; existing routines keep their ids, locked program numbers stay, validity is kept, and scores are never touched |
| RoutineImport.ImportFromCsvDeduped | Tsd.Tabulator.Data.Sqlite/Import/RoutineImportService.cs:14-134 | the corrected import keeps all of the guarantees of the import above |
| RoutineImport.ImportAllMakesKnown | Tsd.Tabulator.Data.Sqlite/Import/RoutineImportService.cs:28-130 | after a successful import every row's fingerprint names a routine |
| RoutineImport.ReimportAddsNoRoutine | Tsd.Tabulator.Data.Sqlite/Import/RoutineImportService.cs:34-64 | importing the same rows a second time adds no routine and keeps every routine's id and fingerprint |
| RoutineImport.RelinkReuses | Tsd.Tabulator.Data.Sqlite/Import/RoutineImportService.cs:110-121 | names that all have participants create no participant and draw no fresh id |
| RoutineImport.RelinkTwiceFails | Tsd.Tabulator.Data.Sqlite/Import/RoutineImportService.cs:107-127 | as written, relinking a routine to any list that names one person at two positions fails; the error is the link key's or a participant insert's, and with freshly drawn ids it is always the link key's |
| RoutineImport.ImportAllTwiceFails | Tsd.Tabulator.Data.Sqlite/Import/RoutineImportService.cs:28-130 | as written, one row whose normalized participant list repeats a name at any two positions, anywhere in the file, fails the whole import |
| RoutineImport.DoubledParticipantFailsImport | Tsd.Tabulator.Data.Sqlite/Import/RoutineImportService.cs:30 | as written, a participants cell naming one person twice (in spellings that normalize alike) fails the import and leaves the database unchanged |
| RoutineImport.RelinkDistinctNoClash | Tsd.Tabulator.Data.Sqlite/Import/RoutineImportService.cs:103-127 | relinking distinct names never fails on the link key |
| RoutineImport.DedupedImportNeverRepeatsLink | Tsd.Tabulator.Data.Sqlite/Import/RoutineImportService.cs:107-127 | with each participant listed once, no import fails on the link key |
| RoutineImport.DedupKeepsNames | Tsd.Tabulator.Data.Sqlite/Import/RoutineImportService.cs:30 | the correction lists the same participants and changes nothing for a row that repeats no name |
| RoutineImport.ActiveRoutines | Tsd.Tabulator.Data.Sqlite/Import/RoutineImportService.cs:152 | exactly the routines that are not inactive are kept |
| RoutineImport.SortedActive | Tsd.Tabulator.Data.Sqlite/Import/RoutineImportService.cs:152-153 | a permutation of the active routines in non-decreasing program number |
| RoutineImport.LoadRoutinesForGrid | Tsd.Tabulator.Data.Sqlite/Import/RoutineImportService.cs:136-157 | the grid rows are ordered by program number |
| RoutineImport.GridRowSource | Tsd.Tabulator.Data.Sqlite/Import/RoutineImportService.cs:141-154 | every grid row shows an active routine of the table |
| RoutineImport.GridListsActive | Tsd.Tabulator.Data.Sqlite/Import/RoutineImportService.cs:152 | in a valid database a routine is listed exactly when it is active |
| RoutineImport.GridStrictlyOrdered | Tsd.Tabulator.Data.Sqlite/Sqlite/SchemaInitializer.cs:63 | with unique program numbers the grid is strictly increasing in program number |
| ReportTabs.CsvEscape | Tsd.Tabulator.Wpf/ViewModels/Reports/DuetsAwardsReportTabViewModel.cs:202-213 | null and "" are written as ""; a value with a comma, a quote or a line feed is quoted (it starts with a quote exactly then) with its quotes doubled; any other value is written as it is |
| ReportTabs.EscapeReads | Tsd.Tabulator.Wpf/ViewModels/Reports/DuetsAwardsReportTabViewModel.cs:202-213 | an escaped value, followed by the end of the record or a comma, reads back as the value itself |
| ReportTabs.RecordRoundTrip | Tsd.Tabulator.Wpf/ViewModels/Reports/DuetsAwardsReportTabViewModel.cs:188-195 | a record of escaped values joined by commas reads back as exactly those values, whatever commas, quotes or line feeds they hold |
| ReportTabs.NullReadsAsEmpty | Tsd.Tabulator.Wpf/ViewModels/Reports/DuetsAwardsReportTabViewModel.cs:204-205 | a null value is written as "" and so reads back as the empty string |
| ReportTabs.CarriageReturnNotQuoted | Tsd.Tabulator.Wpf/ViewModels/Reports/DuetsAwardsReportTabViewModel.cs:207 | a value holding only a carriage return is written bare, since only a comma, a quote or a line feed triggers quoting |
| ReportTabs.HeaderReads | Tsd.Tabulator.Wpf/ViewModels/Reports/DuetsAwardsReportTabViewModel.cs:182 | the header line reads back as the eight column names Bucket, Class, Place, Score, Program#, Participants, Studio, Routine |
| ReportTabs.EntryLineReads | Tsd.Tabulator.Wpf/ViewModels/Reports/DuetsAwardsReportTabViewModel.cs:188-195 | an entry's line reads back as its group's bucket and class, its place, its formatted score, its program number, its participants and studio ("" when null) and its title |
| ReportTabs.CommaScoreSplits | Tsd.Tabulator.Wpf/ViewModels/Reports/DuetsAwardsReportTabViewModel.cs:191 | a score formatted with a comma, as F2 writes it under a comma-decimal culture, is not escaped and reads back as nine fields, the score split in two |
| ReportTabs.GroupLines | Tsd.Tabulator.Wpf/ViewModels/Reports/DuetsAwardsReportTabViewModel.cs:186-196 | a group contributes one line per entry, in entry order |
| ReportTabs.LinesCount | Tsd.Tabulator.Wpf/ViewModels/Reports/DuetsAwardsReportTabViewModel.cs:184-197 | the entry lines number exactly the entries of all groups |
| ReportTabs.ExportLinesShape | Tsd.Tabulator.Wpf/ViewModels/Reports/DuetsAwardsReportTabViewModel.cs:177-200 | the export is the header and then exactly one line per entry; entry e of group g is on the line after all entries of the earlier groups and the e earlier entries of its own |
| ReportTabs.NoDataWarning | Tsd.Tabulator.Wpf/ViewModels/Reports/DuetsAwardsReportTabViewModel.cs:117-120 | the no-data warning is never blank, so it is shown |
| ReportTabs.BeginRefresh | Tsd.Tabulator.Wpf/ViewModels/Reports/DuetsAwardsReportTabViewModel.cs:107-109 | while loading, the tab cannot export and shows neither an error nor a warning, but keeps the old report |
| ReportTabs.Refresh | Tsd.Tabulator.Wpf/ViewModels/Reports/DuetsAwardsReportTabViewModel.cs:105-131 | after a refresh the tab is not loading; a generated report is shown without error, with the warning exactly when it has no group; a failure drops the report and sets an error |
| ReportTabs.RefreshOutcome | Tsd.Tabulator.Wpf/ViewModels/Reports/SoloAwardsReportTabViewModel.cs:102-128 | after a refresh export is possible exactly when the service returned at least one group, a warning shows exactly when it returned none, and an error shows exactly when it threw |
| ReportTabs.ExportCsv | Tsd.Tabulator.Wpf/ViewModels/Reports/DuetsAwardsReportTabViewModel.cs:133-175 | exporting produces output exactly when there is a report and an event is open (not consulting CanExportCsv), and the output is the header plus one line per entry |
| ReportTabs.EmptyReportExportsHeader | Tsd.Tabulator.Wpf/ViewModels/Reports/DuetsAwardsReportTabViewModel.cs:133-136 | a report without groups, which the button's guard would disable, still exports the header line alone |
| ReportTabs.GroupedByBucketPartition | Tsd.Tabulator.Wpf/ViewModels/Reports/DuetsAwardsReportTabViewModel.cs:75-76 | the bucket groups have distinct buckets and are never empty; every report group lies in the bucket group of its bucket and in no other |
| SoloLoader.Ranked | Tsd.Tabulator.Application/Reports/Loaders/SoloAwardsDataLoader.cs:41-43 | the class's items are a permutation ordered by score, highest first, with equal scores in their original order |
| SoloLoader.TakeCount | Tsd.Tabulator.Application/Reports/Loaders/SoloAwardsDataLoader.cs:45-47 | without a limit all items are kept; with a limit, at most the limit, and all of them when there are no more than the limit |
| SoloLoader.BucketClassGroups | Tsd.Tabulator.Application/Reports/Loaders/SoloAwardsDataLoader.cs:37-58 | every class group made from a bucket group carries that bucket |
| SoloLoader.NullClassJoinsEmpty | Tsd.Tabulator.Application/Reports/Loaders/SoloAwardsDataLoader.cs:38 | a candidate with a NULL class and one with the class "" both have the class text "" and land in the same class group |
| SoloLoader.FromRepository | Tsd.Tabulator.Data.Sqlite/Scoring/ScoreRepository.cs:223-229 | one record per row, in row order, with the empty bucket; a NULL class, participants or studio column reads as "" and every other column is carried over |
| SoloLoader.Members | Tsd.Tabulator.Application/Reports/Loaders/SoloAwardsDataLoader.cs:35-38 | exactly the candidates of the bucket and the class, in input order |
| SoloLoader.ClassGroupMembers | Tsd.Tabulator.Application/Reports/Loaders/SoloAwardsDataLoader.cs:35-38 | the items grouped under a bucket and then a class are exactly the candidates with that bucket and class, in input order |
| SoloLoader.ClassGroupIsTopOfMembers | Tsd.Tabulator.Application/Reports/Loaders/SoloAwardsDataLoader.cs:41-56 | every class group is keyed and labelled by its class with sort order 0, and holds the first TakeCount of its bucket-and-class members ranked by score: a hard cut that drops tied scores after it |
| SoloLoader.ClassGroupBounds | Tsd.Tabulator.Application/Reports/Loaders/SoloAwardsDataLoader.cs:45-56 | a class group holds at most the limit, highest score first, and only candidates of its bucket and class |
| SoloLoader.EveryCandidateGrouped | Tsd.Tabulator.Application/Reports/Loaders/SoloAwardsDataLoader.cs:34-59 | every candidate has a class group: the one of its bucket and class |
| SoloLoader.ClassGroupsDistinct | Tsd.Tabulator.Application/Reports/Loaders/SoloAwardsDataLoader.cs:34-59 | no two class groups share both bucket and class, so each candidate is in at most one |
| SoloLoader.BucketGroupsDistinct | Tsd.Tabulator.Application/Reports/Loaders/SoloAwardsDataLoader.cs:62-69 | the bucket groups have distinct buckets |
| SoloLoader.BucketGroupHolds | Tsd.Tabulator.Application/Reports/Loaders/SoloAwardsDataLoader.cs:62-69 | each bucket group holds, in order, exactly the class groups of its bucket, and at least one |
| SoloLoader.BucketGroupsCover | Tsd.Tabulator.Application/Reports/Loaders/SoloAwardsDataLoader.cs:62-69 | every class group lands in the bucket group of its bucket |
| SoloLoader.ClassGroupBucketFrom | Tsd.Tabulator.Application/Reports/Loaders/SoloAwardsDataLoader.cs:36-53 | a class group's bucket is the bucket of some candidate |
| SoloLoader.LoadHasOneBucket | Tsd.Tabulator.Application/Reports/Loaders/SoloAwardsDataLoader.cs:28-72 | with the repository's candidates there is at most one bucket group, the empty bucket |

## Left out

- Asynchrony, WPF/Caliburn wiring, dialogs, message boxes and property-change notifications. Every operation is a sequential state transformer.
- Connection handling, PRAGMAs and schema creation. The tables are sequences, the unique indexes and primary keys are predicates, and a violation is an error value. Foreign keys on class aliases and on routine references are taken as enforced.
- When a row breaks two unique indexes at once, which index SQLite names first is an arbitrary choice in the model.
- Decimal and double arithmetic are `real`. Rounding, the `F2` and `ToString` renderings and `decimal.TryParse` are the parameters `fmt` and `parse`.
- Culture-aware string comparison (`OrderBy` on display names, `ToUpperInvariant`, `OrdinalIgnoreCase`) is ordinal order and ASCII case folding. Unicode case mapping is not modelled.
- The SHA-1 digest of the fingerprint key, GUID generation (an oracle) and UTC timestamps (never read back) are not modelled.
- Reading the program CSV through its parser library, and writing files, are not modelled: the import takes parsed rows and the export yields its lines. The line terminator `AppendLine` adds is left out.
- `Fingerprint.NormalizeName`: a null name (which the service maps to "") is not modelled, because its callers never pass null.
- The `Recalc` calls suppressed while a tab or row is initialising are not modelled separately. The model recomputes totals as functions of the cells, which gives the same values once initialisation ends.
- Enumeration order of `Dictionary.Values` is taken as insertion order (`ScoreTab.RowsOf`).
- Report schemes, column metadata, reflection-driven registries, loader adapters and the random-score generator are not modelled.
- Test expectations that contradict the code are not modelled: per-bucket deduplication of candidates, no headers for Spirit Rally, and buckets expected where no definitions exist.
- ReportTabs.EntryLineReads: requires the formatted score to be a bare field (no comma, quote or line feed). Under a comma-decimal culture the line splits instead, as `ReportTabs.CommaScoreSplits` states.
- ScoreTab.SaveThenLoad: states the round trip only for values whose text `parse` reads back, because the stored double's text and the culture's parser are parameters.
- RoutineImport.LoadRoutinesForGrid: gives the projection the query describes. As written, the query selects eight columns while the `RoutineRow` record's positional constructor takes nine, beginning with `RoutineId`, so the object mapper most likely cannot build the rows at all; the model does not claim that failure.
- Row order of a query without `ORDER BY` is taken as the table's row order (`EventDb`), and rows that tie under `ORDER BY Class, FinalScore DESC` or within a `ROW_NUMBER()` partition (the best routine per participant string, `ScoreRepository.BestPerParticipants`) are taken in that row order too. SQL leaves both orders unspecified.
- AwardRanking.ApplicationReportLabels: the empty class key of the entries is an assumption. The Application services construct `SoloAwardEntry` and `DuetAwardEntry` with six arguments (SoloAwardReportService.cs:119, DuetAwardReportService.cs:119), while the records' only constructor takes seven, ending with `classKey`, which has no default; as written those call sites do not compile, and the model reads them as leaving the class key empty.
- EnsembleLabels.ExtractEnsembleType, EnsembleLabels.ExtractLevel and EnsembleLabels.ParseProgramNumber model private helpers of the Ensemble report service that nothing in the service calls; they are kept as stated helpers and feed no report.

## Findings

| source | as written | input that shows it | evidently intended | confidence | as-written member | corrected member |
|---|---|---|---|---|---|---|
| Tsd.Tabulator.Data.Sqlite/ClassConfigService.cs:265-271 | the unmapped-class query trims routine classes with SQLite's `trim`, which drops only spaces, and compares that text with the aliases and keys | a routine class "Tn\t" while "Tn" is an alias: the query keeps the tab, finds no alias "Tn\t" and reports the class as unmapped | report only class texts that do not resolve, trimming the way `ResolveClassKeyAsync` does | not executed | ClassConfig.UnmappedAsWrittenReportsAlias | ClassConfig.UnmappedDoNotResolve |
| Tsd.Tabulator.Data.Sqlite/Import/RoutineImportService.cs:107-127 | each normalized participant name is linked in turn, so a row naming one person twice inserts the same routine–participant link twice | a participants cell "Ann Lee, ann  lee": both names normalize to "ANN LEE", the second link breaks the primary key, and the whole import rolls back | link each participant of a row once | not executed | RoutineImport.DoubledParticipantFailsImport | RoutineImport.DedupedImportNeverRepeatsLink |
| Tsd.Tabulator.Data.Sqlite/Scoring/ScoreRepository.cs:124-138 | the scored-routine query does not select the entry type, so every Ensemble candidate's `Type` is "" | two scored ensembles of one class with entry types "Small Group" and "Large Group" end up in one type group | select `EntryTypeRaw` so that type groups separate ensemble sizes | not executed | Ensemble.TypesCollapse | Ensemble.TypedReportSeparatesTypes |
