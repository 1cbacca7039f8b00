# Smart Evaluator core, modelled in Dafny

Smart Evaluator is a browser app that teachers use to evaluate student groups. Admins keep
groups, students, tasks and evaluations in Firestore. Each evaluation gives every student of
a group a task score and a teamwork score, and ticks some option marks such as "weekly
homework" or "cannot do". The app turns these numbers into totals, averages, rankings and
statistics. The repository holds three diverging copies of the app: `google/app2.js`,
`rep2/app.js` and `google/app.js`.

This project models the deterministic core under the DOM and Firebase plumbing:

- **The expiring localStorage cache (`CacheManager`), one class per copy.**
  - `App2Cache` holds the google/app2.js copy: a 5-minute lifetime, a `forceRefresh` flag, a `set` that retries once after eviction and may throw, and the `clearOldest` that removes nothing.
  - `Rep2Cache` holds the rep2/app.js copy: a 10-minute lifetime, with no flag and no eviction.
  - `AppCache` holds the google/app.js copy: the flag is checked first, the second write failure is swallowed, and `clearOldest` is correct.
  - `Storage` holds what the copies share: localStorage as a `map` from keys to stored items, with `Date.now()` passed in as an integer. It also holds the two eviction rules side by side.
- **The read-through loaders.**
  - `App2Loading.Loader` holds `loadGroups` and `loadStudents` of google/app2.js.
  - `AppState.Evaluator` holds `fetchData` of google/app.js, and also its in-memory updates in `addGroup`, `deleteGroup` and `deleteAdmin`, and the `navigateTo` guard.
- **The scoring engine (google/app2.js).** `Scoring` holds the specification functions. It defines the raw score of one entry as task score + teamwork score + the marks of the ticked options, and builds the totals, counts, averages, group table, rankings and statistics from it.
  - `App2Scoring` holds the `forEach` loops of google/app2.js, each a method proved equal to its specification function.
  - `Rep2Scoring` holds the group rule of rep2/app.js: the sum of member totals divided by the member count.
  - `ScoringFacts` holds what the source promises about these functions.
  - The option table is a parameter. Its two versions differ in the homework mark (5 against 15).
- **Validation (`Validation`, `Rep2Validation`).**
  - From google/app2.js: the three uniqueness rules of `validateStudentUniqueness`, the role guard of `updateStudentRole`, `getStudentFormData`, `getTaskFormData` and `validateEmail`.
  - From rep2/app.js: the key-deriving form reader, the duplicate test `checkStudentUniqueness`, and how `addStudent` and `editStudent` use them.
- **The CSV adapter (`Csv`).**
  - The character loop of `parseCSVLine`.
  - `parseCSVData` and the import loop of `processCSVImport`.
  - The three exporters, and the round trip between the exporters and the parser.
- **Tabs and navigation (`Navigation`).** The public/private tab settings of `handleTabSettingChange`, the button visibility and the guards of `handleNavigation`.
- **Member counts and list filters (`Filters`).** `computeMemberCountMap`, `getFilteredStudents` and `getFilteredAdmins`.

Helper modules:
- `Wrappers`: `Option` and `Result`.
- `Text`: JavaScript's `trim`, `split`, `parseInt`, `String(n)` and UTF-16 `length`.
- `Seqs`: `find`, `filter` and the subsequence order.
- `Sorting`: a stable insertion sort, standing for `Array.prototype.sort`, which is stable.
- `Domain`: the records.

How the browser's nondeterminism enters the model:
- **The clock:** an integer `now`.
- **Whether `localStorage.setItem` fits the quota:** boolean parameters.
- **The order of `Object.keys(localStorage)`:** a parameter `order` that lists the store's keys once each.
- **What Firestore would answer:** a parameter (`remote`, `newId`, `confirmed`, `committed`, `deleted`).
- **`toLowerCase` on user text and `localeCompare`:** function parameters.

Scores are JavaScript integers read through `parseInt(...) || 0`, modelled as `int`. Averages are `real` divisions guarded by the source's zero checks.

## Model

| member | source | states |
|---|---|---|
| Storage.ReadAfterWrite | google/app.js:10-45 | a read no later than `now + lifetime` of what `set` wrote returns the data and leaves the store unchanged |
| Storage.ReadAfterExpiry | rep2/app.js:20-36 | a read after the lifetime returns nothing and removes exactly that item |
| Storage.DefaultLifetime | google/app.js:10-15 | a custom duration of 0 or null falls back to the default, and the item expires at `now + default` |
| Storage.WriteFrame | google/app2.js:9-21 | writing one key leaves the presence and the value of every other key unchanged |
| Storage.Read | rep2/app.js:20-36 | `get` returns data exactly when the item exists, parses and is not expired; an expired or unparseable item is removed, and a missing or empty one changes nothing |
| Storage.ClearedAllFacts | google/app2.js:46-50 | `clearAll` removes exactly the prefixed keys, keeps the others with their values, and afterwards every read misses |
| Storage.PrefixedKeysFacts | google/app.js:57-60 | the `startsWith(PREFIX)` filter of the key enumeration keeps exactly the prefixed keys, and no key twice |
| Storage.StampsFacts | google/app.js:63-75 | the stamps hold every parseable prefixed item with its timestamp and nothing else; with every item parseable there is one stamp per key, with distinct keys |
| Storage.DistinctKeysCount | google/app.js:76-79 | stamps with distinct keys name as many keys as there are stamps, so evicting them removes that many items |
| Storage.OldestFacts | google/app.js:75-79 | the sort plus `slice(0, 10)` keeps stamps of the input, min(10, n) of them, no stamp older than one left behind, with keys still distinct |
| Storage.EvictAppFacts | google/app.js:57-81 | with 50 or fewer prefixed keys nothing changes; otherwise exactly the 10 (or fewer parseable) oldest prefixed items are removed and every other key stays |
| Storage.EvictApp2RemovesNothing | google/app2.js:52-62 | the google/app2.js eviction either throws or leaves the store unchanged, when no key carries the prefix twice |
| Storage.EvictApp | google/app.js:57-81 | the eviction only removes items, never changes a value, keeps every item without the prefix, and does nothing at 50 or fewer prefixed keys |
| Storage.EvictApp2 | google/app2.js:52-62 | throws exactly when there are more than 50 prefixed keys and one of them does not parse; otherwise it only removes prefixed items, and does nothing at 50 or fewer |
| Storage.EvictionCopiesDiffer | google/app2.js:60 | on a store of more than 50 parseable prefixed items, google/app2.js removes nothing while google/app.js removes 10 |
| Storage.PrefixedOf | google/app2.js:53 | the key enumeration loop yields exactly the prefixed keys, in enumeration order |
| Storage.RemovePrefixed | google/app2.js:46-50 | the `forEach(removeItem)` loop leaves exactly the store `clearAll` promises |
| App2Cache.GetOutcome | google/app2.js:23-40 | with the flag set nothing is read or removed; without it `get` is the shared read `Storage.Read` |
| App2Cache.SetOutcome | google/app2.js:9-21 | a first write that fits succeeds; a call that returns normally leaves the item written with the data and its lifetime; any other item is only ever removed, and unprefixed items stay |
| App2Cache.ParseStamps | google/app2.js:55-58 | the `map` over keys yields the stamps when every item parses, and throws (`None`) otherwise |
| App2Cache.CacheManager.constructor | google/app2.js:3-7 | the manager starts on the given store with the flag off |
| App2Cache.CacheManager.Set | google/app2.js:9-21 | the new store and the thrown-or-not outcome are those of a first write, then an eviction and one retry when the first write does not fit |
| App2Cache.CacheManager.Get | google/app2.js:23-40 | with the flag on, `get` returns nothing and changes nothing; otherwise it reads as `Storage.Read` |
| App2Cache.CacheManager.Clear | google/app2.js:42-44 | exactly the prefixed key is removed |
| App2Cache.CacheManager.ClearAll | google/app2.js:46-50 | the store becomes `ClearedAll` of the old store |
| App2Cache.CacheManager.ClearEach | google/app2.js:60 | `this.clear` is applied to keys that already carry the prefix, so it removes the doubly prefixed keys |
| App2Cache.CacheManager.ClearOldest | google/app2.js:52-62 | the eviction of this copy, throwing where an item does not parse |
| App2Cache.ForceRefreshHides | google/app2.js:25 | while the flag is set, `get` returns null whatever the store holds |
| App2Cache.SetThenGet | google/app2.js:9-40 | after a `set` that did not throw, a `get` within the lifetime and without the flag returns the data |
| App2Cache.RetryOnUnchangedStore | google/app2.js:15-20 | because the eviction removes nothing, the retry writes into the unchanged store |
| App2Cache.UnfitWriteThrows | google/app2.js:9-21 | a write that does not fit, retried on the store the eviction left unchanged, does not fit again: the call throws and the store is unchanged |
| Rep2Cache.CacheManager.constructor | rep2/app.js:6-9 | the manager starts on the given store |
| Rep2Cache.CacheManager.Set | rep2/app.js:11-18 | a write that fits stores data with a 10-minute default lifetime; one that does not throws and changes nothing |
| Rep2Cache.CacheManager.Get | rep2/app.js:20-36 | `get` follows `Storage.Read`: no flag, with expiry and parse failures removing the item |
| Rep2Cache.CacheManager.Clear | rep2/app.js:38-40 | exactly the prefixed key is removed |
| Rep2Cache.CacheManager.ClearAll | rep2/app.js:42-46 | the store becomes `ClearedAll` of the old store |
| Rep2Cache.TenMinuteLifetime | rep2/app.js:7 | a `set` without a duration is read back until `now + 10 min` and is gone after |
| AppCache.GetOutcome | google/app.js:29-45 | data is returned exactly when the flag is off and the item is a live entry; at most that one item is removed, and none with the flag set |
| AppCache.SetStore | google/app.js:10-27 | when either write fits the item holds the data and its lifetime; any other item is only ever removed, and unprefixed items stay |
| AppCache.CollectStamps | google/app.js:63-74 | the `map`/`filter(Boolean)` yields exactly the stamps of the parseable items |
| AppCache.CacheManager.constructor | google/app.js:4-8 | the manager starts on the given store with the flag off |
| AppCache.CacheManager.Set | google/app.js:10-27 | a first write, then on failure one eviction and one retry; a second failure is swallowed and leaves the evicted store |
| AppCache.CacheManager.Get | google/app.js:29-45 | the flag is checked before the store is read; otherwise it reads as `Storage.Read` |
| AppCache.CacheManager.Clear | google/app.js:47-49 | exactly the prefixed key is removed |
| AppCache.CacheManager.ClearAll | google/app.js:51-55 | the store becomes `ClearedAll` of the old store |
| AppCache.CacheManager.ClearEach | google/app.js:79 | the prefix is stripped before `this.clear` adds it back, so the stamped items themselves are removed |
| AppCache.CacheManager.ClearOldest | google/app.js:57-81 | the store becomes `EvictApp` of the old store, the eviction whose facts `Storage.EvictAppFacts` states |
| AppCache.ForceRefreshFirst | google/app.js:30 | while the flag is set, `get` returns null and removes nothing, not even an expired item |
| AppCache.SetThenGet | google/app.js:10-45 | when either write fits, a later `get` within the lifetime returns the data; when neither does, the store is just the evicted one |
| App2Loading.Loader.constructor | google/app2.js:1091-1132 | the loader starts on its cache with empty lists |
| App2Loading.Loader.LoadGroups | google/app2.js:1091-1111 | a truthy cached value is used as is; otherwise the database answer is used and cached; where the query or the write throws, the catch block re-reads the cache and keeps the list when that misses too |
| App2Loading.Loader.LoadStudents | google/app2.js:1113-1132 | the same read-through rule for the students, except that its catch block only reports the error |
| App2Loading.GroupsLoaded | google/app2.js:1091-1111 | no item but `groups_data` is added or changed; a forced reload answered by the database shows that answer when it fits, and a forced reload whose query throws keeps the list and the store |
| App2Loading.StudentsLoaded | google/app2.js:1113-1132 | no item but `students_data` is added or changed; a forced reload shows the database answer whether or not it is cached, and one whose query throws keeps the list and the store |
| App2Loading.GroupsHitIgnoresRemote | google/app2.js:1093-1102 | on a cache hit the result does not depend on the database, and the store is unchanged |
| App2Loading.GroupsMissIsCached | google/app2.js:1096-1099 | on a miss the database answer is returned, and when it fits, the next read within 5 minutes serves it from the cache |
| AppState.FriendlyError | google/app.js:1127-1137 | both sign-in failures map to one message, a used e-mail to another, and any other code shows the raw message |
| AppState.Evaluator.constructor | google/app.js:85-105 | the app state starts empty, with no user |
| AppState.Evaluator.FetchData | google/app.js:729-742 | the result and the new store are those of a cache read, then on a miss a query and a `set` under `<collection>_data` |
| AppState.Evaluator.AddGroup | google/app.js:894-923 | a blank name or a failed add changes nothing; otherwise the new group joins the list, which is re-sorted by name, and `groups_data` is cleared |
| AppState.Evaluator.AddNamed | google/app.js:911-916 | the push, the re-sort by name and the clearing of `groups_data`, touching nothing else |
| AppState.Evaluator.DeleteGroup | google/app.js:925-966 | after a confirmed, committed delete, the group and its members leave the lists and both caches are cleared; otherwise nothing changes |
| AppState.Evaluator.DeleteAdmin | google/app.js:970-1004 | one's own id is refused; a confirmed delete removes only that admin and clears `admins_data` |
| AppState.Evaluator.NavigateTo | google/app.js:1038-1078 | the hash moves to the page exactly when the guard allows it, and the state is untouched |
| AppState.FetchHitIgnoresRemote | google/app.js:730-732 | a cache hit issues no query: the result does not depend on the database answer, and the store is unchanged |
| AppState.FetchMissCaches | google/app.js:734-741 | a miss returns the database answer, and a next read within 5 minutes finds it cached |
| AppState.AddGroupFacts | google/app.js:911-912 | the list after adding is the old list plus the new group (as a multiset), sorted by the collation key |
| AppState.DeleteGroupFacts | google/app.js:949-955 | exactly the group with that id and the students carrying it leave, and the rest keep their relative order |
| AppState.DeleteAdminFacts | google/app.js:992-995 | only the deleted admin leaves, and the others keep their order |
| AppState.MayNavigate | google/app.js:1038-1044 | a private page is reached exactly when a user is signed in, a public page always is, and a signed-in user reaches every non-empty page id |
| Scoring.OptionValue | google/app2.js:1633-1638 | the marks of the first option with the id, and 0 for an id not in the table |
| App2Scoring.RawScoreOf | google/app2.js:1627-1641 | one entry's score is task + teamwork (0 when missing) + the marks of its ticked options |
| App2Scoring.EntriesTotalOf | google/app2.js:1649-1668 | the loop over a `scores` object sums its entries' raw scores |
| App2Scoring.CalculateTaskAverage | google/app2.js:1351-1379 | the loop computes `TaskAverage`: total over entries of the task's evaluations divided by their number, and 0 with none |
| App2Scoring.CalculateEvaluationAverageScore | google/app2.js:1414-1438 | the evaluation's total divided by its entry count, and 0 with no entries |
| App2Scoring.CalculateEvaluationTotalScore | google/app2.js:1649-1668 | the sum of the raw scores of all entries |
| App2Scoring.CalculateStudentTotalScore | google/app2.js:1622-1646 | the sum of the student's raw scores over all evaluations |
| App2Scoring.GetStudentEvaluationCount | google/app2.js:2686-2694 | the number of evaluations holding an entry for the student |
| App2Scoring.InitGroupTable | google/app2.js:2649-2657 | one zeroed row per known group, named after its group |
| App2Scoring.TalliedStep | google/app2.js:2660-2671 | one more student keeps every row equal to the sum and count over the scored members seen so far |
| App2Scoring.AddMember | google/app2.js:2660-2671 | a student of a known group with an evaluation count > 0 adds its average to its group's row |
| App2Scoring.AverageGroups | google/app2.js:2674-2680 | each row gets total / count, or 0 with no scored member |
| App2Scoring.CalculateGroupScores | google/app2.js:2646-2683 | exactly the known groups; each row holds its scored members' count, the sum of their averages, and `GroupAverage` |
| App2Scoring.InitRankTable | google/app2.js:2702-2709 | one zeroed row per student |
| App2Scoring.AddEntries | google/app2.js:2715-2731 | an entry of a known student adds its raw score and one count to that row; the others are untouched |
| App2Scoring.ScoredRows | google/app2.js:2735-2742 | the averaging pass and the `evaluationCount > 0` filter give the ranked rows in student order |
| App2Scoring.CalculateStudentRankings | google/app2.js:2698-2744 | the result is `Rankings`: the scored rows, stably sorted by descending average |
| App2Scoring.TallyMarks | google/app2.js:1686-1696 | the `switch` adds to each counter the number of ticked marks of that option, and nothing for an unknown id |
| App2Scoring.CalculateProblemSolvingStats | google/app2.js:1670-1701 | the nested loops compute `StatsOf` of the evaluations |
| App2Scoring.CalculateStudentStatistics | google/app2.js:3320-3337 | the total is over task and teamwork scores only, with the count of evaluations and total / count, or 0 |
| Rep2Scoring.InitGroupTable | rep2/app.js:766 | one row of score 0 and no members per known group |
| Rep2Scoring.SummedStep | rep2/app.js:768-789 | one more student keeps every row equal to the totals and count of the members seen so far |
| Rep2Scoring.AddMember | rep2/app.js:768-789 | a student of a known group adds its total over all evaluations, and one member, to its row |
| Rep2Scoring.DivideRows | rep2/app.js:791-793 | a row with members gets its score divided by their number; an empty row keeps 0 |
| Rep2Scoring.CalculateGroupScores | rep2/app.js:764-796 | exactly the known groups; each row holds its member count and `Rep2GroupScore`, with zero-evaluation members counted and scoring 0 |
| ScoringFacts.MarksSumIgnored | google/app2.js:1631-1640 | unticked marks and marks naming no option of the table add nothing |
| ScoringFacts.RawScoreWithoutMarks | google/app2.js:1628 | without ticked marks the raw score is task + teamwork, a missing score counting 0 |
| ScoringFacts.HomeworkValue | google/app2.js:100-106 | the two option tables differ only in `weekly_homework`, by 10 |
| ScoringFacts.HomeworkDifference | google/app2.js:104 | under the two tables a raw score differs by 10 per ticked homework mark and in nothing else |
| ScoringFacts.TaskAverageUnevaluated | google/app2.js:1352-1353 | a task no evaluation targets averages 0 |
| ScoringFacts.TaskAverageOtherTask | google/app2.js:1352 | an evaluation of another task does not change a task's average |
| ScoringFacts.TaskAverageSingle | google/app2.js:1351-1379 | the only evaluation of a task gives the task that evaluation's average |
| ScoringFacts.TaskAverageOfTwo | google/app2.js:1351-1379 | two evaluations of a task average over all their entries together |
| ScoringFacts.TaskAverageWeighsEntries | google/app2.js:1372-1378 | the divisor is the entry count, not the evaluation count: 2.5 against the mean of means 5.0 |
| ScoringFacts.TaskAverageBounds | google/app2.js:1351-1379 | the average lies between the lowest and the highest raw score of the task's entries |
| ScoringFacts.GroupAverageLocal | google/app2.js:2660-2671 | a group's average depends only on its own members |
| ScoringFacts.GroupAverageIgnoresOthers | google/app2.js:2661 | a student of another group, or of none, changes neither the members nor the average |
| ScoringFacts.GroupAverageUnscored | google/app2.js:2675-2679 | a group none of whose members is evaluated averages 0 |
| ScoringFacts.GroupRulesAgree | rep2/app.js:764-796 | when every member has exactly one evaluation, the app2 and rep2 group rules agree |
| ScoringFacts.GroupRulesDiffer | rep2/app.js:785-792 | an unevaluated member halves the rep2 score (5.0) but not the app2 average (10.0) |
| ScoringFacts.RankingsContents | google/app2.js:2698-2744 | the ranking holds exactly the students with an entry, each with its own row, as a permutation of the scored rows |
| ScoringFacts.RankingsOrdered | google/app2.js:2743 | the averages are non-increasing along the ranking |
| ScoringFacts.RankingsStable | google/app2.js:2743 | students with equal averages keep their order in the student list |
| ScoringFacts.EntrySumLookup | google/app2.js:1626-1631 | over a `scores` object, iterating the entries and looking up one key agree |
| ScoringFacts.RankedMatchesStudent | google/app2.js:2715-2730 | a ranked row's total and count are the student total and the evaluation count |
| ScoringFacts.CountersPartition | rep2/app.js:712-723 | every ticked mark lands in exactly one counter, or in none when its option is unknown |
| ScoringFacts.StatsOfOne | rep2/app.js:699-731 | one evaluation adds one problem per entry, and to each counter the ticked marks of that option |
| ScoringFacts.StatisticsOmitMarks | google/app2.js:3320-3337 | the statistics total is the student total minus exactly the option marks |
| Sorting.SortByFacts | google/app.js:912 | the sort returns a permutation of its input, in key order |
| Sorting.SortByStable | google/app2.js:2743 | elements with equal keys keep their input order |
| Sorting.SortByDistinct | google/app.js:75 | sorting keeps the keys of the records distinct |
| Text.Trim | google/app2.js:2030 | `trim` returns the slice between the leading and the trailing white space |
| Text.TrimOfUnpadded | google/app2.js:2030-2036 | an unpadded string trims to itself |
| Text.AsciiLower | rep2/app.js:1144 | lower-casing changes only ASCII capitals and keeps the length |
| Text.Split | google/app2.js:3486 | `split` always yields at least one piece |
| Text.NatToDecimal | google/app2.js:3640 | `String(n)` gives digits without a leading zero |
| Text.ParseInt | google/app2.js:2069 | a blank string reads as `NaN`, and a negative result needs a leading minus after the white space |
| Text.ParseIntOfDecimal | google/app2.js:2069 | `parseInt` reads back every integer that `String` renders |
| Text.Utf16Length | google/app2.js:2044 | the `length` the limits compare is between the code-point count and twice it |
| Seqs.Find | google/app2.js:3581 | `find` returns the first passing element exactly when one exists |
| Seqs.FilterFacts | google/app2.js:1556-1558 | `filter` keeps exactly the passing elements, in order, and everything when all pass |
| Validation.ValidateEmail | google/app2.js:1703-1706 | an accepted address has at least 5 characters and neither starts nor ends with `@` |
| Validation.EmailShape | google/app2.js:1703-1706 | a valid address has exactly one `@`, not first, no white space, and at least 5 characters |
| Validation.EmailExamples | google/app2.js:1704 | the pattern accepts `a@b.cd` and refuses addresses with no dot after `@`, an empty part, a space or two `@` |
| Validation.RollErrors | google/app2.js:1712-1721 | the roll message fires exactly when another student has the same roll and academic group |
| Validation.RoleErrors | google/app2.js:1723-1734 | the role message fires exactly when role and group are set and another member of the group holds the role |
| Validation.GroupErrors | google/app2.js:1736-1746 | the group message fires exactly when an edit would move the student to another group |
| Validation.ErrorsInOrder | google/app2.js:1709-1749 | the messages come in rule order, each at most once |
| Validation.ValidateStudentUniqueness | google/app2.js:1709-1749 | each message is present exactly when its rule fires, and all are returned together in order |
| Validation.Accepted | google/app2.js:1709-1749 | an empty result means that no rule fires |
| Validation.AddKeepsUnique | google/app2.js:1972-2002 | adding an accepted record keeps rolls unique per academic group and roles unique per group |
| Validation.EditKeepsUnique | google/app2.js:2120-2209 | an accepted edit keeps both uniqueness rules and does not move the student to another group |
| Validation.RoleAssignable | google/app2.js:2984-2996 | an empty role, or an unknown student, always passes; a refusal names a group-mate holding the role |
| Validation.RoleAssignableExactly | google/app2.js:2984-2996 | for a known student, the guard refuses exactly a non-empty role that a group-mate holds |
| Validation.AssignRole | google/app2.js:2998-3003 | only the role of that student's record changes |
| Validation.RoleChangeKeepsUnique | google/app2.js:2980-3010 | a role change the guard allows keeps roles unique within each group |
| Validation.StudentFormData | google/app2.js:2029-2064 | the form is accepted exactly when the required fields are filled and name ≤ 100 and roll ≤ 20 UTF-16 units; the error is the first failing check (missing fields, then the name, then the roll); the record holds the trimmed name, roll, contact, academic group and session and the raw gender, group and role |
| Validation.StudentFormDataIdempotent | google/app2.js:2029-2064 | reading back an accepted record accepts it unchanged |
| Validation.TaskFormData | google/app2.js:2066-2098 | a task is accepted exactly when it passes every check; the score is read by `parseInt` and lies in 1..1000, and the missing-field error takes precedence |
| Validation.TaskMaxScoreRead | google/app2.js:2069-2090 | a score typed as its digits is accepted exactly when it lies in 1..1000, and is read back as that number |
| Rep2Validation.GetStudentFormData | rep2/app.js:1127-1148 | the loop computes `FormDataOf`: a missing input is skipped, and the first blank required input refuses the form |
| Rep2Validation.FormDataOf | rep2/app.js:1127-1148 | the form is refused exactly when some present required input trims to nothing |
| Rep2Validation.FormDataMembers | rep2/app.js:1133-1146 | an accepted form holds a key exactly for each input present |
| Rep2Validation.FormDataValues | rep2/app.js:1139-1145 | each input present is stored under its key with its trimmed text |
| Rep2Validation.FieldName | rep2/app.js:1144 | a derived key is no longer than its input id and holds no upper-case ASCII letter |
| Rep2Validation.FieldNames | rep2/app.js:1144 | the derived keys are `name`, `roll`, `gender`, `group`, `contact`, `academicgroup`, `session`, `role` |
| Rep2Validation.DerivedKeysMissed | rep2/app.js:1144 | read as a student record, an accepted form has an empty academic group and group |
| Rep2Validation.DerivedAcademicGroup | rep2/app.js:1144 | the academic group typed is stored under `academicgroup` |
| Rep2Validation.DerivedKeysExample | rep2/app.js:864-891 | a fully filled form whose academic group and group are lost on the way to `addStudent` |
| Rep2Validation.IntendedNames | rep2/app.js:1129-1131 | the corrected keys are the record's attribute names |
| Rep2Validation.CorrectedFormDataRecord | rep2/app.js:1127-1148 | with the corrected keys, every attribute carries its input's trimmed text |
| Rep2Validation.CheckStudentUniqueness | rep2/app.js:1216-1222 | a duplicate exactly when a record with the roll and academic group has an id other than the excluded one |
| Rep2Validation.DuplicateRulesAgree | rep2/app.js:1216-1222 | the rep2 test and the app2 roll rule flag the same records |
| Rep2Validation.EditRefused | rep2/app.js:1021-1026 | an edit is refused exactly when roll or academic group changed and another record has the new pair |
| Rep2Validation.EditSkipSound | rep2/app.js:1021-1026 | skipping the test for an unchanged pair misses no duplicate when rolls were unique |
| Rep2Validation.AddStudent | rep2/app.js:864-891 | with the corrected reader, the intended half of the rep2/app.js:1144 finding: an add succeeds exactly when the form is read and no record has its roll and academic group; it appends the new record |
| Rep2Validation.AddStudentKeepsRollsUnique | rep2/app.js:864-891 | with the corrected reader, the intended half of the rep2/app.js:1144 finding: every successful add keeps rolls unique within each academic group |
| Filters.CountIn | google/app2.js:1563-1565 | a count never exceeds the number of students |
| Filters.CountAbsent | rep2/app.js:1182-1183 | a group no student carries counts 0 |
| Filters.ComputeMemberCountMap | rep2/app.js:1181-1188 | the keys are every group id and every student group id; each value is the number of students carrying it |
| Filters.MemberCountsSum | rep2/app.js:1181-1188 | the values sum to the number of students with a non-empty group id |
| Filters.CountOfGroup | google/app2.js:1556-1567 | a group's count is the length of `getStudentsInGroup` |
| Filters.FilterStudents | rep2/app.js:1190-1209 | every student listed is in the input and passes both filters; the list is no longer than the input, and is the input with neither filter |
| Filters.FilterStudentsFacts | rep2/app.js:1190-1209 | the result is an order-preserving subsequence holding exactly the students passing both filters, and the input with neither filter |
| Filters.GetFilteredStudents | google/app2.js:1569-1605 | the members settings, the cards settings, or no filter, by type |
| Filters.GetFilteredAdmins | google/app2.js:1607-1619 | every admin listed is in the input and matches the term; the list is no longer than the input, and is the input with no term |
| Filters.FilteredAdminsFacts | google/app2.js:1607-1619 | exactly the admins whose e-mail or type holds the term, in order, or all of them |
| Navigation.Without | google/app2.js:982 | the filter drops exactly the page and keeps the others in order |
| Navigation.AddedOnce | google/app2.js:983-985 | adding a page leaves it in the list once, keeping the list free of duplicates |
| Navigation.CheckPublic | google/app2.js:980-985 | checking public leaves the page once in public and not in private, and every other page as it was |
| Navigation.CheckPrivate | google/app2.js:990-995 | the same for the private column |
| Navigation.UncheckPublic | google/app2.js:986-988 | unchecking removes only that page from public, in order, and keeps private |
| Navigation.UncheckPrivate | google/app2.js:996-998 | the same for the private column |
| Navigation.Changed | google/app2.js:975-1007 | checking puts the page in its column and out of the other; unchecking takes it out of its column and leaves the other list as it was; every other page keeps its place in both lists |
| Navigation.ChangeKeepsWellFormed | google/app2.js:975-1007 | every change keeps both lists free of duplicates and apart |
| Navigation.DefaultsWellFormed | google/app2.js:80-83 | the shipped settings are free of duplicates and apart |
| Navigation.NavigationOutcome | google/app2.js:1754-1771 | login is required exactly for a private page with no user; super-admin exactly for the admin page for another type |
| Navigation.AdminTypeReadOnlyForAdminPage | google/app2.js:1765-1771 | only the admin page with a user signed in depends on the admin type |
| Navigation.VisibleButtonsOpen | google/app2.js:1009-1020 | with well-formed settings a visible button opens its page, except the admin page, and a signed-out open is never private |
| Navigation.Visible | google/app2.js:1009-1020 | signed out, exactly the public pages show; signed in, exactly the pages of either list |
| Navigation.OverlapRefusesVisibleButton | google/app2.js:1009-1020 | with a page in both lists a visible public button leads to the login refusal |
| Navigation.Navigator.constructor | google/app2.js:80-83 | the navigator starts with the default settings, signed out, on the dashboard |
| Navigation.Navigator.HandleTabSettingChange | google/app2.js:975-1007 | the settings become `Changed` of the old ones, and the page arrays follow them |
| Navigation.Navigator.UpdateNavigationVisibility | google/app2.js:1009-1020 | each button is shown exactly when `Visible` says so |
| Navigation.Navigator.HandleNavigation | google/app2.js:1754-1771 | the outcome is `NavigationOutcome`; the active page moves only when it opens |
| Csv.ParseCSVLine | google/app2.js:3518-3538 | the character loop computes `Fields` of the line |
| Csv.Fields | google/app2.js:3518-3538 | one field more than the commas outside quotes |
| Csv.FieldsHaveNoQuotes | google/app2.js:3525-3527 | no field holds a quote |
| Csv.FieldsJoin | google/app2.js:3518-3538 | the fields joined with commas give the line without its quotes |
| Csv.RowRoundTrip | google/app2.js:3591 | parsing an exported row of quote-free fields gives the fields back, with commas inside them |
| Csv.CommaInsideField | google/app2.js:3608 | the row of `a,b` and `c` reads back as two fields |
| Csv.ExportRoundTrip | google/app2.js:3640 | an exported file splits into the header and one line per row, and each line reads back to its row |
| Csv.ExportStudentsCSV | google/app2.js:3576-3597 | the header, then one row per student in list order |
| Csv.ExportGroupsCSV | google/app2.js:3599-3614 | the header, then each group's name and member count (0 when missing) |
| Csv.ExportEvaluationsCSV | google/app2.js:3616-3649 | for each evaluation in order, one row per score entry of a known student |
| Csv.AppendEntries | google/app2.js:3624-3644 | the inner loop appends the rows of one evaluation's entries |
| Csv.EntryRowTotals | google/app2.js:3627-3639 | read back by `parseInt`, the score columns give the two scores (0 when missing) and their sum |
| Csv.EntryRowSource | google/app2.js:3626-3628 | every exported row is the row of an entry with a known student, at that position or later |
| Csv.EntryRowsCount | google/app2.js:3626-3628 | an evaluation gives at most one row per entry |
| Csv.StudentsRoundTrip | google/app2.js:3576-3597 | every exported student line reads back to its row, when no field holds a quote or line break |
| Csv.HeadersClean | google/app2.js:3577 | no header holds a line break |
| Csv.ParseCSVData | google/app2.js:3484-3516 | a file with no non-blank line fails, as `lines[0]` is undefined; otherwise the records of the usable non-blank lines after an optional header |
| Csv.ReadStudentRows | google/app2.js:3494-3513 | the loop keeps the records of exactly the usable lines, in order |
| Csv.RecordsOfFacts | google/app2.js:3494-3513 | the records read are exactly those of usable lines, at most one per line |
| Csv.ParsedRecords | google/app2.js:3484-3516 | the parse fails exactly when no line is non-blank; otherwise there are no more records than non-blank lines after the header |
| Csv.ParsedRecordsClean | google/app2.js:3496-3511 | every record has non-blank name, roll, gender and group, all trimmed |
| Csv.ProcessCSVImport | google/app2.js:3434-3482 | no file, a parse failure, or an import whose added rows pass against the loaded students, with success + error = rows |
| Csv.ImportRows | google/app2.js:3443-3462 | the loop adds exactly the rows admitted against the loaded students, counting both kinds |
| Csv.AcceptedAsWrittenFacts | google/app2.js:3443-3462 | a row is added exactly when it passes against the loaded students, whatever the other rows hold |
| Csv.ImportAdmitsDuplicates | google/app2.js:3443-3462 | two identical rows are both added, giving two students with one roll in one academic group |
| Csv.CheckedImport | google/app2.js:3434-3482 | the corrected import only appends, at most one student per row |
| Csv.CheckedImportKeepsUnique | google/app2.js:3434-3482 | the corrected import keeps both uniqueness rules |
| Csv.CheckedImportExample | google/app2.js:3443-3462 | on the two identical rows the corrected import adds one student |

## Left out

- DOM rendering, modals, toasts, themes, the debouncer and event wiring are not modelled. These include `renderTabSettings`, `getPageDisplayName`, the page-specific loading switch of `handleNavigation`, and both `setupEventListeners` of google/app.js. A missing form element or CSV field reads as `""`.
- Firestore and Firebase Auth are not modelled. Their answers are parameters: the query result, the new document id, the dialog answer, the batch commit and the delete outcome. The sign-in and registration flows are left out.
- `processCSVImport` writes rows to Firestore. That write is not modelled; every admitted row counts as added.
- Csv.ProcessCSVImport: the `cache.clear('students_data')` and `loadStudents()` that follow the import loop (google/app2.js:3465-3466) are not modelled; the method ends with the loop's outcome.
- Storage.Stored: an item is an entry with `data`, `timestamp` and `expires`, an empty string or an unparseable one. A parseable item that lacks `expires` cannot be represented; `get` returns it as live, since `Date.now() > undefined` is false. Nor can one that lacks `timestamp`, which makes the `clearOldest` sort of google/app.js compare `NaN`.
- `JSON.stringify` and `JSON.parse` are not modelled. A cached value is a `Json` that reads back as it was written. In the source a Firestore `Timestamp` comes back as a plain object and `undefined` fields are dropped.
- AppState.Evaluator.DeleteAdmin: with nobody signed in the source throws at google/app.js:971, where it reads `this.currentUser.uid`; the model reports the delete as not refused and changes nothing.
- `loadTabSettings` and `saveTabSettings` (google/app2.js:205-238) are left out. Both go through the Firestore document `settings/tabSettings`. `loadTabSettings` replaces the tab settings with whatever the document holds, and takes `PUBLIC_PAGES` and `PRIVATE_PAGES` from its `publicTabs` and `privateTabs`, each only when present. `saveTabSettings` writes only for a signed-in super-admin. So `Navigation.DefaultsWellFormed` and `Navigation.ChangeKeepsWellFormed` cover the shipped defaults and the changes made from them, not loaded settings: a stored document need not be `WellFormed`, and `Navigation.OverlapRefusesVisibleButton` shows what an overlapping one does.
- `downloadCSVTemplate` and `downloadCSVFile` are left out. They build a Blob and click a link.
- `Promise.all` fan-out loads, the `setTimeout` that resets `forceRefresh`, and all other timers and concurrency are left out.
- `Date.now` is an integer parameter. `set` reads the clock twice; the model uses one instant for both. `new Date(...)` and `toLocaleDateString` are left out. The exported date column is the parameter `dateOf`, and `getTaskFormData` keeps the date string.
- Floating point is not modelled. Averages are exact reals, and `toFixed`, `Math.round`, `completionRate` and `generateCardColor` are left out.
- `toLowerCase` on user text and `localeCompare` are function parameters. Only the field-name derivation of rep2/app.js lower-cases known ASCII identifiers, which `Text.AsciiLower` does.
- The storage quota is modelled only as the booleans `firstFits` and `retryFits`, which say whether each write fits. They are independent, so the model admits a retry that fits where the first write of the same data did not, even when google/app2.js's eviction left the store unchanged; `App2Cache.UnfitWriteThrows` states the source's case, where both fail and the call throws.
- Rep2Validation.AddStudent: the add as written, which reads the form through the `academicgroup` key so that the uniqueness query sees an undefined academic group (rep2/app.js:871), is not modelled; only the add with the corrected reader is, and its uniqueness promise holds for that add alone.
- The order of `Object.keys` is the parameter `order`.
- The first definition of `calculateEvaluationTotalScore` (google/app2.js:1441-1461) is not modelled. The later one overrides it, and the two compute the same total.
- `renderTopGroups`, `renderGroupsRanking` and `renderGroupAnalysis` are left out. They read a `score` field that `calculateGroupScores` does not produce. Only the function itself is modelled.
- test.js has no self-contained logic. It is not part of this model.
- App2Scoring.CalculateStudentRankings: the ranking assumes distinct student ids, as Firestore document ids are.
- ScoringFacts.EntrySumLookup and ScoringFacts.RankedMatchesStudent: lookup-based and loop-based sums agree only when a `scores` object's keys are distinct, as the keys of a JavaScript object are.

## Findings

| source | as written | input that shows it | evidently intended | confidence | as-written member | corrected member |
|---|---|---|---|---|---|---|
| google/app2.js:60 | `clearOldest` passes the already-prefixed key to `clear`, which prefixes it again, so nothing is removed | 51 parseable prefixed items: the copy removes none, while google/app.js:79 removes 10 | strip the prefix first, as google/app.js:79 does, so the 10 oldest items are evicted | not executed | Storage.EvictionCopiesDiffer | Storage.EvictAppFacts |
| rep2/app.js:1144 | the key derivation yields `group` and `academicgroup`, but `addStudent` (rep2/app.js:864-891) reads `groupId` and `academicGroup` | every input filled with `x`: the record reaches the caller with an empty group and academic group | keys named as the record's attributes, so the typed values reach the record | not executed | Rep2Validation.DerivedKeysExample | Rep2Validation.CorrectedFormDataRecord |
| google/app2.js:3443-3462 | each row is validated against the students loaded before the import, not against the rows added before it | a file with two identical rows and no matching student: both are added, with one roll in one academic group | validate each row against the students including those already added, keeping rolls unique | not executed | Csv.ImportAdmitsDuplicates | Csv.CheckedImportKeepsUnique |
