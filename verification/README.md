# Knowledge Commons Profiles: a Dafny model of its hard cores

This project models nine independent pieces of Knowledge Commons Profiles in Dafny 4.11 and proves
what they are for. `dafny verify dfyconfig.toml` verifies all of it. Paths below are relative to the
root of the repository.

| file | what it models |
|---|---|
| `AlbRule.dfy` | the conditions of the load-balancer rule: normalising, removing and restoring the HTTP-method restriction |
| `Monitor.dfy`, `MonitorSteps.dfy`, `MonitorRuns.dfy`, `MonitorProcess.dfy` | the website monitor: its state machine, what each step does and where it leads, what every run keeps, and the process object that refines it |
| `SortKeys.dfy`, `Sorting.dfy`, `DateKeys.dfy` | the bibliography comparator, Python's `sorted`, and the keys of dates |
| `Rendering.dfy`, `RenderingSteps.dfy`, `Layout.dfy` | the CSL element tree with the suppression list of `cs:substitute`, what each element shows, and the layout object that renders it in place |
| `Roman.dfy`, `PageRange.dfy` | Roman numerals and abbreviated page ranges |
| `Collisions.dfy` | the planner that resolves case-insensitive username clashes |
| `RateLimit.dfy` | the cached-counter rate limiter |
| `Reserved.dfy`, `ReservedTerms.dfy` | matching usernames against reserved terms, and the terms as text |
| `MixedStrings.dfy` | strings with protected parts and the reader of tagged text |
| `Works.dfy` | grouping works by type |
| `RefreshLock.dfy` | the lock around token refresh |
| `Arithmetic.dfy`, `Seqs.dfy`, `Strings.dfy`, `StringOrder.dfy`, `Wrappers.dfy` | shared helpers: division, sequences, Python string operations, text order, Option |

Code that changes state step by step is modelled by classes and loops (`MonitorProcess.Process`,
`LayoutProcess.Layout`, the planner, the limiter, the readers); each of them is tied by its
`ensures` to a function or predicate about which the theorems are then proved.

## Assumptions

- The monitor. A restart happens between two passes of the loop. `Env` says how the outside answers
  in one step: the site check, each load-balancer call, each S3 call, and how much time passes
  before and after them (any non-negative real, so the proofs hold for every check interval). A
  successful modify-rule stores exactly the conditions it was sent, and nobody else edits the rule.
  S3 puts and gets work where a lemma asks for `Reliable`. `SafeExactlyWhenServed` says exactly which of them
  safety needs: the put of an activation and the get of a restart during an outage. When such a put
  fails, a restart may lose the rule for ever (`UnsavedActivation`, `OrphanedForever`); when such a get
  fails, the outage is forgotten until a restart reads the record (`UnreadOutageIsForgotten`,
  `ForgottenUntilRead`). Running without a bucket is every S3 call failing. S3 deletes and load-balancer
  calls may always fail. A run may start in any `Recoverable` world: a missing
  restriction is on record, and a record beside a present restriction is an old one.
- The module documentation of the monitor speaks of a check every five minutes while
  `CHECK_INTERVAL` is 60 seconds; neither number matters to the proofs.
- Lower-casing and `isdigit` are ASCII. `int()` of a string accepts surrounding white space, a sign
  and underscores between digits, as in Python.
- A sort key is its text; an integer key stands as its decimal text. Integer keys are the citation
  numbers (`citeproc/model.py:557-558`), which every item of such a column has, so an integer never meets
  a text that is not one.
- Python's `sorted` is an insertion sort here. `Sorting.StableSortUnique` proves that a list has only one
  stable sorted arrangement, so the choice of algorithm does not show.
- A macro call in a style tree holds the macro's body, which an acyclic style always allows, and an
  item supplies the text of each variable and the people in each role. How page ranges, numbers and people
  are formatted, and the terms of labels, are arbitrary functions an element carries. Variables have
  their CSL names.
- Two oddities are followed as they stand: `cs:number` looks a variable up under its name as written, so
  a hyphenated one is never found, and the label of a present `number-of-` variable looks that up in the
  wrong object and shows nothing.
- Regular expressions are modelled by what they match.
- Limiter calls are handled one at a time; the lock's `cache.add` and `cache.delete` are atomic.

## Where the code does not do what one would expect

Each of these is a lemma, most with the exact condition under which the expectation holds.

- The comparator is not transitive on columns mixing integers with other texts: `9 < 10 < "1x" < 9`
  (`SortKeys.ColumnTransitivity`, `SortKeys.MixedColumnCycles`).
- Two days of one year before -10000 compare backwards, and outside the years -10000..89999 dates may be
  misplaced among ranges (`DateKeys.DatesInOrder`, `DateKeys.WhensInOrderExactly`).
- Only a `cs:text variable` that is itself a direct child of the substitute is suppressed in the rest of
  the entry; substituted names, and variables substituted through a macro, are shown again. CSL 1.0.2,
  "Substitute", suppresses them in all forms (`Rendering.ShownUnlessUsed`, `Rendering.UsesIsLogged`,
  `Rendering.SubstitutedNamesReappear`, `Rendering.MacroSubstituteReappears`).
- A `cs:names` without `cs:name` is written one way as a substitute and may be written another way
  later (`Rendering.SubstitutedNamesReappear`, `Rendering.EditorComesOutLonger`).
- Numbers, labels and conditions still read a suppressed variable (`Rendering.NumbersReadSuppressed`,
  `Rendering.LabelsReadSuppressed`, `Rendering.ConditionsReadSuppressed`).
- A page range from a one-digit page, such as 5-12, is cut to its last digit by `minimal-two`
  (`PageRange.MinimalTwoFromOneDigit`, `PageRange.Lossless`).
- Text directly before an unclosed `nocase` tag is read twice (`MixedStrings.ReadsUntagged`,
  `MixedStrings.UnclosedTagRepeats`).
- A section with both dated and undated works makes grouping fail, even a section that would not be
  listed; an untitled type is dropped unless some work has the type "Other"
  (`Works.SortAndGroupWorksByType`, `Works.OneDatedOneNot`, `Works.WhoHasASection`).
- The limiter refuses a slow but steady caller, and all services share one counter per function name:
  the membership services of the MLA, ARLISNA and UP all decorate a function of the same name
  (`RateLimit.SteadyCallerIsRefused`, `RateLimit.WindowBound`).
- A refresh that outlasts its lock deletes its successor's lock (`RefreshLock.OwnersIffStayWithinTimeout`,
  `RefreshLock.TimelyIffStayWithinTimeout`).
- The monitor loses track of the rule when the S3 put fails and the process restarts, or when it
  restarts during an outage and the S3 get fails (`MonitorRuns.UnsavedActivation`,
  `MonitorRuns.ForgottenUntilRead`).

## Model

| member | source | states |
|---|---|---|
| `AlbRule.NormalizeKeepsField` | knowledge_commons_profiles/cron/monitor_website.py:294-323 | normalising a condition never changes which field it is about, so it can neither create nor hide a method restriction |
| `AlbRule.NormalizeIdempotent` | knowledge_commons_profiles/cron/monitor_website.py:282-323 | normalising twice is normalising once, and the values a condition denotes for its field (in either format) survive it |
| `AlbRule.RemovedKeepsOthers` | knowledge_commons_profiles/cron/monitor_website.py:344-360 | removal leaves no method restriction, and every other condition of the rule as it was, up to normalisation |
| `AlbRule.RestoredKeepsOthers` | knowledge_commons_profiles/cron/monitor_website.py:538-553 | restoration always leaves the restriction on and every other condition as it was; a second restoration, with any methods, changes nothing |
| `AlbRule.RoundTripWith` | knowledge_commons_profiles/cron/monitor_website.py:326-376 | for a rule with exactly one method condition: removing it and restoring with given methods yields a permutation of the normalised original list if and only if those methods are the ones the removed condition stood for |
| `AlbRule.RoundTrip` | knowledge_commons_profiles/cron/monitor_website.py:715-728 | with the methods the monitor itself read beforehand, that round trip succeeds if and only if the removed condition states its methods in one of the two readable formats |
| `AlbRule.RoundTripWithDefault` | knowledge_commons_profiles/cron/monitor_website.py:716-717 | when the methods could not be read (the default is used), it succeeds if and only if the rule restricted to GET and POST in the first place |
| `AlbRule.NewFormatKept` | knowledge_commons_profiles/cron/monitor_website.py:296-305 | a condition with a config member keeps its field and the first member whose key ends in "Config", nothing else |
| `AlbRule.OldFormatConverted` | knowledge_commons_profiles/cron/monitor_website.py:307-320 | each of the five old-format fields gets its values under its own config name |
| `AlbRule.OtherFormatKept` | knowledge_commons_profiles/cron/monitor_website.py:322-323 | any other condition is left alone |
| `AlbRule.MethodsRead` | knowledge_commons_profiles/cron/monitor_website.py:715-726 | the methods read are those of the first method condition, in either format; without one, GET and POST |
| `MonitorRuns.RestartIsSafe` | knowledge_commons_profiles/cron/monitor_website.py:647-690 | a restart from any recoverable world ends in a safe state, whatever the load balancer answers |
| `MonitorRuns.TickIsSafe` | knowledge_commons_profiles/cron/monitor_website.py:748-776 | every loop pass keeps safety: restriction missing implies phase ACTIVATED and an S3 record with the same time and methods; a record left while the restriction is present is at least ACTIVATION_DURATION old |
| `MonitorRuns.EveryRunIsSafe` | knowledge_commons_profiles/cron/monitor_website.py:602-776 | safety holds throughout every run of loop passes and restarts, in any order, with S3 deletes and load-balancer calls failing at will |
| `MonitorRuns.SafeExactlyWhenServed` | knowledge_commons_profiles/cron/monitor_website.py:602-776 | with S3 failing at will too, a run from a recoverable world is safe after each of its events if and only if the put of each activation and the get of each restart during an outage work |
| `MonitorRuns.StepIsSafeExactly` | knowledge_commons_profiles/cron/monitor_website.py:493-500 | one step keeps safety if and only if it is no activation whose put fails, and no restart during an outage whose get fails |
| `MonitorRuns.OutageStep` | knowledge_commons_profiles/cron/monitor_website.py:602-690 | while the restriction is off, a step puts it back if and only if the recorded activation is ACTIVATION_DURATION old and the calls of that step succeed; otherwise rule, record and phase stay as they are |
| `MonitorRuns.OutageKeepsRecord` | knowledge_commons_profiles/cron/monitor_website.py:602-690 | over any stretch of a run in which the restriction stays off, the record and the rule never change, restarts included |
| `MonitorRuns.OutageEnds` | knowledge_commons_profiles/cron/monitor_website.py:602-690 | once one loop pass or restart falls ACTIVATION_DURATION after the recorded activation with its calls succeeding, the restriction is back |
| `MonitorRuns.StaleRecordIsHarmless` | knowledge_commons_profiles/cron/monitor_website.py:602-690 | a record left behind by a failed delete: a restart never touches the rule; it waits out the grace period if and only if it can read the rule, and otherwise resumes the recorded activation, which the next loop pass ends if and only if that can read the rule; the record goes if and only if reading and deleting both work |
| `MonitorRuns.OnlyActivationsRemove` | knowledge_commons_profiles/cron/monitor_website.py:698-745 | a step takes the restriction off if and only if it is an activation |
| `MonitorRuns.ActivationsAreSpaced` | knowledge_commons_profiles/cron/monitor_website.py:602-644 | any two activations of a run are at least ACTIVATION_DURATION apart, across restarts; with no restart between them, at least ACTIVATION_DURATION + GRACE_PERIOD_DURATION |
| `MonitorRuns.FailuresAreTheStreak` | knowledge_commons_profiles/cron/monitor_website.py:693-708 | in the monitoring phase the counter equals the number of failed checks the run ends with, all made by the same process in that phase |
| `MonitorRuns.ActivationNeedsStreak` | knowledge_commons_profiles/cron/monitor_website.py:706-728 | an event of a run is an activation if and only if it completes at least SITE_DOWN_THRESHOLD such checks in a row and the load balancer lets the removal through |
| `MonitorRuns.StreakIsFailedChecks` | knowledge_commons_profiles/cron/monitor_website.py:698-708 | each of the last so many events of the run really is a failed check made in the monitoring phase |
| `MonitorSteps.WatchStep` | knowledge_commons_profiles/cron/monitor_website.py:693-745 | a monitoring pass in full: a good check clears the count, a failed one (or test mode) adds to it; the second in a row, and no earlier one, takes the restriction off if describing and modifying the rule work, remembering time and methods in process and record |
| `MonitorSteps.ActivatedStep` | knowledge_commons_profiles/cron/monitor_website.py:602-628 | an activated pass in full: the restriction is put back, the process cleared and the grace period begun if and only if 3600 seconds have passed and the calls work; else nothing changes |
| `MonitorSteps.GraceStep` | knowledge_commons_profiles/cron/monitor_website.py:631-644 | a pass in the grace period returns to monitoring with no failures if and only if 300 seconds have passed; else nothing changes |
| `MonitorSteps.RestartStep` | knowledge_commons_profiles/cron/monitor_website.py:647-690 | a restart in full: afresh without a record of this rule, ending an expired activation when the calls work, resuming it otherwise |
| `MonitorSteps.GraceEnds` | knowledge_commons_profiles/cron/monitor_website.py:631-644 | every grace period ends: once a pass falls 300 seconds after its start, with no restart between, the site is watched again by then |
| `MonitorSteps.ActivationEnds` | knowledge_commons_profiles/cron/monitor_website.py:602-628 | every activation ends: once a pass falls 3600 seconds after it with its calls working, the grace period has begun, whatever the rule and the record are |
| `MonitorSteps.GraceWaits` | knowledge_commons_profiles/cron/monitor_website.py:631-644 | until the site is watched again the process waits with its fields unchanged |
| `MonitorSteps.TimePasses` | knowledge_commons_profiles/cron/monitor_website.py:763-776 | the clock of a run is the start plus the time its steps take |
| `MonitorRuns.OtherConditionsKept` | knowledge_commons_profiles/cron/monitor_website.py:326-376 | in every run, reliable or not, the conditions other than the restriction never change, up to normalisation |
| `MonitorRuns.EveryRunIsFaithful` | knowledge_commons_profiles/cron/monitor_website.py:715-741 | when the methods can be read at each step, whenever the restriction is present in a run the rule is a permutation of the normalised original rule; while it is missing, record and rule can rebuild it |
| `MonitorRuns.OrphanedForever` | knowledge_commons_profiles/cron/monitor_website.py:647-656 | a missing restriction with no record and no activated process is never restored by any run |
| `MonitorRuns.UnsavedActivation` | knowledge_commons_profiles/cron/monitor_website.py:728-741 | an activation whose S3 put fails, followed by a restart, ends in that state if and only if no older record of this rule was left in S3 |
| `MonitorRuns.UnreadOutageIsForgotten` | knowledge_commons_profiles/cron/monitor_website.py:493-501 | a restart during an outage whose S3 get fails watches the site as if the restriction were there, the record still in S3 |
| `MonitorRuns.ForgottenUntilRead` | knowledge_commons_profiles/cron/monitor_website.py:647-656 | that state, rule and record lasts through a run if and only if no restart in it reads a record of this rule |
| `MonitorProcess.Outside.ModifyRule` | knowledge_commons_profiles/cron/monitor_website.py:366-376 | replaces the conditions exactly when the call works |
| `MonitorProcess.Outside.PutRecord` | knowledge_commons_profiles/cron/monitor_website.py:443-481 | stores the record exactly when the S3 put works |
| `MonitorProcess.Outside.DeleteRecord` | knowledge_commons_profiles/cron/monitor_website.py:510-526 | removes the record exactly when the S3 delete works |
| `MonitorProcess.Process.constructor` | knowledge_commons_profiles/cron/monitor_website.py:186-199 | a process starts in MONITORING with nothing remembered |
| `MonitorProcess.Process.RemoveHttpMethodRestriction` | knowledge_commons_profiles/cron/monitor_website.py:326-376 | its success and the rule it leaves are those of the state machine, also when there is nothing to remove |
| `MonitorProcess.Process.RestoreHttpMethodRestriction` | knowledge_commons_profiles/cron/monitor_website.py:529-567 | its success and the rule it leaves are those of the state machine; an already present restriction counts as success |
| `MonitorProcess.Process.CheckActivationTimeout` | knowledge_commons_profiles/cron/monitor_website.py:602-628 | the fields and the world after it are those of the activation-timeout transition |
| `MonitorProcess.Process.CheckGracePeriod` | knowledge_commons_profiles/cron/monitor_website.py:631-644 | the fields after it are those of the grace-period transition, the world unchanged |
| `MonitorProcess.Process.InitializeStateFromS3` | knowledge_commons_profiles/cron/monitor_website.py:647-690 | a fresh process after it is in the state recovered from S3 |
| `MonitorProcess.Process.HandleSiteUp` | knowledge_commons_profiles/cron/monitor_website.py:693-695 | resets the failure count and nothing else |
| `MonitorProcess.Process.ReadOriginalMethods` | knowledge_commons_profiles/cron/monitor_website.py:715-726 | finds the methods of the first method condition, or the default ones |
| `MonitorProcess.Process.HandleSiteDown` | knowledge_commons_profiles/cron/monitor_website.py:698-745 | the fields and the world after it are those of the site-down transition |
| `MonitorProcess.Process.LoopPass` | knowledge_commons_profiles/cron/monitor_website.py:764-773 | one pass of the loop is one tick of the state machine |
| `MonitorProcess.Process.MonitorLoop` | knowledge_commons_profiles/cron/monitor_website.py:748-776 | the whole life of a process is the run of the state machine it should be, and safe when started in a recoverable world with a reliable bucket |
| `SortKeys.MyCmp` | knowledge_commons_profiles/citeproc/model.py:495-521 | the comparator loop with its early returns is the lexicographic comparison over columns |
| `Strings.ParseForms` | knowledge_commons_profiles/citeproc/model.py:506-510 | `int` accepts a plus sign and single underscores between digits, and no other underscore |
| `Strings.StripsSpaces` | knowledge_commons_profiles/citeproc/model.py:506-510 | spaces around a text change neither its strip nor what `int` makes of it |
| `Strings.LessAtDifference` | knowledge_commons_profiles/citeproc/model.py:512-514 | texts are ordered by their first different character, a beginning before the whole |
| `SortKeys.ColumnTransitivity` | knowledge_commons_profiles/citeproc/model.py:499-514 | on a column of keys the comparison is transitive if and only if no text lies, as text, between two of its integers the wrong way round |
| `SortKeys.StraddleCycles` | knowledge_commons_profiles/citeproc/model.py:506-514 | any such text closes a cycle, so the condition shuts out every failing column and no other |
| `SortKeys.HomogeneousColumn` | knowledge_commons_profiles/citeproc/model.py:506-510 | a column of integers only, or of no integers, meets the condition |
| `SortKeys.MixedColumnCycles` | knowledge_commons_profiles/citeproc/model.py:506-514 | the concrete failing column: 9 < 10 < "1x" < 9 |
| `SortKeys.ComparatorIsPreorder` | knowledge_commons_profiles/citeproc/model.py:495-521 | over any number of columns that meet the condition, in any directions, the comparator is a total preorder |
| `SortKeys.RowTransitivity` | knowledge_commons_profiles/citeproc/model.py:495-521 | over any number of columns the comparator is transitive on a set of rows if and only if no three of them form a cycle: in the first column that tells them apart a text lies between two integers the wrong way round, and, if the integers are equal, the later columns do not put their rows the other way round |
| `SortKeys.ConsistentIsAcyclic` | knowledge_commons_profiles/citeproc/model.py:495-521 | rows whose columns each meet the condition form no such cycle |
| `SortKeys.MissingComesLast` | knowledge_commons_profiles/citeproc/model.py:515-518 | among rows tied on the columns before it, one that lacks a key comes after one that has it, in either direction |
| `SortKeys.BibliographySort` | knowledge_commons_profiles/citeproc/model.py:488-534 | whenever the rows form no such cycle, sorting gives an ordered, stable permutation of the items, with missing keys last within every tie |
| `SortKeys.BibliographyReads` | knowledge_commons_profiles/citeproc/model.py:495-524 | in plain terms: of two items of the sorted bibliography that are alike in all columns before some column, the first one's key there is not missing before a present one, and is at most (at least, when descending) the other's: integers by value, other texts by lower case |
| `SortKeys.BibliographySortUnique` | knowledge_commons_profiles/citeproc/model.py:523-524 | any stable sort by this comparator gives that same bibliography, so nothing depends on how the sort works |
| `Sorting.SortedIsStable` | knowledge_commons_profiles/citeproc/model.py:523 | for every total preorder on the elements, `sorted` gives an ordered list in which ties keep their order |
| `Sorting.StableSortUnique` | knowledge_commons_profiles/citeproc/model.py:523 | two lists that are both stable ordered arrangements of the same elements are equal |
| `Sorting.StableTransfer` | knowledge_commons_profiles/citeproc/model.py:523 | hence any stable ordered arrangement of a list is the one the model computes |
| `DateKeys.DateKeyValue` | knowledge_commons_profiles/citeproc/source/__init__.py:123-127 | from year -10000 on the key is a numeral whose value carries year, month and day; it has nine digits up to year 89999 |
| `DateKeys.DatesInOrder` | knowledge_commons_profiles/citeproc/source/__init__.py:123-127 | for all years, two dates compare chronologically if and only if their years differ, or the year is at least -10000, or they are the same date |
| `DateKeys.DateTextInOrder` | knowledge_commons_profiles/citeproc/source/__init__.py:123-127 | for all years, text order of two keys is chronological if and only if an arithmetical condition on their widths and leading digits holds; different dates have different keys |
| `DateKeys.DateStringsInOrder` | knowledge_commons_profiles/citeproc/source/__init__.py:123-127 | for years -10000..89999 it always holds |
| `DateKeys.WhensInOrderExactly` | knowledge_commons_profiles/citeproc/source/__init__.py:152-155 | for all years, two dates or ranges compare chronologically if and only if the beginnings (or, when these agree, the ends) meet those conditions |
| `DateKeys.WhensInOrder` | knowledge_commons_profiles/citeproc/source/__init__.py:152-155 | in that range dates and date ranges mixed in one column compare chronologically, although a range does not read as an integer |
| `DateKeys.DateColumnConsistent` | knowledge_commons_profiles/citeproc/source/__init__.py:123-155 | so a column mixing them never makes the comparator inconsistent |
| `DateKeys.OpenRangeKey` | knowledge_commons_profiles/citeproc/source/__init__.py:152-155 | a range without an end is keyed as if it ended in the year 0 |
| `DateKeys.FarYearsMisplaced` | knowledge_commons_profiles/citeproc/source/__init__.py:127 | a date after year 89999, of any number of digits, compares chronologically with a range inside the nine-digit years if and only if its number does not begin with less than that of the range |
| `DateKeys.FirstFarYear` | knowledge_commons_profiles/citeproc/source/__init__.py:127 | a concrete pair that goes wrong: the year 90000 and a range from 1 January of year 1 |
| `Rendering.RenderFollows` | knowledge_commons_profiles/citeproc/model.py:836-840 | rendering any element only lengthens the suppression list, by exactly what was substituted, and shows no variable that is on it |
| `Rendering.RenderEachFollows` | knowledge_commons_profiles/citeproc/model.py:640-651 | the same for the children of any element, one after another |
| `Rendering.SubstitutedOnce` | knowledge_commons_profiles/citeproc/model.py:1516-1541 | in one entry, once a `cs:text` of a variable has served as substitute, no `cs:text` of that variable contributes output again, through groups, choices and macros |
| `Rendering.HiddenValue` | knowledge_commons_profiles/citeproc/model.py:836-857 | rendering with a suppressed variable does not depend on its text, unless the tree reads it past the list: as a number, as the short form of another variable, as the pages behind `page-first`, for the plural of a label, or in an is-numeric condition |
| `Rendering.SuppressedValueIsHidden` | knowledge_commons_profiles/citeproc/model.py:1516-1541 | after a substitution the rest of the entry comes out the same whatever the text of the substituted variable is, with the same five exceptions |
| `Rendering.ConditionsReadSuppressed` | knowledge_commons_profiles/citeproc/model.py:1697-1703 | one exception at work: two texts of a suppressed variable give different output under an is-numeric condition if and only if exactly one of them looks numeric |
| `Rendering.NumbersReadSuppressed` | knowledge_commons_profiles/citeproc/model.py:1094-1106 | a `cs:number` of a suppressed variable gives different output for two texts if and only if it formats them differently |
| `Rendering.LabelsReadSuppressed` | knowledge_commons_profiles/citeproc/model.py:1547-1596 | a contextual label gives different output for two texts of a suppressed variable if and only if exactly one holds several numbers and singular and plural differ |
| `Rendering.UsesIsLogged` | knowledge_commons_profiles/citeproc/model.py:1516-1541 | a variable goes on the list while an element renders if and only if, somewhere in it, names without names pick a `cs:text` of that variable as their first child that shows something |
| `Rendering.ShownUnlessUsed` | knowledge_commons_profiles/citeproc/model.py:836-857 | after any part of an entry, a `cs:text` of a variable shows something if and only if it has something to show and that part did not use a `cs:text` of it as a substitute |
| `Rendering.SuppressedGroupVanishes` | knowledge_commons_profiles/citeproc/model.py:1603-1624 | a group all of whose variables have been suppressed, directly or inside groups, choices, macros and empty names, disappears together with its fixed texts, and leaves the list alone |
| `Rendering.SubstitutedNamesReappear` | knowledge_commons_profiles/citeproc/model.py:1516-1535 | where the code departs from CSL: for all styles and lists, names shown as the substitute of other names are shown again by the same `cs:names` later, in their own format; they come out as they did if and only if they have a `cs:name` or the parent's format, which nameless ones are given as substitutes, makes the same text of them |
| `Rendering.OneRoleReappears` | knowledge_commons_profiles/citeproc/model.py:1200-1226 | for names of one role: if and only if they have a `cs:name` or the two formats agree on the people in that role |
| `Rendering.EditorComesOutLonger` | knowledge_commons_profiles/citeproc/model.py:1520-1524 | a concrete case: an editor standing in by family name is shown again at full length |
| `Rendering.MacroSubstituteReappears` | knowledge_commons_profiles/citeproc/model.py:1537-1541 | where the code departs from CSL: after a macro has stood in for missing names, a `cs:text` with something to show is suppressed if and only if the macro itself used a `cs:text` of that variable as a substitute |
| `Rendering.TitleComesOutTwice` | knowledge_commons_profiles/citeproc/model.py:1537-1541 | a concrete case of it: a title standing in for the author by way of a macro is shown again |
| `RenderingSteps.ChooseRendersFirstMet` | knowledge_commons_profiles/citeproc/model.py:1637-1675 | a choice renders the first branch all of whose tests hold, or at least one, or none, as its match says (counted), and nothing when there is no such branch |
| `RenderingSteps.TestsMean` | knowledge_commons_profiles/citeproc/model.py:1677-1717 | when the tests of type, variable, numeric text, uncertain date and position hold, in terms of the item's data |
| `RenderingSteps.LocatorTestMeans` | knowledge_commons_profiles/citeproc/model.py:1718-1722 | a locator test holds when the locator's label is the word with hyphens as spaces |
| `RenderingSteps.NumericMeans` | knowledge_commons_profiles/citeproc/model.py:1695-1703 | a text looks numeric if and only if it is letters, digits and letters, perhaps with a final line feed |
| `RenderingSteps.VariableShows` | knowledge_commons_profiles/citeproc/model.py:836-857 | what a `cs:text` shows of each kind of variable: plain, page, citation number, locator; it fails when the item lacks it |
| `RenderingSteps.ShortFormShows` | knowledge_commons_profiles/citeproc/model.py:842-845 | a short form is the short variable when the item has it, otherwise the variable itself |
| `RenderingSteps.LocatorRange` | knowledge_commons_profiles/citeproc/model.py:851-853 | a range in a locator is shown with an en dash |
| `RenderingSteps.NumberShows` | knowledge_commons_profiles/citeproc/model.py:1094-1106 | what a `cs:number` shows; a hyphenated variable other than page-first is never found |
| `RenderingSteps.LabelShows` | knowledge_commons_profiles/citeproc/model.py:1547-1596 | a label is plural always, never, or if and only if its variable holds a number, something else, and a number |
| `RenderingSteps.LocatorLabelShows` | knowledge_commons_profiles/citeproc/model.py:1547-1596 | the same for locators, under the locator's own label |
| `RenderingSteps.NumberOfHasNoLabel` | knowledge_commons_profiles/citeproc/model.py:1584-1596 | a `number-of-` variable the item has makes its label fail |
| `RenderingSteps.WhatCallsVariables` | knowledge_commons_profiles/citeproc/model.py:806-811 | which elements call a variable, kind by kind |
| `RenderingSteps.GroupShowsWhen` | knowledge_commons_profiles/citeproc/model.py:1603-1624 | a group joins its texts if and only if some child has a text and, when any child calls a variable, one that does; otherwise it fails |
| `RenderingSteps.MacroShows` | knowledge_commons_profiles/citeproc/model.py:640-662 | a macro shows the texts of its body run together, within its affixes |
| `RenderingSteps.EachConcat` | knowledge_commons_profiles/citeproc/model.py:640-651 | children are rendered from left to right, each with the list the ones before it left |
| `RenderingSteps.EachOfOne` | knowledge_commons_profiles/citeproc/model.py:640-651 | a single child gives what it gives alone |
| `RenderingSteps.JoinLast` | knowledge_commons_profiles/citeproc/model.py:353-360 | joined texts have the delimiter between each and the next, in order |
| `RenderingSteps.RolesConcat` | knowledge_commons_profiles/citeproc/model.py:1200-1237 | roles are written in the order they are named |
| `RenderingSteps.SubstitutePassesOver` | knowledge_commons_profiles/citeproc/model.py:1518-1531 | a substitute that shows nothing is passed over in favour of the next |
| `RenderingSteps.NothingToSubstitute` | knowledge_commons_profiles/citeproc/model.py:1182-1198 | names without names and without substitutes show nothing |
| `RenderingSteps.SilentItemLeavesNothing` | knowledge_commons_profiles/citeproc/model.py:700-707 | an item that shows nothing leaves no entry, wherever it stands |
| `RenderingSteps.EntryOfEachItem` | knowledge_commons_profiles/citeproc/model.py:700-707 | otherwise there is one entry per item, in order: what the item shows from an empty list, within the affixes of the layout |
| `LayoutProcess.Layout.RenderNode` | knowledge_commons_profiles/citeproc/model.py:813-857 | rendering an element in place, with the list as a field, gives the text and the list of the recursive renderer |
| `LayoutProcess.Layout.RenderNames` | knowledge_commons_profiles/citeproc/model.py:1151-1198 | names are written in the format given, their own or the parent's; without names the substitute is taken |
| `LayoutProcess.Layout.RenderChildren` | knowledge_commons_profiles/citeproc/model.py:640-651 | the loop over the children joins exactly the texts shown, skipping those that fail |
| `LayoutProcess.Layout.ProcessGroup` | knowledge_commons_profiles/citeproc/model.py:1603-1624 | the loop with its two flags shows the group exactly when no child calls a variable or some child that does shows a text |
| `LayoutProcess.Layout.RenderChoose` | knowledge_commons_profiles/citeproc/model.py:1637-1675 | only the first branch whose condition holds for the item is rendered |
| `LayoutProcess.Layout.SubstituteNames` | knowledge_commons_profiles/citeproc/model.py:1517-1535 | the first child that shows something is the substitute and goes on the list; a child without `cs:name` is rendered in the parent's format |
| `LayoutProcess.Layout.AddToRepressedList` | knowledge_commons_profiles/citeproc/model.py:1537-1541 | appends the child's variable under its element name, keeping the rest of the list |
| `LayoutProcess.Layout.RenderBibliography` | knowledge_commons_profiles/citeproc/model.py:700-707 | every entry is what its own item gives from an empty list, whatever was rendered before it |
| `Roman.Romanize` | knowledge_commons_profiles/citeproc/model.py:1839-1843 | the divmod loop gives the numeral that reads back as the number, for exactly the numbers from 0 on |
| `Roman.RomanByPlaces` | knowledge_commons_profiles/citeproc/model.py:1822-1843 | the numeral is the thousands as Ms followed by one group of letters per decimal digit |
| `Roman.ReadsBack` | knowledge_commons_profiles/citeproc/model.py:1822-1843 | reading by the subtractive rule returns the number if and only if it is not negative |
| `Roman.RomanInjective` | knowledge_commons_profiles/citeproc/model.py:1822-1843 | different numbers have different numerals |
| `Roman.RomanShape` | knowledge_commons_profiles/citeproc/model.py:1824-1838 | D, L and V occur at most once; C, X and I never four times in a row; each of CM, CD, XC, XL, IX and IV at most once |
| `PageRange.FindCommon` | knowledge_commons_profiles/citeproc/model.py:757-765 | the counting loop gives the length of the common front, and 1 when a page is empty |
| `PageRange.FormatLastPage` | knowledge_commons_profiles/citeproc/model.py:756-789 | the method follows the formats case by case, Python slicing and the error of an unknown format included |
| `PageRange.Lossless` | knowledge_commons_profiles/citeproc/model.py:767-789 | for every format and all strings, the last page can be restored if and only if the pages are equally long, or the last is the longer one and the format leaves it alone |
| `PageRange.WholePage` | knowledge_commons_profiles/citeproc/model.py:783-784 | `expanded`, and no format, leave the last page whole; an unknown format fails |
| `PageRange.MinimalDropsShared` | knowledge_commons_profiles/citeproc/model.py:785-786 | `minimal` drops exactly what the pages share |
| `PageRange.MinimalTwoLeavesTwo` | knowledge_commons_profiles/citeproc/model.py:787-788 | `minimal-two` drops it too but leaves the places of the first page's last two characters |
| `PageRange.ChicagoMeans` | knowledge_commons_profiles/citeproc/model.py:768-782 | `chicago` in numbers: whole below 100, at the hundreds, and from four characters on without two shared; `minimal` for 1 to 9 over a hundred, else `minimal-two` |
| `PageRange.ChicagoWithoutNumber` | knowledge_commons_profiles/citeproc/model.py:769-771 | a first page without a digit leaves the last page whole |
| `PageRange.MinimalIsShortest` | knowledge_commons_profiles/citeproc/model.py:785-786 | `minimal` keeps the shortest restorable ending |
| `PageRange.MinimalTwoIsShortest` | knowledge_commons_profiles/citeproc/model.py:787-788 | `minimal-two` keeps at least two characters, and the shortest restorable ending that does |
| `PageRange.MinimalTwoFromOneDigit` | knowledge_commons_profiles/citeproc/model.py:787-789 | after a one-character first page it keeps only the last character of a longer last page, which cannot be restored |
| `Collisions.FindCollisionGroups` | knowledge_commons_profiles/newprofile/username_collisions.py:23-46 | the groups are exactly the lower-cased names with more than one row, each with all its rows by id |
| `Collisions.NextFreeSuffixedName` | knowledge_commons_profiles/newprofile/username_collisions.py:49-69 | the search ends within one more than the number of taken names tries with the old name as it was written, an underscore and the smallest numeral that is free |
| `Collisions.Pigeonhole` | knowledge_commons_profiles/newprofile/username_collisions.py:64-69 | n - 1 failed tries use up n - 1 different taken names |
| `Collisions.SmallestFreeUnique` | knowledge_commons_profiles/newprofile/username_collisions.py:60-62 | there is only one such name |
| `Collisions.RenameMembers` | knowledge_commons_profiles/newprofile/username_collisions.py:100-103 | every member of a group but the oldest is renamed, each to the smallest suffix free of all existing names and all names given so far |
| `Collisions.PlanRenames` | knowledge_commons_profiles/newprofile/username_collisions.py:72-105 | the plan renames the non-oldest rows of every colliding name, in sorted order of the names, each to the first name free at that point |
| `Collisions.EntryNamedAfter` | knowledge_commons_profiles/newprofile/username_collisions.py:49-69 | every entry's new name is the old one as it was written, an underscore and a positive numeral without leading zero, free when its turn came, while every smaller numeral was taken |
| `Collisions.NewsAre` | knowledge_commons_profiles/newprofile/username_collisions.py:95-103 | the names taken by a part of a plan are the lower-cased new names of its entries |
| `Collisions.SmallestFreeIsNamedAfter` | knowledge_commons_profiles/newprofile/username_collisions.py:60-69 | the same of any name the search may return |
| `Collisions.VictimsExactly` | knowledge_commons_profiles/newprofile/username_collisions.py:98-103 | a row is to be renamed if and only if an older row has its lower-cased name |
| `Collisions.PlanResolves` | knowledge_commons_profiles/newprofile/username_collisions.py:72-80 | for rows with distinct ids, applying the plan leaves all usernames pairwise distinct up to case |
| `Collisions.KeepersKept` | knowledge_commons_profiles/newprofile/username_collisions.py:77-80 | a row stays unchanged if and only if it is the oldest of its name; rows without a clash are; no id changes |
| `Collisions.ReplanIsEmpty` | knowledge_commons_profiles/newprofile/username_collisions.py:85-88 | planning again on the result gives an empty plan |
| `Collisions.OneEntryEach` | knowledge_commons_profiles/newprofile/username_collisions.py:85-88 | no profile is renamed twice |
| `Collisions.PlanUnique` | knowledge_commons_profiles/newprofile/username_collisions.py:92-105 | there is only one plan meeting this description |
| `StringOrder.SortedKeys` | knowledge_commons_profiles/newprofile/username_collisions.py:98 | `sorted` over a set of names lists each once, in ascending order |
| `RateLimit.SharedCache.Set` | knowledge_commons_profiles/cilogon/sync_apis/sync_class.py:28 | setting the counter starts its timeout afresh and touches no other key |
| `RateLimit.Limited` | knowledge_commons_profiles/cilogon/sync_apis/sync_class.py:17-30 | a refused call leaves the cache unchanged; an accepted one raises its counter and renews its timeout |
| `RateLimit.CounterIsChain` | knowledge_commons_profiles/cilogon/sync_apis/sync_class.py:17-30 | for every sequence of calls the cached counter is the length of the current chain of accepted calls, each less than `period` after the one before |
| `RateLimit.AcceptedIffChainShort` | knowledge_commons_profiles/cilogon/sync_apis/sync_class.py:23-28 | a call goes through if and only if the chain it would continue has fewer than `max_calls` calls |
| `RateLimit.PauseSuffices` | knowledge_commons_profiles/cilogon/sync_apis/sync_class.py:21-28 | a call made `period` or more after the last accepted one is accepted |
| `RateLimit.WindowBound` | knowledge_commons_profiles/cilogon/sync_apis/sync_class.py:12-34 | no window of length `period` contains more than `max_calls` accepted calls of one function name, summed over all services |
| `RateLimit.SteadyCallerIsRefused` | knowledge_commons_profiles/cilogon/sync_apis/sync_class.py:28 | the limiter is stricter than a window: a caller that never pauses for a whole period is refused after `max_calls` calls, however slow |
| `Reserved.UsernameIsReserved` | knowledge_commons_profiles/cilogon/reserved_usernames.py:67-82 | true exactly when the normalised name is not empty and some non-empty term blocks it |
| `Reserved.MatchesIffPiecesFit` | knowledge_commons_profiles/cilogon/reserved_usernames.py:48-64 | a term matches if and only if its `*`-separated pieces occur in order and without overlap, the first at the start, with no newline skipped |
| `Reserved.ReservedIffPiecesFit` | knowledge_commons_profiles/cilogon/reserved_usernames.py:67-82 | the verdict on a username, restated without the regular expression |
| `Reserved.SeparatorsDoNotMatter` | knowledge_commons_profiles/cilogon/reserved_usernames.py:40-45 | inserting or dropping a space, hyphen or underscore, in the username or in a term, never changes the verdict |
| `Reserved.NormalizeKeepsRest` | knowledge_commons_profiles/cilogon/reserved_usernames.py:43-45 | apart from spaces, hyphens and underscores a name is compared as its lower case |
| `Reserved.CaseDoesNotMatter` | knowledge_commons_profiles/cilogon/reserved_usernames.py:43-45 | neither does changing case on either side |
| `Reserved.TrailingCharactersDoNotHelp` | knowledge_commons_profiles/cilogon/reserved_usernames.py:61-64 | a reserved username stays reserved whatever is appended |
| `Reserved.PlainTermIsPrefix` | knowledge_commons_profiles/cilogon/reserved_usernames.py:61-64 | a term without wildcard blocks exactly the names that begin with it |
| `Reserved.WildTermIsContainment` | knowledge_commons_profiles/cilogon/reserved_usernames.py:61-64 | `*word` and `*word*` block exactly the names that contain the word, beginning on their first line |
| `ReservedTerms.ParseReservedTerms` | knowledge_commons_profiles/cilogon/reserved_usernames.py:107-129 | the loop gives the terms of the text's lines, stored as a dict stores them |
| `ReservedTerms.ParsedIsDeduplicated` | knowledge_commons_profiles/cilogon/reserved_usernames.py:111-115 | the parsed patterns are pairwise distinct, at their first-seen positions, each with its last-seen note, and none is lost |
| `ReservedTerms.LineReadsBack` | knowledge_commons_profiles/cilogon/reserved_usernames.py:118-127 | a well-formed term written on its line reads back as itself |
| `ReservedTerms.LineGivesTerm` | knowledge_commons_profiles/cilogon/reserved_usernames.py:118-127 | a line gives the stripped text before its first bar as pattern and the stripped rest as note |
| `ReservedTerms.LinesIgnored` | knowledge_commons_profiles/cilogon/reserved_usernames.py:118-120 | blank lines and comments, spaces before them or not, give nothing |
| `ReservedTerms.SplitAtBreak` | knowledge_commons_profiles/cilogon/reserved_usernames.py:117 | lines end at the breaks of `splitlines`, and only there |
| `ReservedTerms.SplitAtReturn` | knowledge_commons_profiles/cilogon/reserved_usernames.py:117 | a carriage return with a line feed is one break |
| `ReservedTerms.LastLine` | knowledge_commons_profiles/cilogon/reserved_usernames.py:117 | the last line needs no break |
| `ReservedTerms.LatinBreaks` | knowledge_commons_profiles/cilogon/reserved_usernames.py:117 | which Latin-1 characters break a line |
| `Strings.AsciiSpaces` | knowledge_commons_profiles/cilogon/reserved_usernames.py:118-127 | which ASCII characters are stripped |
| `Strings.LowerLetters` | knowledge_commons_profiles/cilogon/reserved_usernames.py:43-45 | the capital letters and their lower case |
| `ReservedTerms.SerializedMeans` | knowledge_commons_profiles/cilogon/reserved_usernames.py:139-142 | the text has one line per term: the pattern, and space, bar, space and the note when there is one |
| `ReservedTerms.SplitJoined` | knowledge_commons_profiles/cilogon/reserved_usernames.py:117 | non-empty lines joined by line feeds split into the same lines |
| `ReservedTerms.ParseSerialized` | knowledge_commons_profiles/cilogon/reserved_usernames.py:132-142 | any list of well-formed terms with distinct patterns survives writing and parsing |
| `ReservedTerms.RoundTrip` | knowledge_commons_profiles/cilogon/reserved_usernames.py:107-142 | for every text, parse(serialize(parse(text))) = parse(text) |
| `MixedStrings.AddKeepsText` | knowledge_commons_profiles/citeproc/string.py:5-72 | adding any two of the string kinds concatenates their texts and keeps what is protected in either |
| `MixedStrings.AddKeepsParts` | knowledge_commons_profiles/citeproc/string.py:5-72 | but for two plain strings the non-empty parts, kinds included, stand side by side in the sum |
| `MixedStrings.JoinText` | knowledge_commons_profiles/citeproc/string.py:132-133 | the text of a non-empty join is the texts of the items with the delimiter between them |
| `MixedStrings.ParseString` | knowledge_commons_profiles/citeproc/source/json.py:49-69 | the reading loop, with its exit by ValueError, gives the segments of the text |
| `MixedStrings.ReadsUntagged` | knowledge_commons_profiles/citeproc/source/json.py:54-68 | the segments concatenate to the text with exactly the closed tag pairs removed if and only if no text stands directly before an unclosed start tag (it comes out twice); the protected segments are exactly the tagged ranges |
| `MixedStrings.ReadsWritten` | knowledge_commons_profiles/citeproc/source/json.py:49-69 | reading inverts writing: segments written with each protected one between the tags come back exactly as they were, for any number of them |
| `MixedStrings.ReadsOnePair` | knowledge_commons_profiles/citeproc/source/json.py:54-64 | one step: a start tag of any case and the end tag after it, neither occurring earlier, give the piece before, the protected piece between, and then what the rest gives |
| `MixedStrings.ReadsUnclosed` | knowledge_commons_profiles/citeproc/source/json.py:56-69 | a start tag that no end tag follows gives the piece before it and then that piece and everything behind it |
| `MixedStrings.ReadsRest` | knowledge_commons_profiles/citeproc/source/json.py:65-69 | a rest without start tag is one regular piece |
| `MixedStrings.UnclosedTagRepeats` | knowledge_commons_profiles/citeproc/source/json.py:56-69 | a concrete text that goes wrong: "ab" before a start tag alone comes out twice |
| `MixedStrings.ClosedTagsReadOnce` | knowledge_commons_profiles/citeproc/source/json.py:54-68 | when every start tag has a later end tag nothing is lost or repeated |
| `MixedStrings.NoCaseTagsWellFormed` | knowledge_commons_profiles/citeproc/source/json.py:46-47 | the two tags in use meet what the reader needs of its tags |
| `Works.SortAndGroupWorksByType` | knowledge_commons_profiles/newprofile/works.py:447-503 | grouping fails if and only if some section, listed or not, mixes dated and undated entries; otherwise it gives one sorted section per type, in the order due |
| `Works.OneDatedOneNot` | knowledge_commons_profiles/newprofile/works.py:494-500 | two concrete works that cannot be grouped: a book of 2020 and a book without a date |
| `Works.OrderTypes` | knowledge_commons_profiles/newprofile/works.py:455-473 | the order is the saved types some work has, each once, then the other types alphabetically |
| `Works.CollectSections` | knowledge_commons_profiles/newprofile/works.py:477-492 | the loop files every shown entry, and only those, under its own type in order |
| `Works.SortSections` | knowledge_commons_profiles/newprofile/works.py:494-500 | sorts each section by first year, or fails exactly when some section is mixed |
| `Works.TypeOrderIsComplete` | knowledge_commons_profiles/newprofile/works.py:455-473 | the section headings are exactly the types of the works, each once |
| `Works.SectionsByYear` | knowledge_commons_profiles/newprofile/works.py:494-500 | a sorted section holds the same entries, no year is followed by a greater one, and the entries of each year keep the order they had |
| `Works.GroupedByYear` | knowledge_commons_profiles/newprofile/works.py:494-503 | so does every section of a grouping that succeeds |
| `Works.SectionConcat` | knowledge_commons_profiles/newprofile/works.py:489-492 | a section holds the shown entries of its type in the order of the works |
| `Works.YearOfDate` | knowledge_commons_profiles/newprofile/works.py:327-343 | a date that begins with digits, up to a hyphen, a slash or its end, is filed under that number |
| `Works.NoYearWithoutDigits` | knowledge_commons_profiles/newprofile/works.py:494-500 | a date without a digit counts as undated |
| `Works.DatePartsMean` | knowledge_commons_profiles/newprofile/works.py:331-343 | the segments of a date are what stands between its slashes, without those that have no number |
| `Works.PartsMean` | knowledge_commons_profiles/newprofile/works.py:332-336 | the parts of a segment are the numbers between its hyphens |
| `Works.GroupingConserves` | knowledge_commons_profiles/newprofile/works.py:477-503 | the sections together hold every shown entry with a section exactly as often as it is shown, each in the section of its own type |
| `Works.WhoHasASection` | knowledge_commons_profiles/newprofile/works.py:455-459 | a shown work appears if and only if it has a type title, or some work is titled "Other", under which untitled ones are filed |
| `Works.HeadingsAre` | knowledge_commons_profiles/newprofile/works.py:455-473 | a type has a heading if and only if some work, shown or not, has that title |
| `Works.ShownExactly` | knowledge_commons_profiles/newprofile/utils.py:175-196 | an entry is shown if and only if it is that of a work whose type and id the profile does not say no to, or hidden works are not to be hidden |
| `Works.EntryKeeps` | knowledge_commons_profiles/newprofile/works.py:612-638 | an entry keeps the id of its work, its type or "Other", and the parts of its date |
| `Works.ShownOnly` | knowledge_commons_profiles/newprofile/utils.py:175-196 | nothing appears but works that are not hidden |
| `Works.SavedOrderRespected` | knowledge_commons_profiles/newprofile/works.py:461-471 | every saved type some work has comes before every other, in the order of the filtered list; the others alphabetically |
| `Works.HeadingsAsSaved` | knowledge_commons_profiles/newprofile/works.py:461-471 | the same in terms of the saved list itself: by the position at which a type was first saved |
| `Works.SavedName` | knowledge_commons_profiles/newprofile/works.py:464-466 | a saved name counts as what stands behind the last "order-" in it |
| `RefreshLock.LockCache.AcquireRefreshLock` | knowledge_commons_profiles/cilogon/middleware.py:207-213 | succeeds exactly when no unexpired lock of the user is there, and then puts one with the timeout |
| `RefreshLock.LockCache.ReleaseRefreshLock` | knowledge_commons_profiles/cilogon/middleware.py:215-219 | deletes the user's lock, whoever put it there |
| `RefreshLock.EnterStep` | knowledge_commons_profiles/cilogon/middleware.py:207-213 | entering succeeds if and only if no live lock of the user is there, and sets one for 10 seconds |
| `RefreshLock.LeaveStep` | knowledge_commons_profiles/cilogon/middleware.py:215-219 | leaving removes the request and its user's lock, and nothing else |
| `RefreshLock.RunKeepsLocks` | knowledge_commons_profiles/cilogon/middleware.py:164-197 | in every interleaving whose holders leave before the timeout, every request inside holds its user's lock |
| `RefreshLock.ReleasesOwnLock` | knowledge_commons_profiles/cilogon/middleware.py:196-197 | so when all holders leave before the timeout, a release deletes the releasing request's own lock |
| `RefreshLock.ExclusiveIffStaysWithinTimeout` | knowledge_commons_profiles/cilogon/middleware.py:164-197 | a bound on the time inside guarantees mutual exclusion in all interleavings if and only if it does not exceed the lock's timeout of 10 seconds |
| `RefreshLock.OwnersIffStayWithinTimeout` | knowledge_commons_profiles/cilogon/middleware.py:196-219 | a bound on the time inside guarantees that every release finds the releasing request's own lock, in all interleavings, if and only if it does not exceed the timeout |
| `RefreshLock.TimelyIffStayWithinTimeout` | knowledge_commons_profiles/cilogon/middleware.py:196-219 | and if and only if then it guarantees mutual exclusion among the requests that keep to the timeout: one that overstays frees its successor's lock |

## Left out

- A crash of the monitor between the rule change and the S3 put: the code has no protection there.
- Mail, HTTP and AWS command lines, and S3 objects that hold no proper record or date.
- A condition whose `Field` is not a string counts as one of an unknown field; a method config that is not an object reads as empty.
- Season and literal dates; month and day parts that are not numbers.
- How a variable's text is formatted (text case, fonts, quotes), the parts of a `cs:names` format (labels, et-al, initials), its count form, and the merging of editors with translators.
- The page formats `chicago-15` and `chicago-16`, which the code does not know: they are the format `Unknown`, and raise.
- LayoutProcess.Layout.RenderNode: `cs:date` is not part of the tree, because rendering one overwrites attributes of the shared locale in place, so that entries are not independent there; a term stands as a fixed text, and the error of a label without a plural term is not modelled.
- LayoutProcess.Layout.RenderChoose: the `position` test, which is false throughout a bibliography, is not modelled for citations; `disambiguate` is ignored, as in the code.
- LayoutProcess.Layout.RenderBibliography: a `cs:names` without `cs:name` gets a default one inserted into the style when it first writes people. This shows only where it stands in a substitute and has a substitute of its own holding another nameless one: from then on it no longer takes the format of the names around it.
- Rendering of citations (as opposed to bibliographies), locale files and style lookup.
- Replacing the table of reserved terms in the database by the parsed list.
- Case changes of mixed strings, and the name and date readers beside the tagged-text reader.
- Creators, titles, containers and CSL types of works, the decoding of profile settings, and rendering of the grouped works.
- Limiter calls that overlap between the cache get and the cache set.
- The hard-refresh path, which takes no lock, and the token refresh itself.
- Sign-in, encryption, the broker nonce, maintenance mode, capitalisation of all words, and Django's configuration, admin and templates: foreign calls, or little to prove.
