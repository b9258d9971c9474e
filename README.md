# A verified model of the MACD on-call rota builder

`macd.py` builds a rota of managers on duty ("MACD") from a Doodle availability poll. Each
manager answers every night NO, IFNEEDBE or YES. The `Macd` class holds the poll and three kinds
of side-constraint registered by the caller:

- pairs kept together;
- pairs kept apart;
- managers pinned to nights.

`solve` turns all of this into a boolean CP-SAT model with one variable per (manager, night)
cell:

- exactly `mgrs_per_night` managers per night;
- between `min_nights` and `max_nights` nights per manager;
- no night whose answer falls below `availability_level`;
- equal cells for together-pairs, at most one cell for apart-pairs;
- every pin forced on;
- at most one night in every window of `non_consecutive + 1` nights, except for managers whose
  own pins are too close together.

It then sets two objectives:

- minimise the number of IFNEEDBE answers used;
- when a previous schedule is set, maximise the overlap with it.

`print_managers` and `raw_data` read the solution back out.

This project models that core in Dafny:

| module | file | what it holds |
|---|---|---|
| `Availability` | availability.dfy | the three answers, their values, the cut-off comparison |
| `Lookup` | lookup.dfy | `mgr_lookup` / `night_lookup` as Python builds them (last position wins) |
| `CpModel` | cpmodel.dfy | the solver's vocabulary: cells, linear constraints, objective terms, `Satisfies` |
| `Roster` | roster.dfy | what `solve` reads: the doodle, the nights, the registered constraints, the settings |
| `Exemption` | exemption.dfy | the pin-conflict test, as written and corrected (see Findings) |
| `Rules` | rules.dfy | every constraint group `solve` emits, as functions, and the readable roster properties |
| `Meaning` | meaning.dfy | the emitted constraints hold exactly when the readable properties do |
| `Report` | report.dfy | the lists `print_managers` builds and the `raw_data` table |
| `Objective` | objective.dfy | the two objective terms and what they count |
| `Scheduler` | macd.dfy | class `Macd`: its fields, the registration methods, the emitting loops, `solve`, `print_managers`, `raw_data` |

### The solver is an oracle

CP-SAT is not modelled. `Macd.Solve(reply)` takes the solver's answer as a parameter. Its
precondition is the solver's contract: a reply, when there is one, covers the grid and satisfies
every emitted constraint. `Meaning.EmittedMeaning` proves, for every value of
`non_consecutive`, that satisfying the emitted list is the same as being a roster
(`Rules.Rostered`). A roster has coverage, workloads, cut-offs, pairings and pins
(`Rules.Staffed`), and every manager outside `nonconsexc` is spaced out. The spacing part
applies only when `non_consecutive` is below the number of nights; for a larger gap line 159
emits no window at all. So `Solve` can promise all of this of whatever the solver returns.

### The objectives follow the code

The code calls `Minimize` and then `Maximize` on the same model, with no weighting or
ordering between the two. The second sum is
`shifts[m][n] * prev[m][n]`. So it counts only the cells set in both schedules
(`Objective.StabilityCountsSharedShifts`); agreeing on an empty cell earns nothing. The model
follows the code.

### Python's dictionary order

The pin dictionary `pin` is a `map` plus `pinOrder`, the order in which its keys were first
inserted. `pin.items()` visits the keys in that order. The exemption list `nonconsexc` depends
on it.

## Model

| member | source | states |
|---|---|---|
| Availability.Value | macd.py:8-11 | the enum values: NO is 0, YES is 2, IFNEEDBE the one in between |
| Availability.Below | macd.py:137 | `doodle[m][1][n].value < availability_level.value` |
| Availability.BelowCases | macd.py:137 | the cut-off per threshold: NO excludes nothing, IFNEEDBE excludes only NO, YES excludes NO and IFNEEDBE |
| Availability.BelowIsStrictTotalOrder | macd.py:8-11 | comparing values orders the answers strictly and totally |
| Lookup.Index | macd.py:66-67 | the dict built from a list of names: its keys are exactly the names, each maps to a position holding it, and no later position holds it |
| Lookup.IndexOfDistinct | macd.py:66-67 | with distinct names every name maps back to its own position |
| Lookup.IndexInjective | macd.py:66-67 | two keys share a position only if they are the same name |
| Roster.LookupsInRange | macd.py:66-67 | a looked-up manager or night is a valid row or column and names that row or column |
| Roster.WellFormedLookupInjective | macd.py:66-67 | `mgr_lookup` as built from the poll sends different names to different rows |
| Roster.WithPin | macd.py:103-106 | the state after `pin_to`: the night appended to the manager's list, a new key last in key order |
| Roster.PinKeepsConsistent | macd.py:97-106 | pinning a known manager to a known night keeps every pin known and the key order listing each key once |
| Seqs.MinOf | macd.py:150 | `min` of a non-empty list is at most every element and is one of them |
| CpModel.LineSum | macd.py:131-132 | a run of a manager's row sums to the number of set nights in it |
| CpModel.ColumnSum | macd.py:127 | a night's column sums to the number of managers set on it |
| CpModel.SumOfDistinct | macd.py:163 | over distinct cells a sum counts the set cells |
| CpModel.WeightedAtMostTotal | macd.py:167 | with non-negative weights the weighted sum is at most the total weight |
| CpModel.WeightedReachesTotal | macd.py:167 | when each weight is its own cell's value the weighted sum is the total weight |
| CpModel.WeightedOfZeroOne | macd.py:167 | with 0/1 weights the weighted sum is the plain sum over the cells weighted 1 |
| Exemption.LabelLess | macd.py:149 | Python's order on strings: code point by code point, a proper prefix first |
| Exemption.SortLabels | macd.py:149 | `sorted(ns)` on labels rearranges the pins |
| Exemption.InsertByNight | macd.py:149 | inserting a known night adds it to the pins and keeps them known |
| Exemption.InsertByNightSorted | macd.py:149 | inserting into pins in calendar order keeps calendar order |
| Exemption.SortByNight | macd.py:149 | the corrected sort rearranges the pins into calendar order |
| Exemption.Exempt | macd.py:150 | `len(ns) > 1 and min(differences) <= non_consecutive` on night positions taken in the order given |
| Exemption.ExemptAsWritten | macd.py:149-150 | the test as written: the pins sorted as strings, then `Exempt` |
| Exemption.ExemptByNight | macd.py:149-150 | the corrected test: the pins sorted in calendar order, then `Exempt` |
| Exemption.ExemptUnderAnyOrder | macd.py:147-151 | for a gap of 0 or more, two pins within the gap exempt the manager, whatever order the pins are examined in |
| Exemption.ExemptAsWrittenSound | macd.py:147-151 | the test as written, with the string sort, never misses a close pair |
| Exemption.LabelOrderExemptsDistantPins | macd.py:149-150 | the test as written exempts pins "9/9" and "9/12" at gap 2, though they are 3 nights apart |
| Exemption.ExemptByNightComplete | macd.py:149-151 | the corrected test exempts only for a close pair |
| Exemption.ExemptByNightIffClosePair | macd.py:147-151 | the corrected test exempts exactly when two pins lie within `non_consecutive` nights |
| Rules.PinnedNights | macd.py:148-149 | a manager's pins as `sorted(ns)` leaves them, in string order: the same pins, all known nights |
| Rules.Coverage | macd.py:126-127 | one `sum == mgrs_per_night` constraint per night, over that night's column |
| Rules.Workload | macd.py:130-132 | a lower and an upper bound per manager, over that manager's row |
| Rules.Cutoffs | macd.py:135-138 | a `== 0` constraint for every cell whose answer is below the level, row by row |
| Rules.Pairing | macd.py:141-145 | for each night, the together equalities then the apart bounds |
| Rules.Pins | macd.py:148-154 | each key's pins in key order, each forced to 1 |
| Rules.Exempts | macd.py:149-150 | the test as written for one key, on `PinnedNights` |
| Rules.Exempted | macd.py:147-151 | `nonconsexc`: the positions of the keys whose test holds, in key order |
| Rules.Spacing | macd.py:157-160 | the windows of every manager not in the exemption list |
| Rules.Emitted | macd.py:123-160 | every hard constraint, in the order `solve` adds them |
| Meaning.CoverageMeaning | macd.py:126-127 | the coverage constraints hold iff every night has exactly `mgrs_per_night` managers |
| Meaning.RowSum | macd.py:131-132 | a manager's whole row sums to the nights they work |
| Meaning.WorkloadMeaning | macd.py:130-132 | the workload constraints hold iff every manager works between `min_nights` and `max_nights` nights |
| Meaning.CutoffRowMeaning | macd.py:135-138 | one manager's cut-offs hold iff they work no night whose answer is below the level |
| Meaning.CutoffsMeaning | macd.py:135-138 | the cut-offs hold iff no manager works a night whose answer is below the level |
| Meaning.CutoffRowMembers | macd.py:135-138 | a manager's cut-off row forces exactly that manager's cells whose answer is below the level |
| Meaning.CutoffEmittedExactly | macd.py:135-138 | cell (m, n) is forced to 0 iff manager m's answer for night n is below the level |
| Meaning.CutoffsNeverMention | macd.py:135-138 | the cut-offs of the first k managers force no cell of a later manager |
| Meaning.TogetherOnMeaning | macd.py:142-143 | a night's together constraints hold iff each pair has equal cells that night |
| Meaning.ApartOnMeaning | macd.py:144-145 | a night's apart constraints hold iff no pair both work that night |
| Meaning.PairingMeaning | macd.py:141-145 | the pairing constraints hold iff together pairs always agree and apart pairs never share a night |
| Meaning.PinsOfMeaning | macd.py:153-154 | a manager's pin constraints hold iff every one of their pinned nights is on |
| Meaning.PinsOfHonoured | macd.py:148-154 | a manager's pins are honoured whatever order they were registered in |
| Meaning.PinsStep | macd.py:148-154 | the next key in `pin`'s order adds exactly that manager's pins |
| Meaning.PinsMeaning | macd.py:148-154 | the pin constraints hold iff every pin of every pinned manager is on, exempted or not |
| Meaning.PinsHonouredInKeyOrder | macd.py:148 | walking `pin.items()` in key order reaches every registered pin |
| Meaning.WindowsOfAt | macd.py:159-160 | a manager's s-th window constraint is the window of `non_consecutive + 1` nights starting at night s |
| Meaning.WindowsOfMeaning | macd.py:159-160 | a manager's window constraints hold iff every window holds at most one of their nights |
| Meaning.WindowSumAtMostOne | macd.py:160 | a window holds at most one assigned night iff no two of its nights are both assigned |
| Meaning.WindowsMeanSpaced | macd.py:157-160 | when `non_consecutive` < the number of nights, a manager's windows hold iff any two of their nights are more than `non_consecutive` apart |
| Meaning.SpacingMeaning | macd.py:157-160 | the spacing constraints hold iff every manager not exempted is spaced |
| Meaning.NoWindowsWhenGapCoversAllNights | macd.py:159 | when `non_consecutive` >= the number of nights no spacing constraint is emitted |
| Meaning.WindowsInRange | macd.py:159-160 | every window lies inside the night range and holds `non_consecutive + 1` nights of its manager |
| Meaning.StaffedMeaning | macd.py:126-154 | the coverage, workload, cut-off, pairing and pin constraints hold iff every night is covered, every workload bounded, no below-level night worked, every pairing kept and every pin on |
| Meaning.SpacingGroupMeaning | macd.py:157-160 | the spacing constraints hold iff, when `non_consecutive` is below the number of nights, every manager outside `nonconsexc` is spaced; for a larger gap they are empty |
| Meaning.EmittedMeaning | macd.py:123-160 | for every `non_consecutive`, an assignment satisfies every emitted constraint iff it is staffed and, when windows are emitted, spaced for every manager outside `nonconsexc` |
| Meaning.ExemptedStep | macd.py:147-151 | each key of `pin` is appended to the exemption list exactly when the string-sorted test holds for it |
| Meaning.KeyStep | macd.py:148-154 | one key of the loop appends its pins to the constraints and its manager to `nonconsexc` exactly when the test came out true |
| Meaning.ExemptedWhenPinsClose | macd.py:147-151 | when `mgr_lookup` sends different names to different rows, a pinned manager is exempted iff the string-sorted test holds for their pins, and always when two of their pins lie within `non_consecutive` nights |
| Report.Flag | macd.py:187-190 | an entry is the name, followed by "(!)" exactly when the answer was IFNEEDBE |
| Report.Selected | macd.py:183-190 | the positions of the set entries, every one of them, in ascending order |
| Report.NightLine | macd.py:184-190 | the list for a night: each manager on it, in manager order, flagged |
| Report.ManagerLine | macd.py:195-201 | the list for a manager: each night they work, in calendar order, flagged |
| Report.NightLineIsSelection | macd.py:183-191 | a night's list names exactly the managers on that night, in manager order, each flagged by their answer |
| Report.ManagerLineIsSelection | macd.py:194-203 | a manager's list names exactly the nights they work, in calendar order, each flagged by their answer |
| Report.NightLineCount | macd.py:184-190 | a night's list is as long as the number of managers on it |
| Report.ManagerLineCount | macd.py:195-201 | a manager's list is as long as the number of nights they work |
| Report.ListedCounts | macd.py:178-203 | for a roster meeting coverage and workload, every night lists `mgrs_per_night` managers and every manager between `min_nights` and `max_nights` nights |
| Report.RawData | macd.py:205-206 | one entry per manager and night |
| Report.RawDataIsZeroOne | macd.py:205-206 | every entry is 1 where the solution sets the cell and 0 elsewhere |
| Report.RawDataRoundTrip | macd.py:205-206 | reading `raw_data` back gives the solution it came from |
| Objective.IfNeedBeRow | macd.py:163 | a manager's IFNEEDBE cells, each once |
| Objective.IfNeedBeCells | macd.py:163 | the cells of the minimised sum are exactly the IFNEEDBE cells of the grid, each once |
| Objective.IfNeedBeTermCounts | macd.py:163 | the minimised sum is the number of assigned IFNEEDBE cells |
| Objective.IfNeedBeTermZero | macd.py:163 | the minimised sum is 0 iff no manager works a night they answered IFNEEDBE |
| Objective.StrictCutoffUsesNoIfNeedBe | macd.py:135-163 | with the cut-off at YES, every roster meeting the cut-offs already reaches the minimum 0 |
| Objective.StabilityRow | macd.py:167 | a manager's terms weigh each of their cells by `prev[m][n]` |
| Objective.StabilityTerms | macd.py:167 | the maximised sum weighs exactly the grid's cells, each by `prev[m][n]` |
| Objective.Goals | macd.py:162-167 | the objective calls in order: the IFNEEDBE sum, then the overlap when `prev` is set |
| Objective.StabilityAtMostPrevTotal | macd.py:167 | with non-negative `prev`, the overlap never exceeds the sum of `prev` |
| Objective.PreviousScheduleMaximisesOverlap | macd.py:166-167 | a schedule fed back as its own `raw_data` reaches that bound, so no assignment scores higher |
| Objective.StabilityRowDistinct | macd.py:167 | a manager's terms weigh distinct cells |
| Objective.StabilityCellsDistinct | macd.py:167 | the overlap term weighs every cell at most once |
| Objective.OnesOfRawData | macd.py:167 | fed back a schedule, the cells weighted 1 are exactly the cells it sets |
| Objective.OnesOfRawDataSetInA | macd.py:167 | the cells weighted 1 and set in a new assignment are the cells both schedules set |
| Objective.StabilityCountsSharedShifts | macd.py:167 | fed back a schedule, the overlap counts the cells both schedules set; agreeing on an empty cell earns nothing |
| Scheduler.Macd.constructor | macd.py:22-67 | the poll loaded: the doodle and nights, lookups built from them, nothing registered, no solution |
| Scheduler.Macd.SetPrev | macd.py:71-72 | stores the previous schedule and changes nothing else |
| Scheduler.Macd.KeepTogether | macd.py:77-83 | fails on the first unknown name and changes nothing; otherwise appends exactly the pair |
| Scheduler.Macd.KeepApart | macd.py:86-92 | fails on the first unknown name and changes nothing; otherwise appends exactly the pair |
| Scheduler.Macd.PinTo | macd.py:97-106 | fails on an unknown manager or night and changes nothing; otherwise appends the night to that manager's pins only (a fresh list and a new last key when absent) |
| Scheduler.Macd.EmitCoverage | macd.py:126-127 | the loop emits exactly the coverage constraints |
| Scheduler.Macd.EmitWorkload | macd.py:130-132 | the loop emits exactly the workload constraints |
| Scheduler.Macd.EmitCutoffs | macd.py:135-138 | the nested loops emit exactly the cut-offs |
| Scheduler.Macd.EmitPairing | macd.py:141-145 | the nested loops emit exactly the pairing constraints |
| Scheduler.Macd.EmitPins | macd.py:147-154 | the loop over `pin` emits exactly the pins and builds exactly the exemption list, with the test as written |
| Scheduler.Macd.EmitPinsOf | macd.py:148-154 | for one key: the string-sorted test, and the pins in that order, each forced to 1 |
| Scheduler.Macd.EmitSpacing | macd.py:157-160 | the nested loops emit exactly the windows of every manager not exempted |
| Scheduler.Macd.BuildModel | macd.py:108-167 | an empty doodle is refused; a `prev` missing a cell fails; otherwise the whole constraint list and the objective calls |
| Scheduler.Macd.Solve | macd.py:108-176 | the errors of `BuildModel` leave the state unchanged; otherwise stores the solver's answer and reports whether there was one; a stored schedule is staffed for every `non_consecutive`, and spaced outside `nonconsexc` when `non_consecutive` is below the number of nights |
| Scheduler.Macd.PrintManagers | macd.py:178-203 | nothing before a solve; otherwise each night's and each manager's list as `Report` defines them |
| Scheduler.Macd.RawData | macd.py:205-206 | nothing before a solve; otherwise a table that reads back as the stored solution |

## Left out

- Reading the poll (`xls`, macd.py:40-67): spreadsheet I/O, the title regex and date formatting are not modelled. The constructor takes the parsed rows and night labels. It requires every row to have one answer per night, which the spreadsheet layout guarantees.
- The CP-SAT search, its parameters and status codes, and the `Feasibility` enum (macd.py:14-19, 169-176): the solver is an oracle passed to `Solve`.
- The objectives' combination: the source calls `Minimize` and then `Maximize` on the same model. How CP-SAT combines them is library behaviour. The model records both calls in order and claims no lexicographic or weighted order.
- Scheduler.Macd.Solve: after a failed solve the source still stores the solver, and `print_managers` would then read its values. The model stores no solution in that case, so `PrintManagers` and `RawData` return nothing.
- Scheduler.Macd.BuildModel: `prev` is a table indexed by manager and night positions rather than a nested dictionary. A lookup that fails in the source (a missing manager or night) is the `PreviousTooSmall` error. Non-integer entries are not modelled.
- Scheduler.Macd.RawData and Scheduler.Macd.PrintManagers: before any solve, `raw_data` fails in the source (there is no `shifts` attribute yet) and `print_managers` prints nothing. The model returns nothing in both cases.
- Meaning.WindowsMeanSpaced: it requires `non_consecutive` below the number of nights. For larger gaps no window is emitted at all (Meaning.NoWindowsWhenGapCoversAllNights), and Meaning.EmittedMeaning covers that case.
- Console output: the `print` calls and the string joins of `print_managers` (macd.py:182-203) are left out; the model returns the lists.
- `run.py`: configuration loading and command-line handling.
- The class-level settings (by default 2 managers a night, 1 to 2 nights each, `non_consecutive` 2, cut-off YES) are a `Config` value the constructor takes. Changing them on the class after construction is not modelled.

## Findings

| source | as written | input that shows it | evidently intended | confidence | as-written member | corrected member |
|---|---|---|---|---|---|---|
| macd.py:149-150 | `sorted(ns)` sorts the pinned night labels as strings, so "9/12" comes before "9/9". The adjacent differences can then be negative, and the `min(...) <= non_consecutive` test passes for pins far apart. | pins "9/9" and "9/12" (night positions 0 and 3), `non_consecutive` = 2: the one difference examined is 0 - 3 = -3 <= 2, so the manager is exempted from spacing although the pins are 3 nights apart | sort the pins in calendar order (by `night_lookup`), so the test holds exactly when two pins lie within `non_consecutive` nights (the comment at macd.py:96) | not executed | Exemption.LabelOrderExemptsDistantPins | Exemption.ExemptByNightIffClosePair |

The class `Macd` and the `Rules` it is proved against run the test as written (`Rules.Exempts`), as the program does. The corrected test and its property are proved on their own in `Exemption`.
