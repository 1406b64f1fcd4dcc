# Bloom Care schedule evaluator in Dafny

This project models the schedule evaluator of the Bloom Care scheduler
(`scheduler/evaluator.py`) together with the records it reads
(`scheduler/models.py`). The evaluator receives a list of assignments
(visit id, caregiver id), the visits and the caregivers. It returns:

- four hard-constraint reports:
  - unassigned visits;
  - assignments whose caregiver is not available;
  - pairs of one caregiver's visits that overlap;
  - caregivers over their weekly hour limit;
- two quality metrics:
  - continuity of care;
  - travel efficiency.

Each loop of the evaluator becomes a Dafny method with that loop. Each such
method is proved equal to a specification function, and the properties the
evaluator promises are proved as lemmas about those functions.
`_get_unassigned_visits`, built from set comprehensions without a loop, is
the function `Violations.UnassignedVisits`.

Modules, one per file:

- `Models` (`models.dfy`): the records `Visit`, `Availability`, `Caregiver` and `Assignment`. A time `"HH:MM"` is a minute of the day, below 1440.
- `Lookups` (`lookups.dfy`): the two ways the evaluator finds a record by id.
  - The dictionary comprehension keeps the last duplicate.
  - `next(...)` keeps the first.
  - Both are modelled exactly, so no uniqueness of ids is assumed. A lemma shows the two agree when ids are unique.
- `Grouping` (`grouping.dfy`): `defaultdict(list)` filled by appends. The keys come in first-insertion order, and each group keeps list order.
- `TimeRules` (`time_rules.dfy`): `_times_overlap` and `_is_caregiver_available`.
- `Violations` (`violations.dfy`): unassigned visits and availability violations.
- `Overlap` (`overlap.dfy`): same-caregiver overlap violations.
- `Hours` (`hours.dfy`): caregiver hours and max-hours violations.
- `Continuity` (`continuity.dfy`) and `Travel` (`travel.dfy`): the two metrics.
- `Evaluator` (`evaluator.dfy`): `_check_constraint_violations` and `evaluate`.

A KeyError or StopIteration on a dangling id becomes a precondition.
Every assignment must name an existing visit, and the availability check
also needs an existing caregiver (`Lookups.VisitsKnown`,
`Lookups.CaregiversKnown`, `Evaluator.Evaluable`). Each function requires
exactly the lookups it performs.

Where the natural reading and the code differ, the model follows the code:

- A caregiver counts as available when the visit overlaps the *first* window on the visit's day. Overlap is enough; the window need not contain the visit. Later windows on the same day are never consulted.
- A customer with n > 1 visits, all served by one caregiver, scores `1 - 1/n`, not 1.
- An assignment listed twice is reported as overlapping itself, when its visit has positive length.

## Model

| member | source | states |
|---|---|---|
| Lookups.IndexBy | scheduler/evaluator.py:65 | the visit dictionary has exactly the ids of the list as keys, and each entry is an element of the list carrying its key |
| Lookups.IndexByKeepsLast | scheduler/evaluator.py:160-161 | a dictionary entry is the last element of the list with that id |
| Lookups.FirstBy | scheduler/evaluator.py:40 | `next(...)` finds an element of the list with the requested id |
| Lookups.FirstByKeepsFirst | scheduler/evaluator.py:40 | the element found is the first one with that id |
| Lookups.LookupsAgreeOnUniqueIds | scheduler/evaluator.py:40 | with unique ids the dictionary and `next(...)` find the same visit |
| Lookups.DuplicateIdsDisagree | scheduler/evaluator.py:65 | with a duplicated visit id the dictionary keeps the later visit and `next(...)` the earlier one |
| Lookups.Resolve | scheduler/evaluator.py:65-70 | one pair per assignment, in order: the assignment itself and a visit of the list carrying its visit id |
| Lookups.ResolveKeepsLast | scheduler/evaluator.py:65-70 | the visit paired with an assignment is the last visit of the list with that id |
| Grouping.Keys | scheduler/evaluator.py:68-71 | every element's key is a group key, no key appears twice, and there are no more keys than elements |
| Grouping.KeysFromElements | scheduler/evaluator.py:68-71 | every group key is the key of some element |
| Grouping.Members | scheduler/evaluator.py:68-71 | a group holds only elements of the list with that key |
| Grouping.MembersComplete | scheduler/evaluator.py:68-71 | every element with key k is in the group of k |
| Grouping.MembersCount | scheduler/evaluator.py:68-71 | the group of k has as many entries as the list has positions with key k |
| Grouping.MembersNonEmpty | scheduler/evaluator.py:68-71 | a key has a non-empty group exactly when it is a group key |
| Grouping.KeysHaveMembers | scheduler/evaluator.py:75 | every group visited by the loop over the dictionary's values is non-empty |
| Grouping.KeysOfPrefix | scheduler/evaluator.py:68-71 | keys are only appended: the keys of a prefix come first, in the same order |
| Grouping.MembersOrder | scheduler/evaluator.py:175-177 | two group positions p < q hold elements from list positions i < j |
| Grouping.MembersPositions | scheduler/evaluator.py:175-177 | two list positions i < j with equal keys appear in their group at positions p < q |
| Grouping.GroupBy | scheduler/evaluator.py:175-177 | the append loop builds a dictionary whose keys, in insertion order, are `Keys` and whose groups are `Members` |
| TimeRules.TimesOverlap | scheduler/evaluator.py:15-19 | the definition of `_times_overlap`; its properties are stated by `OverlapIsSharedMinute`, `OverlapIsSymmetric`, `TouchingRangesDoNotOverlap`, `ContainedRangeOverlaps` and `OverlapTestVectors` |
| TimeRules.OverlapIsSharedMinute | scheduler/evaluator.py:15-19 | two non-empty ranges overlap exactly when some minute lies in both |
| TimeRules.OverlapIsSymmetric | scheduler/evaluator.py:15-19 | the overlap test gives the same answer with the two ranges swapped |
| TimeRules.TouchingRangesDoNotOverlap | scheduler/evaluator.py:15-19 | a range ending where the other starts does not overlap it, either way round |
| TimeRules.ContainedRangeOverlaps | scheduler/evaluator.py:15-19 | a non-empty range overlaps any range containing it |
| TimeRules.OverlapTestVectors | scheduler/tests/test_models.py:51-120 | the five overlap cases of the test suite, as minutes, in both orders |
| TimeRules.Available | scheduler/evaluator.py:22-29 | the definition of `_is_caregiver_available`; its properties are stated by `UnavailableWithoutWindowOnDay`, `FirstWindowOnDayDecides`, `LaterWindowsIgnored` and `AvailabilityExamples`, and the scan `IsCaregiverAvailable` is proved equal to it |
| TimeRules.UnavailableWithoutWindowOnDay | scheduler/evaluator.py:22-29 | without a window on the visit's day the caregiver is unavailable |
| TimeRules.FirstWindowOnDayDecides | scheduler/evaluator.py:22-29 | otherwise the verdict is the overlap of the visit with the first window on its day |
| TimeRules.LaterWindowsIgnored | scheduler/evaluator.py:24-28 | windows after the first one on the visit's day never change the verdict |
| TimeRules.AvailabilityExamples | scheduler/evaluator.py:24-28 | a window only overlapping the visit suffices, and a second window on the same day that covers the visit is ignored |
| TimeRules.IsCaregiverAvailable | scheduler/evaluator.py:22-29 | the scan returns true exactly when a first window on the visit's day exists and overlaps the visit |
| Violations.UnassignedVisits | scheduler/evaluator.py:149-154 | only visit ids are reported, and a visit's id is reported exactly when no assignment names it |
| Violations.Unavailable | scheduler/evaluator.py:157-168 | the definition of the availability report; its properties are stated by `UnavailableSound`, `UnavailableCount` and `UnavailableExactly`, and the loop `AvailabilityViolations` is proved equal to it |
| Violations.UnavailableSound | scheduler/evaluator.py:157-168 | the report is no longer than the assignments and holds only assignments whose caregiver is unavailable |
| Violations.UnavailableCount | scheduler/evaluator.py:157-168 | a known assignment is reported as often as it occurs when its caregiver is unavailable, and never otherwise |
| Violations.UnavailableExactly | scheduler/evaluator.py:157-168 | each unavailable assignment is reported as often as it occurs in the list, and nothing else is reported |
| Violations.AvailabilityViolations | scheduler/evaluator.py:157-168 | the loop yields the ordered subsequence of the assignments whose caregiver is unavailable |
| Overlap.RowPairs | scheduler/evaluator.py:182-186 | the inner loop pairs position i only with later positions, and every clashing later position is paired |
| Overlap.Pairs | scheduler/evaluator.py:180-186 | every pair of the nested loops is i < j inside one group, and every clashing pair i < j of the first rows is among them |
| Overlap.RowPairsSound | scheduler/evaluator.py:182-186 | every pair of a row clashes |
| Overlap.RowPairsOrdered | scheduler/evaluator.py:182-186 | a row comes in strictly increasing order |
| Overlap.RowPairsLength | scheduler/evaluator.py:182-186 | the row of i below hi holds at most hi - i - 1 pairs |
| Overlap.PairsSound | scheduler/evaluator.py:180-186 | every reported pair clashes: same day and overlapping times |
| Overlap.PairsComplete | scheduler/evaluator.py:180-186 | every clashing pair i < j of a group is reported |
| Overlap.PairsOrdered | scheduler/evaluator.py:180-186 | pairs come in strictly increasing order, so none is reported twice |
| Overlap.PairsCount | scheduler/evaluator.py:180-186 | the first n rows hold at most n(2k-n-1)/2 pairs, for a group of size k |
| Overlap.GroupPairsAtMostHalfSquare | scheduler/evaluator.py:180-186 | a group of size k yields at most k(k-1)/2 entries |
| Overlap.ReportAppend | scheduler/evaluator.py:187-195 | the entries of concatenated pair lists are concatenated |
| Overlap.ReportMembers | scheduler/evaluator.py:187-195 | each entry names the caregiver and the visit ids of one reported pair |
| Overlap.GroupReportSource | scheduler/evaluator.py:179-195 | every entry of one caregiver's group comes from two list positions i < j with that caregiver and clashing visits |
| Overlap.GroupsReportSource | scheduler/evaluator.py:179-195 | every entry comes from the group of one of the listed caregivers |
| Overlap.GroupsReportContains | scheduler/evaluator.py:179-195 | every entry of a listed caregiver's group appears in the report |
| Overlap.OverlapReport | scheduler/evaluator.py:171-196 | the definition of the overlap report; its properties are stated by `OverlapReportSound`, `OverlapReportComplete` and `OverlapReportExactly`, and the method `OverlapViolations` is proved equal to it |
| Overlap.OverlapReportSound | scheduler/evaluator.py:171-196 | every entry comes from list positions i < j with the same caregiver and clashing visits |
| Overlap.OverlapReportComplete | scheduler/evaluator.py:171-196 | every such pair of positions is reported |
| Overlap.OverlapReportExactly | scheduler/evaluator.py:171-196 | an entry is reported exactly when it is the entry of such a pair |
| Overlap.DuplicateAssignmentConflictsWithItself | scheduler/evaluator.py:180-186 | an assignment of a positive-length visit listed twice is reported as conflicting with itself |
| Overlap.RowOverlapViolations | scheduler/evaluator.py:182-195 | the inner loop appends exactly the entries of the row's clashing pairs |
| Overlap.GroupOverlapViolations | scheduler/evaluator.py:180-195 | the nested loops over one group append exactly the entries of its clashing pairs |
| Overlap.OverlapViolations | scheduler/evaluator.py:171-196 | the whole method returns `OverlapReport`, the groups in first-appearance order |
| Hours.AssignedMinutes | scheduler/evaluator.py:32-50 | the definition of a caregiver's assigned time, in minutes; its properties are stated by `AssignedMinutesAppend`, `OtherCaregiversIgnored` and `AssignedMinutesNonNegative`, and the loop `CaregiverHours` is proved to return it divided by 60 |
| Hours.AssignedMinutesAppend | scheduler/evaluator.py:38-48 | minutes add up over concatenated assignment lists |
| Hours.OtherCaregiversIgnored | scheduler/evaluator.py:39 | assignments of other caregivers contribute nothing |
| Hours.AssignedMinutesNonNegative | scheduler/evaluator.py:45-47 | when every visit ends no earlier than it starts, the minutes are not negative |
| Hours.ExceedsInMinutes | scheduler/evaluator.py:205 | `hours > max_hours` on real hours is `minutes > 60 * max_hours` on minutes |
| Hours.CaregiverHours | scheduler/evaluator.py:32-50 | the accumulated hours are the caregiver's visit minutes divided by 60 |
| Hours.OverHours | scheduler/evaluator.py:199-213 | the definition of the max-hours report; its properties are stated by `OverHoursExactly`, `CaregiverListedTwiceReportedTwice` and `TwoFiveHourVisitsExceedEight`, and the loop `MaxHoursViolations` is proved equal to it |
| Hours.OverHoursExactly | scheduler/evaluator.py:199-213 | a caregiver is reported exactly when its minutes exceed 60 times its limit, with hours = minutes / 60; there are no more entries than listed caregivers |
| Hours.CaregiverListedTwiceReportedTwice | scheduler/evaluator.py:203-212 | a caregiver listed twice and over its limit gets two equal entries, one per list position |
| Hours.MaxHoursViolations | scheduler/evaluator.py:199-213 | the loop yields `OverHours`, in the order of the caregiver list |
| Hours.TwoFiveHourVisitsExceedEight | scheduler/evaluator.py:199-213 | two five-hour visits against an eight-hour limit give one entry with 10 hours |
| Continuity.DistinctCaregiversBounds | scheduler/evaluator.py:77-78 | a customer has at least one and at most as many distinct caregivers as visits |
| Continuity.AllDifferentCaregivers | scheduler/evaluator.py:77-78 | pairwise different caregivers are all counted |
| Continuity.CustomerScore | scheduler/evaluator.py:76-86 | a single visit scores 1; n > 1 visits score within [0, 1 - 1/n] |
| Continuity.OneCaregiverScore | scheduler/evaluator.py:80-86 | n > 1 visits all with one caregiver score 1 - 1/n |
| Continuity.AllDifferentScore | scheduler/evaluator.py:80-86 | n > 1 visits all with different caregivers score 0 |
| Continuity.GroupScore | scheduler/evaluator.py:76-86 | the per-customer loop body computes `CustomerScore` |
| Continuity.SumBounds | scheduler/evaluator.py:89 | the sum of n scores in [0, 1] lies in [0, n] |
| Continuity.Scores | scheduler/evaluator.py:74-86 | one score per customer, each in [0, 1] |
| Continuity.MeanScoreBounds | scheduler/evaluator.py:89 | the mean lies in [0, 1], and a non-empty pair list has a customer |
| Continuity.ContinuityOf | scheduler/evaluator.py:53-89 | the definition of the continuity score; its properties are stated by `ContinuityBounds`, and the method `ContinuityScore` is proved equal to it |
| Continuity.ContinuityBounds | scheduler/evaluator.py:53-89 | the continuity score lies in [0, 1], and a non-empty schedule has at least one customer |
| Continuity.CustomerScores | scheduler/evaluator.py:68-86 | the grouping and scoring loops yield one score per customer in first-appearance order |
| Continuity.ContinuityScore | scheduler/evaluator.py:53-89 | the method equals `ContinuityOf`, lies in [0, 1] and is 0 without assignments |
| Travel.Insert | scheduler/evaluator.py:125 | inserting adds exactly one element |
| Travel.SortByStart | scheduler/evaluator.py:125 | the sort permutes the visits of a caregiver-day |
| Travel.InsertSorted | scheduler/evaluator.py:125 | inserting into a sorted list keeps it sorted |
| Travel.SortByStartSorted | scheduler/evaluator.py:125 | the sorted list is ordered by start time |
| Travel.InsertStable | scheduler/evaluator.py:125 | inserting keeps the order of elements with equal start |
| Travel.SortByStartStable | scheduler/evaluator.py:125 | visits with equal start keep their relative order |
| Travel.SortedByStartUnique | scheduler/evaluator.py:125 | two sorted lists with the same elements in the same order at every start are equal |
| Travel.StableSortIsUnique | scheduler/evaluator.py:125 | the model's sort is stable, and every stable sort by start yields this same list |
| Travel.Switches | scheduler/evaluator.py:128-134 | a non-empty list of n visits has at most n - 1 switches |
| Travel.NoSwitchesIffSameNeighborhood | scheduler/evaluator.py:128-134 | there are no switches exactly when each visit is in the neighbourhood of the previous one |
| Travel.OneNeighborhoodNoSwitches | scheduler/evaluator.py:128-134 | visits all in one neighbourhood give no switch |
| Travel.CountSwitches | scheduler/evaluator.py:128-134 | the loop with `current_neighborhood` counts the neighbours with different neighbourhoods |
| Travel.GroupSwitches | scheduler/evaluator.py:117-136 | a caregiver-day of n visits adds at most n - 1 switches |
| Travel.GroupSwitchesInStartOrder | scheduler/evaluator.py:120-122 | the single-visit shortcut agrees with counting the sorted visits |
| Travel.ScoreOf | scheduler/evaluator.py:138-146 | the score lies in [0, 1] |
| Travel.ScoreOfMeaning | scheduler/evaluator.py:142-146 | the score is 1 exactly without switches, is 0 once the average reaches 2, and is 1 - total/(2·days) below that |
| Travel.TravelOf | scheduler/evaluator.py:92-146 | the definition of the travel score; its properties are stated by `TravelBounds`, `PerfectTravelIffNoSwitches` and `TravelExamples`, and the method `TravelEfficiencyScore` is proved equal to it |
| Travel.TravelBounds | scheduler/evaluator.py:92-146 | the score lies in [0, 1] and is 0 without assignments |
| Travel.PerfectTravelIffNoSwitches | scheduler/evaluator.py:92-146 | a non-empty schedule scores 1 exactly when no caregiver-day switches neighbourhood |
| Travel.TravelExamples | scheduler/evaluator.py:92-146 | two same-day visits of one caregiver score 1 in one neighbourhood and 0.5 in two, with visits sorted by start |
| Travel.SwitchTotals | scheduler/evaluator.py:106-136 | the loop counts every caregiver-day and totals their switches |
| Travel.TravelEfficiencyScore | scheduler/evaluator.py:92-146 | the method equals `TravelOf` |
| Evaluator.EvaluationOf | scheduler/evaluator.py:245-263 | both metrics of the evaluation lie in [0, 1] |
| Evaluator.UnassignedIff | scheduler/evaluator.py:149-154 | no unassigned visit exactly when each visit has an assignment |
| Evaluator.UnavailableIff | scheduler/evaluator.py:157-168 | no availability violation exactly when every assigned caregiver is available |
| Evaluator.OverlapIff | scheduler/evaluator.py:171-196 | no overlap violation exactly when no caregiver has two clashing visits |
| Evaluator.OverHoursIff | scheduler/evaluator.py:199-213 | no max-hours violation exactly when every caregiver is within its limit |
| Evaluator.ConstraintReport | scheduler/evaluator.py:216-228 | the definition of the four hard-constraint reports; its properties are stated by `NoViolationsIffFeasible` and `EmptySchedule`, and the method `CheckConstraintViolations` is proved equal to it |
| Evaluator.NoViolationsIffFeasible | scheduler/evaluator.py:216-228 | all four reports are empty exactly when the schedule meets every hard constraint |
| Evaluator.EmptySchedule | scheduler/evaluator.py:216-263 | without assignments every visit id is unassigned, the other reports are empty (for non-negative limits) and both metrics are 0 |
| Evaluator.CheckConstraintViolations | scheduler/evaluator.py:216-228 | the method returns the four reports `ConstraintReport` |
| Evaluator.Evaluate | scheduler/evaluator.py:231-263 | the result, built with zero metrics and then filled in, equals `EvaluationOf`, and both metrics lie in [0, 1] |

## Left out

- `scheduler/solver.py`, `scheduler/optimiser.py`, `scheduler/parser.py`, `scheduler/main.py`, `solver/` and `bloom_care_takehome/main.py` are not part of this model. They are a stub that returns no assignments, a wrapper around an external constraint solver, JSON file reading and console drivers.
- Lookups.VisitsKnown, Lookups.CaregiversKnown: a dangling visit or caregiver id, which raises KeyError or StopIteration in the source, is excluded by these preconditions; the exception path is not modelled.
- `_parse_time`: the `strptime` parse of `"HH:MM"` is not modelled; a time is the minute of the day it yields. Malformed time strings, which raise in the source, cannot be expressed.
- Travel.SortByStart sorts on the start minute, while the source compares the raw `start` strings. The two orders agree only for zero-padded `"HH:MM"` text, which the model assumes.
- Travel.SortByStart is a pure function that returns the sorted list. The source sorts the group's list in place inside the dictionary; nothing reads that list afterwards, so the aliasing is not modelled.
- Violations.UnassignedVisits returns a set. The source returns `list(set)`, whose order depends on string hashing.
- Floating point: hours and scores are exact rationals (`real`), so float rounding is not modelled.
- Python `int` is unbounded, as Dafny's is, so no overflow arises.
- The continuity and travel groupings are built from the assignments paired with their visits (`Lookups.Resolve`). The source looks up each visit inside the grouping loop.
- The continuity groups hold these pairs, where the source holds bare assignments; only the caregiver ids and the group sizes are read.
- `Visit.required_skill` and `Caregiver.skills` are carried but never checked, as in the source. No skill constraint is evaluated.
- `Caregiver.name` is carried but not read.
- `scheduler/tests/test_models.py` calls methods that the records do not define. Only its overlap cases are used, in TimeRules.OverlapTestVectors.
