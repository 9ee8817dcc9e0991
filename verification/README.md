# Timetable genetic algorithm — a Dafny model

This project models the scheduling core of a timetable-proposal backend written in Go. It covers:

- **Eligibility filters.** These pick the professors who may teach a discipline, the availabilities a professor declared, and the first availability that matches a weekday and a shift.
- **Slot finder.** It scans the hours of a shift window (Morning 8–12, Afternoon 13–18, Night 19–23) and returns the first hour that is neither occupied nor already scheduled. An unknown shift is fatal.
- **Candidate generator.** It walks week, weekday (Monday to Friday), shift and discipline in order. It appends a one-hour class whenever it finds an eligible professor, a matching availability, a free hour and spare hours under the professor's cap. When the window is full, it abandons the rest of that shift.
- **Older generator.** It emits at most one class per discipline, using a randomly chosen professor and availability.
- **Fitness function.** It adds four points of 0 or 1: a credit goal computed with `int32` wrap-around, distribution, no overlaps, and teacher hours.
- **Genetic loop.** This covers population initialisation, tournament selection, one-point crossover, mutation (re-assigning a class to a new professor and hour), population replacement and the pick of the first fittest individual.
- **Request-body redaction in the logging middleware.** Any entry whose key or string value contains "password", ignoring ASCII case, becomes "[REDACTED]".
- **Professor grouping.** The rows of the professor/discipline join are folded into one professor record per identity.

Modelling choices:

- **Time.** Times are `Instant = At(day, hour)` with a one-hour resolution. Day 0 is Monday 7 October 2024, the generator's fixed start date, and a day's weekday name is `WeekdayNames[day % 7]`.
- **Outside inputs.** Random draws and clock readings are parameters. `rand.Intn(n)` becomes `draw % n`, so every index is reachable. `rand.Float64() < 0.01` becomes a caller-supplied flag per class.
- **Map iteration order.** Where Go ranges over a map, the visiting order is a parameter. It is a duplicate-free listing of the keys.
- **Fatal errors.** `log.Fatal` is modelled as an error result: `SlotResult.InvalidShift` or `Outcome.Fatal`.

Modules: `Wrappers`, `Domain`, `Filters`, `Slots`, `Generator`, `Fitness`, `Quality`, `Evolution`, `LegacyGenerator`, `Redaction`, `ProfessorGrouping`.

## Model

All paths are under `app/backend/internal/`, written in full below.

| member | source | states |
|---|---|---|
| Domain.AddHour | app/backend/internal/core/process/genetic_algorithm.go:148 | The end of a slot is exactly one hour after its start, across midnight too. |
| Domain.ShiftWindow | app/backend/internal/core/process/genetic_algorithm.go:132-144 | A shift has a window exactly when it is Morning, Afternoon or Night. Every window lies within hours 8 to 23 and is non-empty. |
| Filters.CountMatches | app/backend/internal/core/process/genetic_algorithm.go:178-179 | The number of matching entries is positive exactly when some entry of the list has the discipline's identity. |
| Filters.CopiesPerMatch | app/backend/internal/core/process/genetic_algorithm.go:178-181 | The inner loop appends the professor once per matching entry and nothing else. |
| Filters.FilterEligibleProfessors | app/backend/internal/core/process/genetic_algorithm.go:175-185 | A professor is in the result exactly when it is in the input and its discipline list holds the discipline. |
| Filters.FilterEligibleMultiplicity | app/backend/internal/core/process/genetic_algorithm.go:175-185 | Each professor occurs in the result (number of matching entries in its list) × (its occurrences in the input) times. |
| Filters.FilterEligibleProfessorsAppend | app/backend/internal/genetic/core_genetic_process.go:46-57 | Filtering a concatenation is the concatenation of the filtered parts, so input order is kept. |
| Filters.Repeat | app/backend/internal/core/process/genetic_algorithm.go:180 | `n` copies of a value, with length `n` and every element equal to it. |
| Filters.RepeatMultiset | app/backend/internal/core/process/genetic_algorithm.go:180 | `n` copies of a value hold it with multiplicity `n`. |
| Filters.CopiesMultiset | app/backend/internal/core/process/genetic_algorithm.go:178-181 | The inner loop holds the professor once per matching entry and holds no other professor. |
| Filters.FilterAvailableSlots | app/backend/internal/core/process/genetic_algorithm.go:187-195 | Every kept availability belongs to the professor. An availability is kept exactly when it is in the input and belongs to the professor. |
| Filters.FilterAvailableSlotsMultiplicity | app/backend/internal/genetic/core_genetic_process.go:59-68 | Each availability of the professor is kept as often as it occurs, and no other availability is kept. |
| Filters.FilterAvailableSlotsAppend | app/backend/internal/core/process/genetic_algorithm.go:187-195 | Filtering a concatenation is the concatenation of the filtered parts, so input order is kept. |
| Filters.FindMatchingSlot | app/backend/internal/core/process/genetic_algorithm.go:91-98 | Nil exactly when no availability has the day's weekday name and the shift. Otherwise the result is the first one that has both. |
| Filters.FindMatchingSlotFrom | app/backend/internal/core/process/genetic_algorithm.go:92-97 | The scan from position `i`, given no match before `i`, returns the first match at or after `i`. |
| Slots.IsTimeOccupied | app/backend/internal/core/process/genetic_algorithm.go:157-164 | True exactly when the instant is among the occupied times. |
| Slots.IsClassScheduled | app/backend/internal/core/process/genetic_algorithm.go:166-173 | True exactly when some class has that weekday name, that shift and that start. |
| Slots.GenerateNextAvailableTime | app/backend/internal/core/process/genetic_algorithm.go:129-155 | The result is fatal exactly for an unknown shift. A found slot is the first free hour of the window on that day, and it ends one hour later. The zero-time sentinel means no hour of the window is free. |
| Slots.ScanHours | app/backend/internal/core/process/genetic_algorithm.go:145-154 | The hour loop from `hour` on returns the first free hour at or after `hour`. If it returns none, none of those hours is free. |
| Generator.Step | app/backend/internal/core/process/genetic_algorithm.go:41-80 | An added class passes every check of the loop body and is taught by the drawn professor for the current discipline. The step breaks exactly when the drawn professor has a matching availability and no hour of the window is free. It adds a class exactly when that professor has a matching availability, some hour is free and one more hour fits under the cap. A discipline nobody may teach is skipped. |
| Generator.Place | app/backend/internal/core/process/genetic_algorithm.go:46-66 | For a chosen professor, the break happens exactly when it has an availability for the weekday and shift and the window is full. A class is added exactly when it has such an availability, an hour is free and the cap allows one more hour. An added class carries that professor and discipline and passes every check. |
| Generator.PlaceAt | app/backend/internal/core/process/genetic_algorithm.go:56-75 | With the availability matched, the break happens exactly when no hour of the window is free. The skip happens exactly when an hour is free but one more hour would exceed the cap. Otherwise the class is added at the first free hour, with the professor and discipline of the step. |
| Generator.Drawn | app/backend/internal/core/process/genetic_algorithm.go:41-45 | No professor is drawn exactly when nobody may teach the discipline. A drawn professor is listed and may teach it. |
| Generator.StartsInShiftTaken | app/backend/internal/core/process/genetic_algorithm.go:56-78 | A start time is in the occupancy list of a shift exactly when some class of that shift starts then. |
| Generator.AppendViews | app/backend/internal/core/process/genetic_algorithm.go:77-79 | Appending a class extends its shift's start list by its start and its professor's class count by one. |
| Generator.Record | app/backend/internal/core/process/genetic_algorithm.go:77-79 | Recording appends exactly the new class at the end of the class list, so earlier classes keep their order. |
| Generator.RecordUpdates | app/backend/internal/core/process/genetic_algorithm.go:77-79 | Recording adds the start to its own shift's occupancy and the duration to its own professor's hours. Every other shift and every other professor is left as it was. |
| Generator.RecordKeepsBookkeeping | app/backend/internal/core/process/genetic_algorithm.go:77-79 | Updating the occupancy and hour maps together with the class list keeps them in agreement with the list. |
| Generator.RecordKeepsCaps | app/backend/internal/core/process/genetic_algorithm.go:62-79 | A class admitted by the cap check keeps every professor within the cap of a record with its identity. |
| Generator.RecordKeepsDistinct | app/backend/internal/core/process/genetic_algorithm.go:56-78 | A start that is not occupied in its shift keeps (shift, start) pairs pairwise distinct. |
| Generator.RecordKeepsFirstFit | app/backend/internal/core/process/genetic_algorithm.go:145-150 | A class placed at the first free hour keeps the property that every earlier hour of its window was taken before it. |
| Generator.RecordKeepsInv | app/backend/internal/core/process/genetic_algorithm.go:56-80 | Appending a checked class preserves validity, bookkeeping, caps, distinct slots and first fit. |
| Generator.AddKeepsInv | app/backend/internal/core/process/genetic_algorithm.go:56-80 | An addable class preserves the generator invariant. |
| Generator.RecordAddedOn | app/backend/internal/core/process/genetic_algorithm.go:31-77 | A class appended on the current day extends the list only with classes of that day. |
| Generator.AddedOnTrans | app/backend/internal/core/process/genetic_algorithm.go:26-35 | "Only appends, on days in [lo, hi)" composes across successive loop passes. |
| Generator.Advance | app/backend/internal/core/process/genetic_algorithm.go:35-81 | One discipline turn preserves the invariant and appends at most one class, on the current day. It stops only on a full window, and then the state is unchanged. |
| Generator.ShiftPass | app/backend/internal/core/process/genetic_algorithm.go:35-82 | The discipline loop of one shift, with its `break`, preserves the invariant and appends at most one class per discipline, all on the current day. |
| Generator.DayPass | app/backend/internal/core/process/genetic_algorithm.go:33-83 | The three shifts of a day preserve the invariant and only append classes of that day. |
| Generator.WeekPass | app/backend/internal/core/process/genetic_algorithm.go:30-85 | Monday to Friday of a week preserve the invariant and append only classes of those five days. |
| Generator.Widen | app/backend/internal/core/process/genetic_algorithm.go:26-31 | A day range of appended classes can be widened. |
| Generator.WeekdayOfWeek | app/backend/internal/core/process/genetic_algorithm.go:28-31 | Days 0 to 4 after a week's start fall on Monday to Friday. |
| Generator.GenerateRandomTimetable | app/backend/internal/core/process/genetic_algorithm.go:19-89 | The fitness is zero and every class is valid for the inputs. Every class starts on a weekday of the generated weeks. No two classes share a shift and a start. Each start is the first hour of its window that no earlier class of the shift had taken. Every professor stays within the cap of a record with its identity. |
| Fitness.Wrap32 | app/backend/internal/core/process/genetic_algorithm.go:207-211 | `int32` truncation keeps the value modulo 2^32 and is the identity on the `int32` range. |
| Fitness.ModShift | app/backend/internal/core/process/genetic_algorithm.go:211 | Adding a multiple of 2^32 leaves the residue unchanged. |
| Fitness.WrapCongruent | app/backend/internal/core/process/genetic_algorithm.go:211 | Values with the same residue wrap to the same `int32`. |
| Fitness.WrapAdd | app/backend/internal/core/process/genetic_algorithm.go:211 | Wrapping after each addition equals wrapping once at the end. |
| Fitness.InnerCredits | app/backend/internal/core/process/genetic_algorithm.go:209-213 | The discipline loop of one class adds that class's exact credits, wrapped to `int32`. |
| Fitness.OuterCredits | app/backend/internal/core/process/genetic_algorithm.go:208-214 | The class loop adds the exact total credits, wrapped to `int32`. |
| Fitness.CreditCount | app/backend/internal/core/process/genetic_algorithm.go:207-214 | The credit counter equals the exact credit total wrapped once. When the total fits in `int32`, it equals the exact total. |
| Fitness.CreditScore | app/backend/internal/core/process/genetic_algorithm.go:206-219 | The result is 0 or 1, and it is 1 exactly when the wrapped total is at most the offer limit. |
| Fitness.CreditScoreExact | app/backend/internal/core/process/genetic_algorithm.go:206-219 | Without overflow, the point is 1 exactly when the exact total is at most the limit. |
| Fitness.ClashFrom | app/backend/internal/core/process/genetic_algorithm.go:227-235 | The inner loop finds a clash partner at position `j` or later exactly when one exists. |
| Fitness.AnyClashFrom | app/backend/internal/core/process/genetic_algorithm.go:226-236 | The outer loop finds a clashing pair whose first index is `i` or later exactly when one exists. |
| Fitness.NoOverlapScore | app/backend/internal/core/process/genetic_algorithm.go:225-238 | The point is 1 exactly when no two distinct positions share weekday name, shift and start, together with the professor or the discipline. |
| Fitness.TeacherHours | app/backend/internal/core/process/genetic_algorithm.go:241-244 | The hour map gives each professor the summed duration of its classes, zero when absent. Its keys are exactly the professors that teach. |
| Fitness.CapsFrom | app/backend/internal/core/process/genetic_algorithm.go:245-250 | The professor loop from `k` yields 1 exactly when every later record is within its cap. |
| Fitness.TeacherHoursScore | app/backend/internal/core/process/genetic_algorithm.go:240-251 | The point is 1 exactly when every professor record of the parameterization is within its hour cap. |
| Fitness.EvaluateFitness | app/backend/internal/core/process/genetic_algorithm.go:197-204 | The classes are kept. The fitness is the number of criteria met: the credit point, the distribution point that is always awarded, the no-overlap point and the teacher-hours point. So it lies in 1..4, it is 4 exactly when all criteria hold, and it is at least 2 when nothing overlaps. |
| Fitness.EvaluateFitnessIdempotent | app/backend/internal/core/process/genetic_algorithm.go:197-204 | Scoring an already scored timetable changes nothing. |
| Quality.DistinctSlotsNoOverlap | app/backend/internal/core/process/genetic_algorithm.go:225-238 | A list with pairwise distinct (shift, start) pairs earns the no-overlap point. |
| Quality.HoursAreClassCount | app/backend/internal/core/process/genetic_algorithm.go:241-244 | For valid one-hour classes, a professor's hours equal its number of classes. |
| Quality.GeneratedHoursRespected | app/backend/internal/core/process/genetic_algorithm.go:240-251 | The generator's cap check implies the teacher-hours criterion when record identities are unique and caps are non-negative. |
| Quality.GeneratedFitness | app/backend/internal/core/process/genetic_algorithm.go:197-251 | A generated timetable scores at least 2, and at least 3 under unique identities and non-negative caps. |
| Evolution.FittestFrom | app/backend/internal/core/process/genetic_algorithm.go:119-124 | The scan keeps the first individual of maximal fitness. |
| Evolution.FirstFittest | app/backend/internal/core/process/genetic_algorithm.go:119-124 | The index found is that of the first individual of maximal fitness. |
| Evolution.Best | app/backend/internal/core/process/genetic_algorithm.go:119-126 | The best pick is a member of the population at the first position of maximal fitness. |
| Evolution.FirstFittestUnique | app/backend/internal/core/process/genetic_algorithm.go:119-124 | The first position of maximal fitness is unique, so the best pick is determined. |
| Evolution.TournamentSelection | app/backend/internal/core/process/genetic_algorithm.go:253-267 | The winner belongs to the population, is the first entrant of maximal fitness, and is at least as fit as every entrant. |
| Evolution.Crossover | app/backend/internal/core/process/genetic_algorithm.go:269-297 | The child has fitness 0. It is empty exactly when a parent is empty. Otherwise it has the second parent's length, its first `cut % min` classes come from the first parent, and the rest come from the second. |
| Evolution.Min | app/backend/internal/core/process/genetic_algorithm.go:283-286 | The crossover bound is the smaller of the two parent lengths: at most each of them and equal to one of them. |
| Evolution.CrossoverKeepsValid | app/backend/internal/core/process/genetic_algorithm.go:269-297 | A child of two valid parents consists of valid classes. |
| Evolution.CrossoverSelf | app/backend/internal/core/process/genetic_algorithm.go:283-294 | Crossing a timetable with itself gives back its classes. |
| Evolution.DrawnFor | app/backend/internal/core/process/genetic_algorithm.go:304-310 | No professor is drawn exactly when nobody may teach the class's discipline. A drawn professor is listed and may teach it. |
| Evolution.Relocate | app/backend/internal/core/process/genetic_algorithm.go:313-337 | For the drawn professor, the step is fatal exactly when the professor has an availability for the date's weekday and the shift, and the shift is unknown. The class is moved exactly when, in addition, the shift is known and its window has a free hour. It then gets that professor and the first free hour; otherwise it is untouched. |
| Evolution.Reassign | app/backend/internal/core/process/genetic_algorithm.go:302-338 | Fatal exactly when the drawn professor has an availability for the class's date and shift but the shift is unknown. When every step succeeds (a professor is drawn, it has such an availability, and the window has a free hour), the class is re-assigned to the drawn professor at the first free hour. When any step fails, the class is untouched. |
| Evolution.RelocatedIsReassigned | app/backend/internal/core/process/genetic_algorithm.go:334-337 | A class moved to an eligible professor with a matching availability, at the first free hour, keeps its date, shift and discipline and meets every re-assignment condition. |
| Evolution.MovedKeepsValid | app/backend/internal/core/process/genetic_algorithm.go:335-337 | A re-assigned valid class is still valid. |
| Evolution.ReassignedMoves | app/backend/internal/core/process/genetic_algorithm.go:326 | A re-assigned class never keeps its start hour, because the slot finder sees the class itself. |
| Evolution.MutateFrom | app/backend/internal/core/process/genetic_algorithm.go:301-339 | The loop keeps the length and leaves earlier positions alone. A later class is re-assigned, against the list as mutated so far, exactly when its flag is set and every step succeeds for its draw, and it goes to the drawn professor. Otherwise it is untouched. The loop is fatal exactly when some flagged class's drawn professor has a matching availability but the shift is unknown. |
| Evolution.MutateFromKeepsValid | app/backend/internal/core/process/genetic_algorithm.go:301-339 | On valid classes the loop never fails and keeps every class valid. |
| Evolution.UpdateKeepsValid | app/backend/internal/core/process/genetic_algorithm.go:335-337 | Writing a valid class into a valid list keeps it valid. |
| Evolution.Mutate | app/backend/internal/core/process/genetic_algorithm.go:299-340 | Fitness and length are unchanged. A class is re-assigned, at the first hour free in the list as mutated so far and to the drawn professor, exactly when its flag is set and every step succeeds. Otherwise it is untouched. Failure happens exactly when a flagged class's drawn professor has a matching availability but the shift is unknown. |
| Evolution.MutateKeepsValid | app/backend/internal/core/process/genetic_algorithm.go:299-340 | Mutating a valid timetable succeeds and keeps it valid. |
| Evolution.ReplacePopulation | app/backend/internal/core/process/genetic_algorithm.go:342-344 | Copy semantics: the length of the old population is kept, and each position takes the new individual where one exists and keeps the old one otherwise. |
| Evolution.ReplaceEqualSize | app/backend/internal/core/process/genetic_algorithm.go:342-344 | With equal sizes, the new population replaces the old one entirely. |
| Evolution.CandidatesAppend | app/backend/internal/core/process/genetic_algorithm.go:11-17 | Appending a timetable with the generator's guarantees keeps them for every individual. |
| Evolution.InitializePopulation | app/backend/internal/core/process/genetic_algorithm.go:11-17 | `size` timetables, each carrying every guarantee of the generator: unscored, valid classes on weekdays of the generated weeks, distinct slots, first-fit starts and professors within their caps. |
| Evolution.Child | app/backend/internal/core/process/genetic_algorithm.go:109-113 | The child bred at position `j` of generation `g` is the scored mutation of the crossover of two tournament winners from `pop`. Such a child of a valid population is valid, its stored fitness is the score of its classes, and it lies in 1..4. |
| Evolution.GenerationAppend | app/backend/internal/core/process/genetic_algorithm.go:114 | Storing the scored form of a valid child keeps the new population valid and scored. |
| Evolution.BuildAt | app/backend/internal/core/process/genetic_algorithm.go:107-114 | Position `j` of the population built child by child holds the `j`-th child. |
| Evolution.Children | app/backend/internal/core/process/genetic_algorithm.go:107-115 | The first `n` children of a generation form a valid, scored population of size `n`. |
| Evolution.ChildrenAt | app/backend/internal/core/process/genetic_algorithm.go:108-114 | The `j`-th of those children is exactly the child bred at position `j` from the current population. |
| Evolution.Evolve | app/backend/internal/core/process/genetic_algorithm.go:106-117 | The population after `n` generations keeps the population size and validity; after at least one generation every individual is scored, with fitness in 1..4. |
| Evolution.NextGeneration | app/backend/internal/core/process/genetic_algorithm.go:107-116 | One generation keeps the population size, and the `j`-th individual is the `j`-th child bred from the old population: the old population is replaced wholesale, with no elitism. Every individual is valid and scored, with fitness in 1..4. |
| Evolution.RunGeneticAlgorithm | app/backend/internal/core/process/genetic_algorithm.go:100-127 | The result is the first fittest individual of the population reached after `Generations` generations from an initial population of `PopulationSize` timetables with every guarantee of the generator. It consists of valid classes and is scored, with fitness in 1..4. |
| LegacyGenerator.ClassFor | app/backend/internal/genetic/core_genetic_process.go:23-41 | A class is produced exactly when the drawn professor has some availability, and it is taught by that professor with one of its availabilities. A discipline nobody teaches yields nothing. A served discipline always yields a class. |
| LegacyGenerator.Chosen | app/backend/internal/genetic/core_genetic_process.go:23-27 | No professor is chosen exactly when nobody may teach the discipline. A chosen professor is listed and may teach it. |
| LegacyGenerator.SubsequenceSkip | app/backend/internal/genetic/core_genetic_process.go:22-31 | Skipping a discipline keeps the represented identities a subsequence of the discipline identities. |
| LegacyGenerator.SubsequenceKeep | app/backend/internal/genetic/core_genetic_process.go:41 | Appending the current discipline's identity to both keeps the represented identities a subsequence of the discipline identities. |
| LegacyGenerator.KeepStep | app/backend/internal/genetic/core_genetic_process.go:33-41 | Appending a class valid for discipline `i` keeps every class valid for some discipline visited so far. |
| LegacyGenerator.SkipStep | app/backend/internal/genetic/core_genetic_process.go:24-31 | Skipping discipline `i` keeps every class valid for some discipline visited so far. |
| LegacyGenerator.IdsKeep | app/backend/internal/genetic/core_genetic_process.go:33-41 | A contributing discipline extends the list of represented disciplines by its own identity. |
| LegacyGenerator.IdsSkip | app/backend/internal/genetic/core_genetic_process.go:23-31 | A discipline that does not contribute leaves the list of represented disciplines as it is. |
| LegacyGenerator.ContributesWhen | app/backend/internal/genetic/core_genetic_process.go:23-31 | A discipline whose every eligible professor has an availability always gets a class. A discipline nobody may teach never does. |
| LegacyGenerator.ContributingOrdered | app/backend/internal/genetic/core_genetic_process.go:22-42 | The disciplines that get a class keep discipline order: their identities form a subsequence of the discipline identities. |
| LegacyGenerator.SubsequenceLength | app/backend/internal/genetic/core_genetic_process.go:22-42 | A subsequence is never longer than its source, so there is at most one class per discipline. |
| LegacyGenerator.ContributingExtremes | app/backend/internal/genetic/core_genetic_process.go:22-42 | When every discipline is served, every discipline gets a class. When none can be taught, none does. |
| LegacyGenerator.Visit | app/backend/internal/genetic/core_genetic_process.go:22-42 | One discipline turn keeps every class valid and keeps the represented disciplines exactly the contributing ones so far. |
| LegacyGenerator.LoopStart | app/backend/internal/genetic/core_genetic_process.go:21 | The empty timetable satisfies the loop invariant before the first discipline. |
| LegacyGenerator.VisitAll | app/backend/internal/genetic/core_genetic_process.go:22-42 | The loop over every discipline establishes the invariant for the whole list. |
| LegacyGenerator.LoopDone | app/backend/internal/genetic/core_genetic_process.go:22-43 | After the last discipline, the invariant yields the generator's guarantees. |
| LegacyGenerator.GenerateRandomTimetable | app/backend/internal/genetic/core_genetic_process.go:20-44 | The fitness is zero and the classes follow discipline order, at most one per discipline, each valid for its discipline. The disciplines represented are exactly those whose drawn professor has an availability. If every discipline is served, every one gets a class. If none can be taught, the result is empty. |
| LegacyGenerator.AllGeneratedAppend | app/backend/internal/genetic/core_genetic_process.go:14-16 | Appending a generated timetable keeps every individual one the generator can return for its own draws. |
| LegacyGenerator.InitializePopulation | app/backend/internal/genetic/core_genetic_process.go:12-18 | `size` timetables, each one the older generator can return for its own choices. |
| Redaction.LowerChar | app/backend/internal/handler/middleware/logger_middleware.go:79 | A capital becomes the same letter in lower case, every other character is kept, and the result is never an ASCII capital. |
| Redaction.ToLower | app/backend/internal/handler/middleware/logger_middleware.go:79 | Lower-casing keeps the length and leaves no ASCII capital. |
| Redaction.ToLowerIdempotent | app/backend/internal/handler/middleware/logger_middleware.go:79 | Lower-casing twice is lower-casing once, and a string without capitals is unchanged. |
| Redaction.ContainsFrom | app/backend/internal/handler/middleware/logger_middleware.go:79 | The substring search from `i` succeeds exactly when the keyword occurs at some position at or after `i`. |
| Redaction.Contains | app/backend/internal/handler/middleware/logger_middleware.go:79 | True exactly when the keyword occurs in the string. |
| Redaction.ContainsSensitiveKeyword | app/backend/internal/handler/middleware/logger_middleware.go:74-80 | True exactly for a string whose lower-case form contains the keyword. Always false for any other value. |
| Redaction.MatchesFrom | app/backend/internal/handler/middleware/logger_middleware.go:65-69 | The keyword loop finds a match exactly when the key or the value contains a later keyword. |
| Redaction.HasSensitiveFrom | app/backend/internal/handler/middleware/logger_middleware.go:64-71 | The entry loop finds a sensitive entry exactly when a later listed entry is sensitive. |
| Redaction.HasSensitiveData | app/backend/internal/handler/middleware/logger_middleware.go:61-72 | True exactly when some entry is sensitive, whatever the visiting order. |
| Redaction.RedactPrefix | app/backend/internal/handler/middleware/logger_middleware.go:25-31 | After visiting the first `n` keys, exactly the visited sensitive entries read "[REDACTED]". The key set and all other values are unchanged. |
| Redaction.RedactBody | app/backend/internal/handler/middleware/logger_middleware.go:24-32 | Every sensitive entry reads "[REDACTED]" and the key set and all other entries are unchanged. Nothing is rewritten when nothing is sensitive. |
| Redaction.RedactOrderIndependent | app/backend/internal/handler/middleware/logger_middleware.go:25 | The outcome does not depend on the map's iteration order. |
| Redaction.MissingFirstChar | app/backend/internal/handler/middleware/logger_middleware.go:79 | A string lacking the keyword's first character does not contain the keyword. |
| Redaction.RedactedLacksP | app/backend/internal/handler/middleware/logger_middleware.go:28 | The lower-case replacement text has no letter p. |
| Redaction.RedactedIsClean | app/backend/internal/handler/middleware/logger_middleware.go:28 | The replacement text contains no sensitive keyword. |
| Redaction.RedactedValuesClean | app/backend/internal/handler/middleware/logger_middleware.go:24-32 | After redaction no value contains a sensitive keyword, ignoring case. |
| Redaction.RedactIdempotent | app/backend/internal/handler/middleware/logger_middleware.go:24-32 | Redacting an already redacted body changes nothing. |
| ProfessorGrouping.FirstIndex | app/backend/internal/repository/professorrepository/professor_repository.go:91 | The position of the first row carrying the identity. |
| ProfessorGrouping.Header | app/backend/internal/repository/professorrepository/professor_repository.go:92-98 | The professor created for a first row carries that row's identity, UUID, name and hour cap, and no disciplines yet. |
| ProfessorGrouping.DisciplineOf | app/backend/internal/repository/professorrepository/professor_repository.go:101-108 | A non-null discipline column becomes a discipline with the row's identity, UUID, name, credits and course. Its code is empty because the query selects no code column. |
| ProfessorGrouping.FirstIndexAppend | app/backend/internal/repository/professorrepository/professor_repository.go:91-99 | A later row never replaces the professor created from an earlier row. |
| ProfessorGrouping.FirstIndexNew | app/backend/internal/repository/professorrepository/professor_repository.go:91-99 | The first row of a new identity creates its professor. |
| ProfessorGrouping.ValidDisciplinesAppend | app/backend/internal/repository/professorrepository/professor_repository.go:101-110 | A row appends its discipline to its own professor's list exactly when the discipline column is not null. |
| ProfessorGrouping.DisciplinesFromRows | app/backend/internal/repository/professorrepository/professor_repository.go:101-109 | A discipline is listed for a professor exactly when one of its rows has a non-null discipline column carrying it. |
| ProfessorGrouping.Group | app/backend/internal/repository/professorrepository/professor_repository.go:89-111 | One entry per professor identity among the rows. Its columns come from the first row with that identity. Its disciplines are those of all its rows with a non-null discipline, in row order. |
| ProfessorGrouping.GroupStep | app/backend/internal/repository/professorrepository/professor_repository.go:90-111 | One row of the fold preserves that description. |
| ProfessorGrouping.GroupedColumns | app/backend/internal/repository/professorrepository/professor_repository.go:91-99 | The grouped record of a professor has its own identity and the professor columns of its first row, whatever later rows hold. |
| ProfessorGrouping.NoRowNoDisciplines | app/backend/internal/repository/professorrepository/professor_repository.go:97 | An identity without rows has no disciplines. |
| ProfessorGrouping.NoValidRowsNoDisciplines | app/backend/internal/repository/professorrepository/professor_repository.go:97-110 | A professor whose rows all have a null discipline gets an empty discipline list. |
| ProfessorGrouping.GetProfessorsWithDisciplines | app/backend/internal/repository/professorrepository/professor_repository.go:83-119 | Professor identities in the result are pairwise distinct, every identity among the rows is present, and each record is the grouped one. |

## Left out

- Sub-hour times, time zones and Go's `time.Time` arithmetic are replaced by whole hours counted from the generator's start date. The classes of the main generator and of the mutator therefore last exactly one hour, and the `float64` hour maps become integer counts. The older generator's start and end times are two separate clock readings, so its classes have no fixed duration.
- Fitness is a `float64` in Go. Every sub-score is 0.0 or 1.0, so it is modelled as an integer.
- The random generator, its seeding and `time.Now` become caller-supplied draw functions and clock readings. The fixed 100 × 1000 loop of `RunGeneticAlgorithm` is modelled with its constants, but the draws are parameters.
- Go's map iteration order is a caller-supplied listing of the keys, in the redaction loops and in the final listing of `GetProfessorsWithDisciplines`.
- `log.Fatal` is modelled as an error value (`InvalidShift`, `Fatal`); process exit is not modelled.
- `Generator.GenerateRandomTimetable` ignores its `parameterization` argument and the unused `allocatedCredits` counter (the credit check is commented out), as the Go code does.
- `Generator.GenerateRandomTimetable`: its contract states what holds of every class, not which (week, day, shift, discipline) turns add one. Which turns add, skip or break is stated per turn by `Generator.Step` and is not accumulated over the whole run.
- `Evolution.Mutate` takes no discipline list, because the Go code never reads it.
- `Evolution.Best`, `Evolution.TournamentSelection`: they require a non-empty population, because `rand.Intn(0)` and `population[0]` panic in the Go code.
- `Redaction.ToLower`: it lower-cases ASCII letters only. Go's `strings.ToLower` also folds other Unicode letters, which cannot make "password" appear.
- `Redaction.RedactBody`: it models only the redaction step of `LoggerData`. Reading the body, JSON decoding (including the unmarshal error path), JWT decoding and the log call are I/O.
- `ProfessorGrouping.GetProfessorsWithDisciplines`: the database query and its error return are I/O. The rows are a parameter.
- HTTP handlers, services, other repositories, DTOs and sqlc bindings are plumbing outside the core.
- The ID and UUID fields of classes and timetables are never set by the core, so they are not modelled.

## Notes

- `occupiedSlots` in the generator is keyed by shift only, not by professor or day. The model follows the code: a start time taken in one shift blocks that instant for every professor.
- The mutator calls the slot finder with no occupied times and the current class list, which still contains the class being re-assigned. A re-assigned class therefore never keeps its start hour (`Evolution.ReassignedMoves`).
