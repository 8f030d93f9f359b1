# Course catalog containers, mTSP neighbourhood moves and BRKGA structure

This project models three small pieces of sequence logic and proves properties of them in Dafny.

1. **The-wise-dev course catalog.** An ordered, 1-based container keeps its elements unique under a key
   equality. Every fallible operation returns an `Either` of an error or the new state.
   - A `Lecture` forwards its material operations to one such container (`Lectures`).
   - A `Course` holds modules and loose lectures in one container. Each module holds its lectures in a container of its own.
   - `moveLecture` moves a lecture from a module, or from the course itself, into a module at a given position (`Courses`).
   - The container itself is the module `Container`.
   - The behaviour the course test suite asserts is restated over the model in `CourseExamples`.
2. **The neighbourhood moves of the simulated annealing for the multiple travelling salesman problem**
   (`Neighborhood`). These are intra- and inter-route swap and shift, the rejection-sampling helpers, and
   `random_neighbor`. Python's in-place list surgery becomes functions that return new lists, so the
   input solution is never changed; in the original, a deep copy gives the same guarantee. Python's
   `list.insert` index clamping and `list.remove` of the first occurrence are modelled as Python defines them.
3. **The structural parts of the biased random-key genetic algorithm with penalty** (`Brkga`):
   - random-key generation;
   - the greedy decoder (`calculate_solution`), including its penalty for a key that names the depot or a point twice;
   - population creation;
   - the elite split;
   - gene inheritance;
   - crossover.

   Points are identified by their index, with 0 the depot. Route costs are reals. The cost increment
   of appending point `i` after point `j` is an abstract function `delta(j, i)`, which stands for the
   distance arithmetic.

Every random draw (`randint`, `uniform`, `choice`) is an argument. A rejection loop that draws until
it gets an acceptable value is modelled over a finite stream of draws: the result is the first
acceptable draw, or `None` when the stream holds none.

Supporting modules:
- `Wrappers` holds `Either` and `Option`.
- `Seqs` holds sequence surgery and multiset bookkeeping.
- `Sorting` holds an insertion sort by a real-valued key, standing for Python's `list.sort(key=...)`.

## Model

Source paths are relative to the repository root. Abbreviations:
- `lecture.ts` stands for `validacao-e-verificacao-de-software/the-wise-dev/src/entities/lecture.ts`;
- `course.spec.ts` stands for `validacao-e-verificacao-de-software/the-wise-dev/test/entities/course.spec.ts`;
- the Python files are under `metaheuristicas/mTSP/algorithm/`.

The table cells use the full paths.

| member | source | states |
|---|---|---|
| Container.Add | validacao-e-verificacao-de-software/the-wise-dev/test/entities/course.spec.ts:15-44 | Adding fails exactly when an equal element is stored, and then only with ExistingElementError. Otherwise the result is the old elements, in order, followed by the new one, which has the last position. Uniqueness is preserved. |
| Container.Position | validacao-e-verificacao-de-software/the-wise-dev/test/entities/course.spec.ts:212-222 | Fails exactly when no equal element is stored, with UnexistingElementError. Otherwise it returns the 1-based index of the first equal element. |
| Container.PositionIsOnlyMatch | validacao-e-verificacao-de-software/the-wise-dev/test/entities/course.spec.ts:46-73 | In a container without duplicates, an element stored at index i has position i + 1. |
| Container.Remove | validacao-e-verificacao-de-software/the-wise-dev/test/entities/course.spec.ts:187-210 | Fails exactly when the element is absent, with UnexistingElementError. Otherwise the length drops by one, the elements before the gap keep their index, those after it move up one, and, in a container without duplicates, the element is no longer present. |
| Seqs.RemoveInsertIsShift | validacao-e-verificacao-de-software/the-wise-dev/test/entities/course.spec.ts:46-73 | Taking an element out and reinserting it elsewhere equals the entry-by-entry shift: the element lands on the target, the entries between shift one place toward the vacated place, and the rest stay put. |
| Container.Move | validacao-e-verificacao-de-software/the-wise-dev/test/entities/course.spec.ts:46-155 | An absent element gives UnexistingElementError. A target outside [1, length] gives InvalidPositionError, with nothing changed. Otherwise the result is exactly the shift from the element's index to the target index. |
| Container.MoveResult | validacao-e-verificacao-de-software/the-wise-dev/test/entities/course.spec.ts:46-73 | Moving a present element to a position in [1, length] succeeds. It keeps the length, the multiset of elements and uniqueness, and the moved element ends at the requested position. |
| Container.MoveToOwnPosition | validacao-e-verificacao-de-software/the-wise-dev/test/entities/course.spec.ts:46-73 | Moving an element to the position it already has leaves the container unchanged. |
| Container.RemoveAtKeepsUnique | validacao-e-verificacao-de-software/the-wise-dev/test/entities/course.spec.ts:187-199 | Removal keeps the container free of duplicates, and no element equal to the removed one remains. |
| Container.InsertNewKeepsUnique | validacao-e-verificacao-de-software/the-wise-dev/test/entities/course.spec.ts:157-185 | Inserting an element that is not yet stored, at any index, keeps the container free of duplicates. |
| Container.AddEqualRejected | validacao-e-verificacao-de-software/the-wise-dev/test/entities/course.spec.ts:27-44 | After one add succeeds, adding an element equal to it fails with "Element already exists.", and the length is the original plus one. |
| Container.Place | validacao-e-verificacao-de-software/the-wise-dev/test/entities/course.spec.ts:257-272 | The receiving half of a cross-container move accepts positions 1 to length + 1, checking the range before duplicates. It succeeds exactly when the position is in that range and the element is new there; the element is then inserted at the requested position and nothing else moves. |
| Container.AppendThenMoveIsInsert | validacao-e-verificacao-de-software/the-wise-dev/test/entities/course.spec.ts:257-272 | Appending a new element and then moving it to position `to` is the same as inserting it at index `to - 1`. |
| Container.MoveBetween | validacao-e-verificacao-de-software/the-wise-dev/test/entities/course.spec.ts:157-185 | Checks, in order, source membership, the target range and a target duplicate, each with its own error, and succeeds when all three pass. On success the source loses exactly that element and the target gains it at the requested position, and both containers keep uniqueness. |
| Container.PositionIsFirstFree | validacao-e-verificacao-de-software/the-wise-dev/test/entities/course.spec.ts:157-185 | An element inserted at index k, into a container holding nothing equal to it, has position k + 1. |
| Container.Replace | validacao-e-verificacao-de-software/the-wise-dev/test/entities/course.spec.ts:157-185 | Swapping in a new version of a stored element keeps the length, the element's index, every other entry and uniqueness. |
| Container.RemoveKeepsOthers | validacao-e-verificacao-de-software/the-wise-dev/test/entities/course.spec.ts:157-185 | Removing one element leaves every element with a different key stored and found unchanged. |
| Container.ReplaceKeepsOthers | validacao-e-verificacao-de-software/the-wise-dev/test/entities/course.spec.ts:157-185 | Replacing one element leaves every element with a different key stored and found unchanged. |
| Container.ReplaceAfterRemove | validacao-e-verificacao-de-software/the-wise-dev/test/entities/course.spec.ts:257-272 | Removing one element and then swapping in a new version of another gives the same sequence as updating the other in place and then removing the first. |
| Container.MoveSecondOfThreeToFront | validacao-e-verificacao-de-software/the-wise-dev/test/entities/course.spec.ts:46-73 | For any three distinct elements a, b, c, moving b to position 1 gives [b, a, c], with positions 1, 2 and 3. |
| Lectures.NewLecture | validacao-e-verificacao-de-software/the-wise-dev/src/entities/lecture.ts:10-17 | A new lecture has the given title and video address and an empty materials container. |
| Lectures.EqualsIsEquivalence | validacao-e-verificacao-de-software/the-wise-dev/src/entities/lecture.ts:39-41 | Equality by title is reflexive, symmetric and transitive, and it holds for lectures that differ only in their video address. |
| Lectures.Add | validacao-e-verificacao-de-software/the-wise-dev/src/entities/lecture.ts:19-21 | The only failure is ExistingElementError, exactly when an equal material is stored. Success keeps the title and video address. The materials are the old ones, in order, followed by the new material, which has the last position. |
| Lectures.Includes | validacao-e-verificacao-de-software/the-wise-dev/src/entities/lecture.ts:23-25 | A material is included exactly when some stored material has its key; exactly then it has a position and can be removed, and adding it fails. |
| Lectures.Remove | validacao-e-verificacao-de-software/the-wise-dev/src/entities/lecture.ts:27-29 | The only failure is UnexistingElementError, exactly when the material is absent. Success keeps the title and video address. The materials before the first equal one keep their places and those after it move up one. With unique materials none equal remains. |
| Lectures.Position | validacao-e-verificacao-de-software/the-wise-dev/src/entities/lecture.ts:31-33 | The only failure is UnexistingElementError, exactly when the material is absent. Otherwise the result is the 1-based position of the first equal material. |
| Lectures.Move | validacao-e-verificacao-de-software/the-wise-dev/src/entities/lecture.ts:35-37 | An absent material gives UnexistingElementError, checked first. A position outside [1, number of materials] gives InvalidPositionError. Otherwise the move succeeds and keeps the title and video address. The materials are exactly the entry-by-entry shift of the material from its index to the position. With unique materials it then has that position. |
| Courses.ModuleAdd | validacao-e-verificacao-de-software/the-wise-dev/test/entities/course.spec.ts:157-185 | Adding a lecture to a module fails only on an equally titled lecture, with ExistingElementError. Otherwise it keeps the title. The lectures are the old ones, in order, followed by the new one, which has the last position. |
| Courses.ModulePosition | validacao-e-verificacao-de-software/the-wise-dev/test/entities/course.spec.ts:157-185 | The position of a lecture in a module is a 1-based index holding an equally titled lecture. An absent lecture gives UnexistingElementError. |
| Courses.Includes | validacao-e-verificacao-de-software/the-wise-dev/test/entities/course.spec.ts:15-44 | An element is included exactly when some stored module or loose lecture has its title. |
| Courses.Add | validacao-e-verificacao-de-software/the-wise-dev/test/entities/course.spec.ts:15-44 | Adding a module or loose lecture fails exactly on an element with the same title, with ExistingElementError. Success keeps slug, title and description. The elements are the old ones, in order, followed by the new one at the last position. Uniqueness is kept. |
| Courses.AddedIsIncluded | validacao-e-verificacao-de-software/the-wise-dev/test/entities/course.spec.ts:224-235 | A course includes an element right after it was added, and still includes everything it included before. |
| Courses.Remove | validacao-e-verificacao-de-software/the-wise-dev/test/entities/course.spec.ts:187-210 | Removal fails exactly on an absent element, with UnexistingElementError. Success keeps the metadata. The elements before the removed one keep their places and those after it move up one. In a course without duplicates no equal element remains. |
| Courses.Position | validacao-e-verificacao-de-software/the-wise-dev/test/entities/course.spec.ts:212-222 | Fails exactly on an absent element, with UnexistingElementError. Otherwise it gives the 1-based position of the first element with that title. |
| Courses.Move | validacao-e-verificacao-de-software/the-wise-dev/test/entities/course.spec.ts:46-155 | An absent element gives UnexistingElementError. A target outside [1, number of elements] gives InvalidPositionError. Otherwise the move succeeds and keeps the metadata. The elements are exactly the shift of the element from its index to the target. In a course without duplicates the element then has the target position. |
| Courses.MoveWithinModule | validacao-e-verificacao-de-software/the-wise-dev/test/entities/course.spec.ts:157-185 | A position outside [1, lectures of the module] gives InvalidPositionError, and no duplicate check applies. Otherwise only that module changes: its lectures are shifted, the lecture from its index to the position, and every other element is unchanged. In a valid course the lecture then has the requested position. |
| Courses.MoveAcrossModules | validacao-e-verificacao-de-software/the-wise-dev/test/entities/course.spec.ts:157-185 | A position outside [1, target lectures + 1] gives InvalidPositionError. Next, a target holding an equally titled lecture gives ExistingElementError. On success, the source module loses the lecture and the target has it inserted at the position. Every other element, and the order of the course, is unchanged. The lecture then has the requested position in the target. |
| Courses.MoveFromCourse | validacao-e-verificacao-de-software/the-wise-dev/test/entities/course.spec.ts:257-272 | The error cases match a move across modules. On success, the target has the lecture inserted at the position. The loose lecture's own element is gone, and the later elements move up one. Every other element is unchanged. |
| Courses.MoveLecture | validacao-e-verificacao-de-software/the-wise-dev/test/entities/course.spec.ts:157-185 | Errors come in order. A lecture absent from the source, then an absent target module, each give UnexistingElementError. When the source is the target module, a position outside [1, its lectures] gives InvalidPositionError, and success is the shift within it. Otherwise, a position outside [1, target lectures + 1] gives InvalidPositionError, a target holding an equal lecture gives ExistingElementError, and success is the move across modules or from the course. Errors change nothing. Success keeps the metadata, and the lecture ends at the position (in a valid course when the move stays within one module). |
| Courses.MoveLectureKeepsValid | validacao-e-verificacao-de-software/the-wise-dev/test/entities/course.spec.ts:157-185 | A successful lecture move keeps the course invariant: no two equal elements, and no two equally titled lectures in any module. |
| Courses.ShiftedWithinIsValid | validacao-e-verificacao-de-software/the-wise-dev/test/entities/course.spec.ts:157-185 | Shifting a lecture within its module keeps the course invariant. |
| Courses.MovedAcrossIsValid | validacao-e-verificacao-de-software/the-wise-dev/test/entities/course.spec.ts:157-185 | Moving a lecture into another module that lacks it keeps the course invariant. |
| Courses.MovedFromCourseIsValid | validacao-e-verificacao-de-software/the-wise-dev/test/entities/course.spec.ts:257-272 | Moving a loose lecture into a module that lacks it keeps the course invariant. |
| CourseExamples.SameTitleModuleRejected | validacao-e-verificacao-de-software/the-wise-dev/test/entities/course.spec.ts:27-44 | A second module with the title of the first is refused with "Element already exists.", and the course keeps one element. |
| CourseExamples.RearrangeModules | validacao-e-verificacao-de-software/the-wise-dev/test/entities/course.spec.ts:46-73 | Moving Course Overview to 1 in [Fundamentals, Course Overview, Git] gives [Course Overview, Fundamentals, Git] with positions 1, 2, 3. |
| CourseExamples.MoveAbsentModule | validacao-e-verificacao-de-software/the-wise-dev/test/entities/course.spec.ts:75-96 | Moving a module the course does not hold gives UnexistingElementError. |
| CourseExamples.MoveOutOfRange | validacao-e-verificacao-de-software/the-wise-dev/test/entities/course.spec.ts:98-155 | Moving to 10 or to -1 in a course of three modules gives "Invalid position.", and the positions stay 1, 2, 3. |
| CourseExamples.MoveLectureToOtherModule | validacao-e-verificacao-de-software/the-wise-dev/test/entities/course.spec.ts:157-185 | Moving Branching from Fundamentals to position 2 of Git, which holds two lectures, leaves Fundamentals with no lecture. Git then holds three, with Branching at position 2. |
| CourseExamples.RemoveScenarios | validacao-e-verificacao-de-software/the-wise-dev/test/entities/course.spec.ts:187-222 | Removing the only module empties the course. Removing a module from an empty course gives "Element does not exist.", and locating one gives UnexistingElementError. |
| CourseExamples.LooseLectureShiftsModule | validacao-e-verificacao-de-software/the-wise-dev/test/entities/course.spec.ts:241-255 | A loose lecture shares the course's order with modules: moving it to 1 shifts the module to 2. |
| CourseExamples.MoveLooseLectureIntoModule | validacao-e-verificacao-de-software/the-wise-dev/test/entities/course.spec.ts:257-272 | Moving the loose Branching into an empty Fundamentals at position 1, one past its end, succeeds. The course is left with one element, and Branching is first in the module. |
| CourseExamples.EqualityBySlug | validacao-e-verificacao-de-software/the-wise-dev/test/entities/course.spec.ts:274-284 | Two courses with one slug and different titles are equal. |
| Seqs.ClampIndex | metaheuristicas/mTSP/algorithm/simulated_annealing.py:12 | Python's index normalisation for `list.insert`. An index past the end appends, a negative index counts from the end, and one before the start prepends. |
| Neighborhood.PyInsert | metaheuristicas/mTSP/algorithm/simulated_annealing.py:12 | `list.insert(k, v)` puts v at the position Python makes of k. The entries before it stay, and the entries from it on move one place right. The list grows by one and its multiset gains v. An index past the end appends. |
| Neighborhood.RemoveFirst | metaheuristicas/mTSP/algorithm/simulated_annealing.py:11 | `list.remove(v)` deletes the first entry equal to v. The entries before it stay, and those after it move one place left. The list shrinks by one and its multiset loses one v. |
| Neighborhood.IntraRouteSwap | metaheuristicas/mTSP/algorithm/simulated_annealing.py:6-8 | The swap keeps the length and sets index j to the first value and index i to the second (when i ≠ j). Every other index is unchanged. |
| Neighborhood.IntraRouteSwapExchanges | metaheuristicas/mTSP/algorithm/simulated_annealing.py:6-8 | With the stored values passed in, the swap exchanges the two entries and keeps the multiset. Swapping again restores the route. |
| Neighborhood.IntraRouteShift | metaheuristicas/mTSP/algorithm/simulated_annealing.py:10-12 | The shift is exactly the entry-by-entry move of the value from its first occurrence to the position Python makes of j in the shortened route. It keeps the length and the multiset, and an in-range j receives the value. |
| Neighborhood.InterRouteSwap | metaheuristicas/mTSP/algorithm/simulated_annealing.py:14-16 | Both lengths stay. The two chosen entries cross over and nothing else changes. |
| Neighborhood.InterRouteSwapKeepsPoints | metaheuristicas/mTSP/algorithm/simulated_annealing.py:14-16 | With the stored values passed in, the swap keeps the combined multiset of the two routes. |
| Neighborhood.InterRouteShift | metaheuristicas/mTSP/algorithm/simulated_annealing.py:18-20 | Route one loses the first occurrence of the value, with the rest kept in order. Route two has the value inserted at the position Python makes of j, with the rest kept in order. The combined multiset is kept. |
| Neighborhood.FirstAccepted | metaheuristicas/mTSP/algorithm/simulated_annealing.py:25-26 | The rejection loop returns the first acceptable draw of the stream, and returns None exactly when no draw is acceptable. |
| Neighborhood.RandomRoute | metaheuristicas/mTSP/algorithm/simulated_annealing.py:22-27 | The result is the first draw whose route has more than two entries. Every earlier draw named a route of at most two entries. None comes back exactly when no draw qualifies, and always when no route qualifies. |
| Neighborhood.RandomRouteTwo | metaheuristicas/mTSP/algorithm/simulated_annealing.py:29-33 | The result is the first draw different from route one, and every earlier draw was route one. None comes back exactly when every draw is route one, and always when there is a single route. |
| Neighborhood.RandomPoint | metaheuristicas/mTSP/algorithm/simulated_annealing.py:35-40 | The result is the first draw different from point one, which lies in [1, length - 1] and comes with the value stored there. Every earlier draw was point one. None comes back exactly when every draw is point one. |
| Neighborhood.IsOnlyDepot | metaheuristicas/mTSP/algorithm/simulated_annealing.py:42-43 | The intended depot test holds exactly when the route is empty or holds nothing but its first entry, the depot. |
| Neighborhood.IsOnlyDepotAsWritten | metaheuristicas/mTSP/algorithm/simulated_annealing.py:42-43 | The depot test as written is false for every route, because the function returns nothing. |
| Neighborhood.OnlyDepotAsWrittenHasNoDraw | metaheuristicas/mTSP/algorithm/simulated_annealing.py:64-68 | As written, an inter-route move from [0, 1, 2] towards the depot-only route [0] has no admissible draw for point two. |
| Neighborhood.NeighborChoicesExist | metaheuristicas/mTSP/algorithm/simulated_annealing.py:47-68 | With the intended depot test, every operation and every pair of distinct routes, the first having more than two entries, admits a complete set of draws. |
| Neighborhood.PointsKeptBySamePoints | metaheuristicas/mTSP/algorithm/simulated_annealing.py:53-59 | Replacing one route by a rearrangement of its points keeps the points of the whole solution. |
| Neighborhood.PointsKeptByExchange | metaheuristicas/mTSP/algorithm/simulated_annealing.py:62-75 | Replacing two routes by two routes holding the same points between them keeps the points of the whole solution. |
| Neighborhood.IntraMove | metaheuristicas/mTSP/algorithm/simulated_annealing.py:53-59 | Operation 0 exchanges the entries at point one and point two and leaves the others. Operation 1 shifts point one's value from its first occurrence to index point two, which is the shift from point one when the route has no duplicates. Both keep the length and the multiset. |
| Neighborhood.InterMove | metaheuristicas/mTSP/algorithm/simulated_annealing.py:62-75 | Operation 2, towards a route holding more than the depot, exchanges point one of route one with point two of route two. Operation 3, or any move towards a depot-only route, removes point one's value at its first occurrence from route one. It then inserts the value into route two at the position Python makes of point two (index 1 for a depot-only route). The combined multiset is kept, and the lengths change as the operation dictates. |
| Neighborhood.RandomNeighbor | metaheuristicas/mTSP/algorithm/simulated_annealing.py:45-77 | For operations 0 and 1, route one becomes IntraMove of it. For operations 2 and 3, routes one and two become InterMove of them. Every other route is unchanged. The number of routes and the multiset of points are kept, and the lengths change as the operation dictates. |
| Neighborhood.RandomNeighborKeepsDepots | metaheuristicas/mTSP/algorithm/simulated_annealing.py:49 | When every route starts with a depot that occurs nowhere else in it, every route of the neighbour starts with the same depot: point one is never the depot. |
| Sorting.InsertBy | metaheuristicas/mTSP/algorithm/biased_random_key_genetic_algorithm_penalty.py:52 | Inserting into a sorted sequence adds exactly the new entry and keeps the sequence sorted. |
| Sorting.SortBy | metaheuristicas/mTSP/algorithm/biased_random_key_genetic_algorithm_penalty.py:52 | Sorting by a key gives a permutation of the input in non-decreasing key order. |
| Sorting.SortByFixesStrictlySorted | metaheuristicas/mTSP/algorithm/biased_random_key_genetic_algorithm_penalty.py:52 | Sorting an already strictly sorted sequence leaves it unchanged. |
| Brkga.PointGenes | metaheuristicas/mTSP/algorithm/biased_random_key_genetic_algorithm_penalty.py:42-51 | After the depot's entry is popped, position k holds point k + 1 with its own draw. |
| Brkga.PointGenesMembers | metaheuristicas/mTSP/algorithm/biased_random_key_genetic_algorithm_penalty.py:42-52 | Any rearrangement of those genes holds every point other than the depot with its own draw, and nothing else. |
| Brkga.PointGenesDistinct | metaheuristicas/mTSP/algorithm/biased_random_key_genetic_algorithm_penalty.py:42-52 | Any rearrangement of those genes names no point twice. |
| Brkga.GenerateKey | metaheuristicas/mTSP/algorithm/biased_random_key_genetic_algorithm_penalty.py:42-53 | The key has n - 1 entries sorted by gene. It names every point 1 .. n-1 exactly once, each with its own draw, and never the depot. |
| Brkga.GeneratedKeyPoints | metaheuristicas/mTSP/algorithm/biased_random_key_genetic_algorithm_penalty.py:42-53 | The points a generated key names are exactly 1 .. n-1, without repetition. |
| Brkga.FirstRejected | metaheuristicas/mTSP/algorithm/biased_random_key_genetic_algorithm_penalty.py:17-21 | The first rejected position from a starting point on, or the key's length when there is none. No position before it is rejected. |
| Brkga.Stop | metaheuristicas/mTSP/algorithm/biased_random_key_genetic_algorithm_penalty.py:17-21 | Decoding accepts every entry before the stop and rejects the entry at it, when there is one. |
| Brkga.StopIffAdmissible | metaheuristicas/mTSP/algorithm/biased_random_key_genetic_algorithm_penalty.py:17-21 | Decoding reads the whole key exactly when no entry names the depot or repeats a point. |
| Brkga.GeneratedKeyIsAdmissible | metaheuristicas/mTSP/algorithm/biased_random_key_genetic_algorithm_penalty.py:14-21 | A key from `generate_key` is never penalised: decoding reads all n - 1 entries. |
| Brkga.Customers | metaheuristicas/mTSP/algorithm/biased_random_key_genetic_algorithm_penalty.py:14-15 | `points_aux` starts as exactly the points 1 .. n-1. |
| Brkga.UnplacedMembers | metaheuristicas/mTSP/algorithm/biased_random_key_genetic_algorithm_penalty.py:14-36 | After k entries, a point is still in `points_aux` exactly when it is a point other than the depot that none of those entries named. |
| Brkga.DecodeStep | metaheuristicas/mTSP/algorithm/biased_random_key_genetic_algorithm_penalty.py:19-21 | The availability test fails on the entry at k exactly when it names the depot or repeats an earlier point. Accepting it adds its point to the placed ones. |
| Brkga.PlacedPrefix | metaheuristicas/mTSP/algorithm/biased_random_key_genetic_algorithm_penalty.py:17-21 | The points of an accepted prefix occur once each and lie in 1 .. n-1. |
| Brkga.DecodeEnd | metaheuristicas/mTSP/algorithm/biased_random_key_genetic_algorithm_penalty.py:17-21 | A position k with every earlier entry accepted, and the entry at k rejected or k the length, is the stop. Its prefix names distinct non-depot points. |
| Brkga.PlacedAppend | metaheuristicas/mTSP/algorithm/biased_random_key_genetic_algorithm_penalty.py:35 | Appending a point to one route adds exactly that point to the solution's multiset of placed points. |
| Brkga.ArgMinFirst | metaheuristicas/mTSP/algorithm/biased_random_key_genetic_algorithm_penalty.py:32-33 | `fos.index(min(fos))` is an index of a least entry, strictly below every entry before it. |
| Brkga.BestRoute | metaheuristicas/mTSP/algorithm/biased_random_key_genetic_algorithm_penalty.py:22-33 | The chosen route has the least candidate cost, and every earlier route has a strictly larger one. |
| Brkga.Append | metaheuristicas/mTSP/algorithm/biased_random_key_genetic_algorithm_penalty.py:32-36 | Only the best route and its cost change. The point is appended to that route, its cost becomes the candidate cost, and the placed points grow by exactly that point. |
| Brkga.StartRoutes | metaheuristicas/mTSP/algorithm/biased_random_key_genetic_algorithm_penalty.py:12 | One route per vehicle, each the depot alone, so nothing is placed yet. |
| Brkga.Start | metaheuristicas/mTSP/algorithm/biased_random_key_genetic_algorithm_penalty.py:12-13 | Decoding starts with one depot-first route per vehicle, every cost 0 and no point placed. |
| Brkga.AcceptPlaced | metaheuristicas/mTSP/algorithm/biased_random_key_genetic_algorithm_penalty.py:35-36 | Routes placing the points of the first k entries place those of the first k + 1 after the entry at k is appended. |
| Brkga.Accept | metaheuristicas/mTSP/algorithm/biased_random_key_genetic_algorithm_penalty.py:22-36 | Accepting an entry keeps one depot-first route per vehicle. It appends the point to the first route of least candidate cost, whose cost becomes that candidate, and leaves the others as they were. |
| Brkga.Run | metaheuristicas/mTSP/algorithm/biased_random_key_genetic_algorithm_penalty.py:17-36 | After k acceptances there is still one depot-first route and one cost per vehicle, and k entries have been read. |
| Brkga.RunPlaced | metaheuristicas/mTSP/algorithm/biased_random_key_genetic_algorithm_penalty.py:17-36 | After accepting the first k entries, none rejected, the routes place exactly those entries' points, each once, none of them the depot. |
| Brkga.Decode | metaheuristicas/mTSP/algorithm/biased_random_key_genetic_algorithm_penalty.py:11-40 | `calculate_solution` gives one depot-first route per vehicle. The routes place exactly the points of the key before its stop, once each and never the depot. A rejected entry sets route 0's cost to 100000000, and the objective is the sum of the route costs. |
| Brkga.GeneratedKeyCoversPoints | metaheuristicas/mTSP/algorithm/biased_random_key_genetic_algorithm_penalty.py:11-53 | Decoding a generated key places every point other than the depot exactly once. |
| Brkga.FounderVisitsEachPointOnce | metaheuristicas/mTSP/algorithm/biased_random_key_genetic_algorithm_penalty.py:55-66 | A founder's key is over n points, and its routes and objective value come from decoding that key. Its routes place every point other than the depot exactly once. |
| Brkga.NewFounder | metaheuristicas/mTSP/algorithm/biased_random_key_genetic_algorithm_penalty.py:57-65 | A new individual is the founder of its draw: the generated key, with routes and objective value from decoding that key. The key is over n points, and the routes place every point other than the depot exactly once. |
| Brkga.FoundersExtend | metaheuristicas/mTSP/algorithm/biased_random_key_genetic_algorithm_penalty.py:57-65 | Appending the founder of the next draw to the first t founders gives the first t + 1. |
| Brkga.CreateSolutions | metaheuristicas/mTSP/algorithm/biased_random_key_genetic_algorithm_penalty.py:55-66 | `create_solutions` gives p individuals, none when p ≤ 0. The t-th is the founder of the t-th draw: the generated key, with routes and objective value from decoding it. Every key is over n points, and every individual's routes place each non-depot point exactly once. |
| Brkga.EliteSizeIsShare | metaheuristicas/mTSP/algorithm/biased_random_key_genetic_algorithm_penalty.py:69 | For a percentage in [0, 100], `int(percent / 100 * len)` is that share of the population rounded down, and lies within the population size. |
| Brkga.CreateElite | metaheuristicas/mTSP/algorithm/biased_random_key_genetic_algorithm_penalty.py:68-75 | The elite followed by the rest is a permutation of the population sorted by objective value. The elite has the drawn share of the population, clamped as Python slicing does. |
| Brkga.EliteIsBest | metaheuristicas/mTSP/algorithm/biased_random_key_genetic_algorithm_penalty.py:68-75 | No elite member has a larger objective value than a non-elite one. |
| Brkga.GenerateGeneOrigin | metaheuristicas/mTSP/algorithm/biased_random_key_genetic_algorithm_penalty.py:77-91 | A gene is fresh, carrying the draw and the position, when x ≤ pm. Otherwise it is the elite parent's entry at the position when x ≤ rhoe, and the non-elite parent's when x > rhoe. So it is always the non-elite one when rhoe ≤ pm. |
| Brkga.GenerateGeneInUnit | metaheuristicas/mTSP/algorithm/biased_random_key_genetic_algorithm_penalty.py:77-91 | With x and the parents' genes in [0, 1], the gene is in [0, 1]. |
| Brkga.CrossoverGenes | metaheuristicas/mTSP/algorithm/biased_random_key_genetic_algorithm_penalty.py:97-100 | One gene per position, each the one `generate_gene` gives for that position's draws. |
| Brkga.GenerateKeyCrossover | metaheuristicas/mTSP/algorithm/biased_random_key_genetic_algorithm_penalty.py:93-103 | The crossover key has n - 1 entries, sorted by gene, and is a permutation of the drawn genes. |
| Brkga.CrossoverKeyOrigin | metaheuristicas/mTSP/algorithm/biased_random_key_genetic_algorithm_penalty.py:93-103 | Every entry of a crossover key comes from a parent or is a mutation drawn at some position, and every mutation drawn is in the key. |
| Brkga.CrossoverKeyOver | metaheuristicas/mTSP/algorithm/biased_random_key_genetic_algorithm_penalty.py:93-103 | Parents with keys over n points give a child key over n points. |
| Brkga.MutationAtZeroIsPenalised | metaheuristicas/mTSP/algorithm/biased_random_key_genetic_algorithm_penalty.py:82-87 | A mutation at position 0 names the depot, so the decoder penalises the child's key. |
| Brkga.OffspringDecodes | metaheuristicas/mTSP/algorithm/biased_random_key_genetic_algorithm_penalty.py:105-115 | A child's key is over n points and sorted by gene. Its routes and objective value come from decoding that key. |
| Brkga.ChildrenExtend | metaheuristicas/mTSP/algorithm/biased_random_key_genetic_algorithm_penalty.py:107-115 | Appending the child the next mating breeds keeps every child bred as its mating prescribes. |
| Brkga.NewChild | metaheuristicas/mTSP/algorithm/biased_random_key_genetic_algorithm_penalty.py:108-115 | A child is its parents' crossover key, decoded. Its key is that crossover key, over n points, and its routes and objective value come from decoding it. |
| Brkga.PopulationKeyed | metaheuristicas/mTSP/algorithm/biased_random_key_genetic_algorithm_penalty.py:105-117 | The elite followed by bred children has keys over n points throughout. |
| Brkga.AddChild | metaheuristicas/mTSP/algorithm/biased_random_key_genetic_algorithm_penalty.py:107-115 | One crossover iteration grows the population by one, keeps the elite prefix, and keeps every child bred as prescribed. |
| Brkga.Crossover | metaheuristicas/mTSP/algorithm/biased_random_key_genetic_algorithm_penalty.py:105-117 | `crossover` returns the elite, copied, followed by children. The t-th child is the offspring of the parents and gene draws the t-th mating picks: their crossover key, with routes and objective value from decoding it. There are p entries when the elite is smaller than p, and every key is over n points. |

## Left out

- The `Container`, `Course`, `Module`, `Material`, `Either` and `User` sources are not part of this model.
  - The container is modelled from the behaviour that `lecture.ts` forwards to and that `course.spec.ts` asserts.
  - Materials are compared through a key function the caller supplies.
  - Course elements are compared by title alone, so a module and a loose lecture with one title are equal elements. A move from the course requires that the element found under the lecture's title is a loose lecture. A target must be an element found under its title that is a module.
- Course authors (`course.spec.ts`, lines 286-292) are not modelled, because the `User` type is not part of this model.
- Courses.MoveLecture: `course.ts` is not part of this model, so its behaviour when a target module other than the source already holds an equal lecture (whether the lecture is first removed from its source, and whether that is rolled back) is not known here. For such a target the model rejects the move with ExistingElementError, before anything changes.
- Courses.MoveWithinModule: when the target module is the source module, the model makes a plain move among its lectures: positions run from 1 to the number of lectures, and position lectures + 1 gives InvalidPositionError with the course unchanged. This is a modelling choice, since `course.ts` is not part of this model. The course's design checks the range against the target's length + 1 before it removes the lecture from its source and adds it to the target. Under that order position lectures + 1 passes the range check and leaves the lecture last. The model does not follow that order for a move within one module.
- Modules are values held inside the course and are found by their title. TypeScript object references, and aliasing through them, are not modelled.
- Container.Move: positions are TypeScript numbers (`to: number`, `lecture.ts` line 35) and are modelled as integers, so fractional positions are not modelled. The same holds for Lectures.Move, Courses.Move and Courses.MoveLecture.
- The annealing driver (`simulated_annealing.py`, lines 79-118) and `large_neighborhood_search.py` are not modelled: they rest on floating-point temperatures, `math.exp`, printing and modules outside this model.
- The `BRKGA` driver loop (lines 119-133 of the BRKGA file) is not modelled: it prints and records results in the instance.
- Randomness is not modelled as a generator.
  - Every draw is an argument.
  - The rejection loops scan a finite stream of draws. `None` means the stream held no acceptable draw, where the original would keep drawing forever; RandomRoute and RandomRouteTwo state when that happens.
- Python runtime faults are excluded by preconditions:
  - `randint` on an empty range;
  - `list.remove` of an absent value;
  - indexing a key beyond the points;
  - `random.choice` on an empty elite or population (`Mating` indices must be in range);
  - `min([])` in the decoder with zero vehicles (`vehicles >= 1`);
  - `key.pop(0)` in `generate_key` with n = 0 (`n >= 1`).

  `ValidChoices` states the ranges the draws of `random_neighbor` come from.
- Brkga.Decode: with n = 0 the original fails when building the routes, on `instance.points[0]` (line 12), which it evaluates once per vehicle; the model decodes the then necessarily empty key into depot-only routes.
- Brkga.Decode: distances are abstracted into the `delta` function. The two-decimal rounding of every candidate cost and of the total (lines 30 and 38) is not modelled, and costs are exact reals.
- Brkga.Decode: the availability test compares point objects (`instance.points[i] not in points_aux`). Here points are their indices, which is the same test because points are distinct. `points_aux` is not kept in the decoder state; `Unplaced(key, k, n)` gives it after k placements, because it depends on the key alone.
- Brkga.CreateElite: computes `int(percent / 100 * len(S))` in exact arithmetic. Binary floating point can round the product just below an integer, which would give an elite one smaller. That is not modelled.
- Sorting.SortBy: the insertion sort keeps entries with equal keys in input order, as Python's stable sort does, but stability is not proved. Only the permutation, the order, and the fixed point on strictly sorted input are proved.
- Brkga.GenerateGene carries no contract of its own. GenerateGeneOrigin states which of the three sources it returns for each range of x, and GenerateGeneInUnit bounds it.
- Brkga.GenerateGene: `rhoe`, `pm` (`randint(...) / 100`, lines 78-79) and `x` (`uniform(0, 1)`, line 81) are binary doubles in the original, while `Rate` is the exact rational `percent / 100`. The double nearest 7/100 is 0.07000000000000000666..., so an `x` equal to that double mutates in the original but not in the model. Such boundary draws are not modelled.
- Neighborhood.RandomNeighbor: models the corrected `isOnlyDepot` (see Findings), so a route two holding the depot alone forces a shift to its index 1.
- Neighborhood.InterMove: models the corrected `isOnlyDepot` as well; the as-written test is `IsOnlyDepotAsWritten`.
- `deepcopy` of the elite in `crossover`, and of the solution in `random_neighbor`, needs no modelling because all values are immutable.
- The per-route costs the original keeps in `instance.current_solution_fo_per_route` are returned by Decode instead of being written into the instance.

## Findings

| source | as written | input that shows it | evidently intended | confidence | as-written member | corrected member |
|---|---|---|---|---|---|---|
| metaheuristicas/mTSP/algorithm/simulated_annealing.py:42-43 | `isOnlyDepot` evaluates `len(routes[route_index]) <= 1` but has no `return`, so every call yields `None`. The forced shift on lines 64-66 therefore never runs. | Solution `[[0, 1, 2], [0]]`, option 2 or 3, route one 0, route two 1: line 68 then calls `randint(1, 0)`, whose range is empty. | Return the comparison, so that a route two holding only the depot forces a shift to its index 1. | high; not executed | Neighborhood.OnlyDepotAsWrittenHasNoDraw | Neighborhood.NeighborChoicesExist |
