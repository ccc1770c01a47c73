# Weekly classroom scheduling, modelled in Dafny

This project models the scheduler of the `WeeklyClassroomScheduling` class
(`main.py`). The scheduler places every lecture and lab session of a fixed
list of courses on the five weekdays and the configured timeslots. It does
this for two independent sections, "A" and "B". Within a section, no
instructor and no room name may be booked twice at the same day and
timeslot. The search is a depth-first backtracking search with exact undo.
A capacity pre-check and an instructor check run before the search starts.

Files:

- `wrappers.dfy`: `Option`, which stands for Python's `None`.
- `timetable.dfy` (module `Timetable`): the values (`Classroom`,
  `Requirement`, `Assignment`), the weekday and section constants and
  `"Room 102"`. It also holds the conflict predicates behind the two
  availability checks, the no-conflict invariant `ConflictFree`, the
  counting functions, the first-positive-count choice, the dictionary key
  order (`Dedup`) and the first-match room choice (`FirstRoom`).
- `capacity.dfy` (module `Capacity`): a pigeonhole bound. A conflict-free
  list of one section's assignments takes distinct (room name, day,
  timeslot) slots, so it has at most rooms × days × timeslots entries.
- `scheduler.dfy` (module `WeeklyScheduling`): the class
  `WeeklyClassroomScheduling`. Its configuration is held in `const` fields.
  Its one mutable field is `assignments`, a `seq<Assignment>`. The search
  state `required_sessions` is an `array<int>` indexed in dictionary key
  order. `Backtrack` and `TrySlot` update both in place with the same
  push/pop and decrement/increment discipline as the source.

How the model maps the source:

- The dictionary `required_sessions` is a key list `keys = Dedup(courses)`
  (first-insertion order, as a Python dict keeps it) plus an `array<int>`
  of counts. `permanent_assignments.get(course, None)` is `InstructorOf`,
  which returns an `Option`. `course_to_instructor` is a `map<string, string>`,
  built after the instructor check has passed.
- `required_sessions.copy()` for each section is a fresh array filled from
  the same sequence of initial counts.
- `Backtrack` holds the base case, the course choice and the day/timeslot
  loops. The loop body (room choice, both availability checks, append,
  decrement, recursive call, pop, increment) is the method `TrySlot`.
  `Backtrack` and `TrySlot` call each other. Both decrease the sum of the
  positive counts (`PositiveTotal`), which drops by one on every commit.
- Lecture and lab counts are unbounded `int`s, as in Python. A negative
  count never blocks termination. If some count is negative and no count is
  positive, the search returns `false` at `if not course`. The same branch
  is taken when the chosen course's name is the empty string.
- `Schedule` keeps the dictionary set-up, the pre-check and the outcome.
  Two of its loops are separate methods: the instructor check
  (main.py:51-54) is `FirstWithoutInstructor`, and the section loop
  (main.py:62-67) is `ScheduleSections`.
- `Schedule` returns an `Outcome`. The source returns `True` for
  `Scheduled` and `None` for each of the other three cases. The model's
  failure constructors carry the reason that the source only prints.

Behaviours of the code that a reader might not expect, all of which the
model keeps:

- The room choice is keyed on the room *name* `"Room 102"`, not on the
  `has_Lab` flag (main.py:113-118). `Classroom.hasLab` is kept but never read.
- Rooms are compared by name only (main.py:26). Two records with the same
  name and different flags conflict.
- When section "B" fails after "A" succeeded, `schedule()` returns `None`
  (main.py:64-66). Section "A"'s assignments stay in `assignments`; they
  are not discarded. The model keeps them too (see `Schedule`'s
  `SectionFailed("B")` clause).
- `schedule()` does not clear `assignments` first (main.py:39-67), so the
  model states everything relative to the list on entry.
- The pre-check compares one section's demand with the capacity of both
  sections (main.py:34-35, "Two sections"). `SolvedSectionPassesPreCheck` shows that any solvable section
  fits in a single section's capacity, so the check is loose by a factor of
  two. As in the source, it still never rejects a solvable input.

## Model

| member | source | states |
|---|---|---|
| `WeeklyScheduling.WeeklyClassroomScheduling.constructor` | main.py:2-11 | The scheduler keeps the given courses, rooms, timeslots, session table and instructor bindings; it starts with no assignments, which is trivially conflict-free. |
| `WeeklyScheduling.WeeklyClassroomScheduling.IsInstructorAvailable` | main.py:13-21 | Returns false exactly when some committed assignment has the same instructor, day, timeslot and section (`InstructorFree`). |
| `WeeklyScheduling.WeeklyClassroomScheduling.IsClassroomAvailable` | main.py:23-31 | Returns false exactly when some committed assignment has a room of the same name at the same day, timeslot and section (`RoomFree`). Only the name is compared. |
| `Timetable.OtherSectionsNeverBlock` | main.py:13-31 | An assignment in another section never changes whether an instructor or a room is free. |
| `Timetable.AppendConflictFree` | main.py:84-95 | Appending an assignment keeps the list conflict-free if and only if the list was conflict-free and both availability checks accept it. |
| `WeeklyScheduling.WeeklyClassroomScheduling.HasSufficientResources` | main.py:33-37 | Accepts exactly when the total demand is at most the slots of all rooms × days × timeslots counted once per section (two sections). A demand that fits one section's slots is always accepted. |
| `WeeklyScheduling.WeeklyClassroomScheduling.PreCheckIsNecessary` | main.py:33-37 | If a conflict-free placement of one section's `Sum(required)` sessions in the configured rooms, days and timeslots exists, the pre-check passes. In fact the demand fits in one section's capacity. |
| `Capacity.SectionFitsSlots` | main.py:35 | A conflict-free list of one section's assignments in the given rooms, days and timeslots has at most rooms × days × timeslots entries. |
| `WeeklyScheduling.WeeklyClassroomScheduling.SolvedSectionPassesPreCheck` | main.py:57-64 | Whenever the search for a section succeeds, the pre-check would have accepted the counts it was given. The pre-check never turns away an input the search can solve. |
| `WeeklyScheduling.WeeklyClassroomScheduling.GetClassroomForCourse` | main.py:111-118 | Returns a listed room named "Room 102" for a course with labs > 0, and a listed room with another name otherwise. |
| `WeeklyScheduling.WeeklyClassroomScheduling.NoClassroomOfItsKind` | main.py:113-118 | The room choice returns None exactly when no listed room is of the course's kind. |
| `WeeklyScheduling.WeeklyClassroomScheduling.ClassroomIsFirstOfItsKind` | main.py:115-118 | If several rooms are of the right kind, the course gets the first one in list order. |
| `Timetable.FirstRoom` | main.py:115-118 | The first-match selection returns None exactly when no room suits, and otherwise a listed room that suits. |
| `Timetable.FirstRoomIsFirst` | main.py:115-118 | A suitable room with no suitable room before it is the one the selection returns. |
| `WeeklyScheduling.WeeklyClassroomScheduling.SolvedCourseHasRoom` | main.py:83-84 | A course that owes sessions in a successful search has a room. So a course whose room is None is never placed. |
| `Timetable.FirstPositive` | main.py:75 | The search picks the first course in key order whose count is positive. It returns None exactly when no count is positive. |
| `WeeklyScheduling.WeeklyClassroomScheduling.Backtrack` | main.py:69-109 | Returns true when every count on entry is 0 (the base case). On success, the first session it commits is of the first course in key order whose count on entry is positive (`FirstPositive`). On failure, `assignments` and the counts are exactly as on entry. On success, every count is 0, and the appended assignments all carry `section` and place exactly each course's count on entry (`Solves`). The no-conflict invariant is kept either way. Terminates because the positive counts' sum bounds the depth. |
| `WeeklyScheduling.WeeklyClassroomScheduling.TrySlot` | main.py:83-107 | One day/timeslot attempt. It fails whenever the course has no room or either availability check refuses that day and timeslot (`Admits`). On success, the first assignment it added is the course's session with its instructor and room at exactly that day, timeslot and section (`CommitsAt`), and the section is solved from the counts on entry. On failure it undoes the append and the decrement exactly. |
| `WeeklyScheduling.WeeklyClassroomScheduling.NothingOwed` | main.py:71-72 | When every count is 0, appending nothing solves the section. |
| `WeeklyScheduling.WeeklyClassroomScheduling.SuccessStep` | main.py:88-102 | A committed session of course `keys[k]` plus a solution for the decremented counts solves the counts before the commit. |
| `Timetable.PositiveTotalDecrement` | main.py:96 | Decrementing a positive count lowers the sum of positive counts by exactly one. This is the search's termination measure. |
| `WeeklyScheduling.WeeklyClassroomScheduling.Required` | main.py:41-44 | The dictionary's values: the count for each key is that course's lectures plus labs. |
| `Timetable.Dedup` | main.py:41-44 | The keys of the session dictionary are distinct and are exactly the listed course names. |
| `Timetable.DedupKeepsFirstOccurrences` | main.py:41-44 | The keys are in first-insertion order: of any two keys, the earlier one occurs in the course list before the later one first occurs. With `Dedup`'s contract this fixes the key list completely, and with it the course `FirstPositive` picks. |
| `Timetable.DedupOfDistinct` | main.py:41-44 | With no repeated course names, the key order is the course list itself. |
| `WeeklyScheduling.WeeklyClassroomScheduling.InstructorOf` | main.py:48 | The lookup is `Some` exactly when the course has a binding, and then it holds the bound instructor. |
| `WeeklyScheduling.WeeklyClassroomScheduling.HasInstructor` | main.py:51-52 | A course passes the instructor check exactly when its lookup is `Some` with a non-empty name. `None` and the empty string are the falsy cases. |
| `WeeklyScheduling.WeeklyClassroomScheduling.InstructorMap` | main.py:47-50 | Once every key passes the instructor check, the map binds each key to its permanent instructor. |
| `WeeklyScheduling.WeeklyClassroomScheduling.Schedule` | main.py:39-67 | Returns a missing-instructor failure iff some course has no truthy instructor, and it names the first such course in key order. Returns an insufficient-resources failure iff all have one and the pre-check fails. Both leave `assignments` unchanged. A failure of section "A" changes nothing; a failure of "B" leaves only a full section "A". On success, every course has exactly lectures + labs assignments in each of "A" and "B", made with its instructor and its room on a weekday and configured timeslot, all conflict-free. When every course has an instructor and owes no session (for instance, when there are no courses), it returns `Scheduled`. |
| `WeeklyScheduling.WeeklyClassroomScheduling.FirstWithoutInstructor` | main.py:51-54 | Returns None exactly when every key has a truthy instructor, and otherwise the index of the first key without one. |
| `WeeklyScheduling.WeeklyClassroomScheduling.NothingOwedPassesPreCheck` | main.py:33-37 | When no course needs a session, every initial count is 0 and the pre-check passes. |
| `WeeklyScheduling.WeeklyClassroomScheduling.ScheduleSections` | main.py:61-67 | Searches "A" and then "B", each from a fresh copy of the full counts, and stops at the first failure. A failure of "A" changes nothing, a failure of "B" leaves only a full section "A", and success covers both sections. When every count is 0, it succeeds. |
| `WeeklyScheduling.WeeklyClassroomScheduling.SectionStep` | main.py:62-66 | After a successful search for section `Sections[s]` that started from the full counts (`Required(keys)`, the fresh copy at main.py:64), the assignments added since `Schedule` began cover one more section. |
| `Timetable.NoneInSection` | main.py:62-64 | Assignments made only for earlier sections place nothing in the section about to be searched. |

## Left out

- `display_schedule`, `main()` with its literal data, and every `print`: console output and static configuration only.
- The constructor arguments `instructors` and `special_courses`: the logic never reads them. The `has_Lab` flag is kept in `Classroom` but never read, as in the source.
- A course missing from `course_schedule` makes the source raise `KeyError`. `Schedule` requires every listed course to have an entry.
- Python truthiness beyond strings: instructors and course names are `string`s, so "falsy" means `None` (absent) or the empty string.
- Python's recursion limit: the search depth equals the total number of sessions, and a `RecursionError` on very large inputs is not modelled.
- WeeklyScheduling.WeeklyClassroomScheduling.Schedule: does not state search completeness, that is, that the depth-first search finds a schedule whenever one exists. It states success only for the case where nothing is owed.
- WeeklyScheduling.WeeklyClassroomScheduling.Backtrack: does not state search completeness beyond the base case, nor which of several solutions the fixed day/timeslot order finds first. Determinism follows from the model being sequential code with no choice.
- The instructor lookup is recomputed in each `TrySlot` call, whereas the source does it once per `backtrack` call (main.py:79). It is a pure lookup, so the outcome is the same. The room choice is made once per slot, as in the source (main.py:83).
