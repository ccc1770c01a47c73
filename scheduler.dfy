/**
 * The weekly classroom scheduler: a depth-first search that places every
 * required session of every course, section by section, so that no
 * instructor and no room name is booked twice at one day and timeslot of a
 * section.
 */
module WeeklyScheduling {
  import opened Wrappers
  import opened Timetable
  import Capacity

  /**
   * How a call of `Schedule` ends. Every constructor but `Scheduled` stands
   * for the source's `None`; the reason it carries is the one the source prints.
   */
  datatype Outcome =
    | Scheduled
    | MissingInstructor(course: string)
    | InsufficientResources
    | SectionFailed(section: string)

  class WeeklyClassroomScheduling {
    const courses: seq<string>
    const classrooms: seq<Classroom>
    const timeslots: seq<string>
    const courseSchedule: map<string, Requirement>
    const permanentAssignments: map<string, string>
    /** The committed assignments of every section, in the order they were made. */
    var assignments: seq<Assignment>

    ghost predicate Valid()
      reads this
    {
      ConflictFree(assignments)
    }

    constructor (courses: seq<string>, classrooms: seq<Classroom>, timeslots: seq<string>,
                 courseSchedule: map<string, Requirement>, permanentAssignments: map<string, string>)
      ensures this.courses == courses && this.classrooms == classrooms && this.timeslots == timeslots
      ensures this.courseSchedule == courseSchedule && this.permanentAssignments == permanentAssignments
      ensures assignments == [] && Valid()
    {
      this.courses := courses;
      this.classrooms := classrooms;
      this.timeslots := timeslots;
      this.courseSchedule := courseSchedule;
      this.permanentAssignments := permanentAssignments;
      assignments := [];
    }

    /** The sessions a course needs in each section: its lectures plus its labs. */
    function Sessions(course: string): int
      requires course in courseSchedule
    {
      courseSchedule[course].lectures + courseSchedule[course].labs
    }

    /** The sessions needed by each of `keys`, in the same order. */
    function Required(keys: seq<string>): (r: seq<int>)
      requires forall i :: 0 <= i < |keys| ==> keys[i] in courseSchedule
      ensures |r| == |keys| && forall i :: 0 <= i < |keys| ==> r[i] == Sessions(keys[i])
    {
      seq(|keys|, i requires 0 <= i < |keys| => Sessions(keys[i]))
    }

    /** The instructor bound to `course`, or None when it has none (a dictionary `get` with default None). */
    function InstructorOf(course: string): (r: Option<string>)
      ensures r.Some? <==> course in permanentAssignments
      ensures r.Some? ==> r.value == permanentAssignments[course]
    {
      if course in permanentAssignments then Some(permanentAssignments[course]) else None
    }

    /** The course has an instructor the source accepts: one is bound, and it is not the (falsy) empty string. */
    predicate HasInstructor(course: string): (r: bool)
      ensures r <==> InstructorOf(course).Some? && InstructorOf(course).value != ""
      ensures r ==> course in permanentAssignments
    {
      match InstructorOf(course)
      case None => false
      case Some(name) => name != ""
    }

    /** Scans the committed assignments for one that books `instructor` at that time in `section`. */
    method IsInstructorAvailable(instructor: string, day: string, timeslot: string, section: string)
      returns (free: bool)
      ensures free == InstructorFree(assignments, instructor, day, timeslot, section)
    {
      var i := 0;
      while i < |assignments|
        invariant 0 <= i <= |assignments|
        invariant InstructorFree(assignments[..i], instructor, day, timeslot, section)
      {
        var a := assignments[i];
        if a.instructor == instructor && a.day == day && a.timeslot == timeslot && a.section == section {
          return false;
        }
        assert assignments[..i + 1] == assignments[..i] + [a];
        i := i + 1;
      }
      assert assignments[..i] == assignments;
      return true;
    }

    /** Scans the committed assignments for one that books a room named like `classroom` at that time in `section`. */
    method IsClassroomAvailable(classroom: Classroom, day: string, timeslot: string, section: string)
      returns (free: bool)
      ensures free == RoomFree(assignments, classroom, day, timeslot, section)
    {
      var i := 0;
      while i < |assignments|
        invariant 0 <= i <= |assignments|
        invariant RoomFree(assignments[..i], classroom, day, timeslot, section)
      {
        var a := assignments[i];
        if a.classroom.name == classroom.name && a.day == day && a.timeslot == timeslot && a.section == section {
          return false;
        }
        assert assignments[..i + 1] == assignments[..i] + [a];
        i := i + 1;
      }
      assert assignments[..i] == assignments;
      return true;
    }

    /**
     * The capacity pre-check: total demand against rooms × days × timeslots,
     * counted once for each of the two sections.
     */
    function HasSufficientResources(required: seq<int>): (r: bool)
      ensures r <==> Sum(required) <= |Sections| * (|classrooms| * |Weekdays| * |timeslots|)
      ensures Sum(required) <= |classrooms| * |Weekdays| * |timeslots| ==> r
    {
      Sum(required) <= |classrooms| * |Weekdays| * |timeslots| * 2
    }

    /**
     * The pre-check never rejects a demand that one section could meet:
     * `placed` is any conflict-free list of one section's placements in the
     * configured rooms, days and timeslots.
     */
    lemma PreCheckIsNecessary(required: seq<int>, placed: seq<Assignment>, section: string)
      requires ConflictFree(placed)
      requires forall i :: 0 <= i < |placed| ==>
        placed[i].section == section && placed[i].classroom in classrooms &&
        placed[i].day in Weekdays && placed[i].timeslot in timeslots
      requires |placed| == Sum(required)
      ensures Sum(required) <= |classrooms| * |Weekdays| * |timeslots|
      ensures HasSufficientResources(required)
    {
      Capacity.SectionFitsSlots(placed, section, classrooms, Weekdays, timeslots);
    }

    /** The room a course is taught in: the first lab room for a lab course, the first other room otherwise. */
    function GetClassroomForCourse(course: string): (room: Option<Classroom>)
      requires course in courseSchedule
      ensures room.Some? ==>
        room.value in classrooms && (room.value.name == LabRoomName <==> courseSchedule[course].labs > 0)
    {
      FirstRoom(classrooms, courseSchedule[course].labs > 0)
    }

    /** A course gets no room exactly when no listed room is of its kind. */
    lemma NoClassroomOfItsKind(course: string)
      requires course in courseSchedule
      ensures GetClassroomForCourse(course).None? <==> forall i :: 0 <= i < |classrooms| ==>
        (classrooms[i].name == LabRoomName <==> courseSchedule[course].labs <= 0)
    {
      assert forall i :: 0 <= i < |classrooms| ==>
        (Suits(classrooms[i], courseSchedule[course].labs > 0) <==>
         (classrooms[i].name == LabRoomName <==> courseSchedule[course].labs > 0));
    }

    /** Of several rooms of the right kind, the course gets the one listed first. */
    lemma ClassroomIsFirstOfItsKind(course: string, i: nat)
      requires course in courseSchedule && i < |classrooms|
      requires classrooms[i].name == LabRoomName <==> courseSchedule[course].labs > 0
      requires forall j :: 0 <= j < i ==> (classrooms[j].name == LabRoomName <==> courseSchedule[course].labs <= 0)
      ensures GetClassroomForCourse(course) == Some(classrooms[i])
    {
      FirstRoomIsFirst(classrooms, courseSchedule[course].labs > 0, i);
    }

    /** What every assignment made by the search looks like, whatever its section. */
    predicate Placed(a: Assignment, keys: seq<string>, courseToInstructor: map<string, string>)
    {
      a.course in keys && a.course != "" &&
      a.course in courseToInstructor && a.instructor == courseToInstructor[a.course] &&
      a.course in courseSchedule && GetClassroomForCourse(a.course) == Some(a.classroom) &&
      a.classroom in classrooms && a.day in Weekdays && a.timeslot in timeslots
    }

    /**
     * `post` extends `pre` with assignments of `section` only, made as the
     * search makes them, which place exactly `owed[i]` sessions of each
     * course `keys[i]`.
     */
    ghost predicate Solves(pre: seq<Assignment>, post: seq<Assignment>, owed: seq<int>,
                           keys: seq<string>, courseToInstructor: map<string, string>, section: string)
    {
      |pre| <= |post| && post[..|pre|] == pre && |owed| == |keys| &&
      (forall j :: |pre| <= j < |post| ==> post[j].section == section && Placed(post[j], keys, courseToInstructor)) &&
      (forall i :: 0 <= i < |keys| ==> CountIn(post[|pre|..], keys[i], section) == owed[i]) &&
      |post| - |pre| == Sum(owed)
    }

    /**
     * Places every session still owed in `counts` (indexed like `keys`) for
     * `section`. On success the counts are all zero and the new assignments
     * place exactly the owed sessions; on failure nothing has changed.
     */
    method Backtrack(counts: array<int>, keys: seq<string>, courseToInstructor: map<string, string>, section: string)
      returns (ok: bool)
      requires Valid()
      requires counts.Length == |keys| && Distinct(keys)
      requires forall i :: 0 <= i < |keys| ==> keys[i] in courseSchedule && keys[i] in courseToInstructor
      modifies this, counts
      ensures Valid()
      ensures !ok ==> assignments == old(assignments) && counts[..] == old(counts[..])
      ensures ok ==> forall i :: 0 <= i < counts.Length ==> counts[i] == 0
      ensures ok ==> Solves(old(assignments), assignments, old(counts[..]), keys, courseToInstructor, section)
      ensures (forall i :: 0 <= i < counts.Length ==> old(counts[i]) == 0) ==> ok
      ensures ok && FirstPositive(old(counts[..])).Some? ==>
        |old(assignments)| < |assignments| &&
        assignments[|old(assignments)|].course == keys[FirstPositive(old(counts[..])).value]
      decreases PositiveTotal(counts[..]), 1
    {
      if forall i | 0 <= i < counts.Length :: counts[i] == 0 {
        NothingOwed(assignments, counts[..], keys, courseToInstructor, section);
        return true;
      }
      var first := FirstPositive(counts[..]);
      if first.None? || keys[first.value] == "" {
        return false;
      }
      var d := 0;
      while d < |Weekdays|
        invariant 0 <= d <= |Weekdays|
        invariant assignments == old(assignments) && counts[..] == old(counts[..])
      {
        var t := 0;
        while t < |timeslots|
          invariant 0 <= t <= |timeslots|
          invariant assignments == old(assignments) && counts[..] == old(counts[..])
        {
          ok := TrySlot(counts, first.value, keys, courseToInstructor, section, Weekdays[d], timeslots[t]);
          if ok {
            return true;
          }
          t := t + 1;
        }
        d := d + 1;
      }
      return false;
    }

    /**
     * The search may commit a session of `course` at `day`/`timeslot` in
     * `section` after the assignments `s`: the course has a room, and both the
     * instructor and that room are free then.
     */
    predicate Admits(s: seq<Assignment>, course: string, courseToInstructor: map<string, string>,
                     section: string, day: string, timeslot: string)
      requires course in courseSchedule && course in courseToInstructor
    {
      GetClassroomForCourse(course).Some? &&
      InstructorFree(s, courseToInstructor[course], day, timeslot, section) &&
      RoomFree(s, GetClassroomForCourse(course).value, day, timeslot, section)
    }

    /** The first assignment `post` adds to `pre` is a session of `course` at `day`/`timeslot` in its room. */
    predicate CommitsAt(pre: seq<Assignment>, post: seq<Assignment>, course: string,
                        courseToInstructor: map<string, string>, section: string, day: string, timeslot: string)
      requires course in courseSchedule && course in courseToInstructor
    {
      GetClassroomForCourse(course).Some? && |pre| < |post| &&
      post[|pre|] == Assignment(course, courseToInstructor[course], GetClassroomForCourse(course).value,
                                day, timeslot, section)
    }

    /**
     * One step of the search, the body of its day/timeslot loops: if the
     * course `keys[k]` has a room and both its instructor and that room are
     * free at `day`/`timeslot` in `section`, commit the session, search on,
     * and undo the commit if the deeper search fails.
     */
    method TrySlot(counts: array<int>, k: nat, keys: seq<string>, courseToInstructor: map<string, string>,
                   section: string, day: string, timeslot: string)
      returns (ok: bool)
      requires Valid()
      requires counts.Length == |keys| && Distinct(keys)
      requires forall i :: 0 <= i < |keys| ==> keys[i] in courseSchedule && keys[i] in courseToInstructor
      requires k < |keys| && counts[k] > 0 && keys[k] != "" && day in Weekdays && timeslot in timeslots
      modifies this, counts
      ensures Valid()
      ensures !ok ==> assignments == old(assignments) && counts[..] == old(counts[..])
      ensures ok ==> forall i :: 0 <= i < counts.Length ==> counts[i] == 0
      ensures ok ==> Solves(old(assignments), assignments, old(counts[..]), keys, courseToInstructor, section)
      ensures ok ==> CommitsAt(old(assignments), assignments, keys[k], courseToInstructor, section, day, timeslot)
      ensures !Admits(old(assignments), keys[k], courseToInstructor, section, day, timeslot) ==> !ok
      decreases PositiveTotal(counts[..]), 0
    {
      var course := keys[k];
      var instructor := courseToInstructor[course];
      var classroom := GetClassroomForCourse(course);
      if classroom.None? {
        return false;
      }
      var instructorFree := IsInstructorAvailable(instructor, day, timeslot, section);
      if !instructorFree {
        return false;
      }
      var roomFree := IsClassroomAvailable(classroom.value, day, timeslot, section);
      if !roomFree {
        return false;
      }
      ghost var start, owed := assignments, counts[..];
      assert Admits(start, course, courseToInstructor, section, day, timeslot);
      var a := Assignment(course, instructor, classroom.value, day, timeslot, section);
      AppendConflictFree(assignments, a);
      assignments := assignments + [a];
      counts[k] := counts[k] - 1;
      ghost var mid, midOwed := assignments, counts[..];
      assert midOwed == owed[k := owed[k] - 1];
      PositiveTotalDecrement(owed, k);
      ok := Backtrack(counts, keys, courseToInstructor, section);
      if ok {
        SuccessStep(start, a, mid, assignments, owed, k, midOwed, keys, courseToInstructor, section);
        assert assignments[..|mid|] == mid;
        assert assignments[|start|] == mid[|start|] == a;
        return true;
      }
      assert (start + [a])[..|start|] == start;
      assignments := assignments[..|assignments| - 1];
      counts[k] := counts[k] + 1;
      assert counts[..] == owed by {
        assert forall i :: 0 <= i < counts.Length ==> counts[i] == owed[i];
      }
    }

    /**
     * Every course a successful search placed sessions of has a room of its
     * kind; so a course that owes sessions and has none is never placed.
     */
    lemma {:induction false} SolvedCourseHasRoom(pre: seq<Assignment>, post: seq<Assignment>, owed: seq<int>,
                                                 keys: seq<string>, courseToInstructor: map<string, string>,
                                                 section: string, i: nat)
      requires i < |keys| && keys[i] in courseSchedule
      requires Solves(pre, post, owed, keys, courseToInstructor, section) && owed[i] > 0
      ensures GetClassroomForCourse(keys[i]).Some?
    {
      var added := post[|pre|..];
      CountInPositive(added, keys[i], section);
      var j :| 0 <= j < |added| && added[j].course == keys[i] && added[j].section == section;
      assert added[j] == post[|pre| + j];
      assert Placed(post[|pre| + j], keys, courseToInstructor);
    }

    /**
     * A successful search of one section, started from a conflict-free
     * list, proves that the capacity pre-check passes for the counts it was
     * given: the pre-check never turns away an input the search can solve.
     */
    lemma SolvedSectionPassesPreCheck(pre: seq<Assignment>, post: seq<Assignment>, owed: seq<int>,
                                      keys: seq<string>, courseToInstructor: map<string, string>, section: string)
      requires ConflictFree(post)
      requires Solves(pre, post, owed, keys, courseToInstructor, section)
      ensures Sum(owed) <= |classrooms| * |Weekdays| * |timeslots|
      ensures HasSufficientResources(owed)
    {
      var added := post[|pre|..];
      forall i, j | 0 <= i < j < |added| ensures !Clash(added[i], added[j]) {
        assert added[i] == post[|pre| + i] && added[j] == post[|pre| + j];
      }
      forall i | 0 <= i < |added|
        ensures added[i].section == section && added[i].classroom in classrooms &&
                added[i].day in Weekdays && added[i].timeslot in timeslots
      {
        assert added[i] == post[|pre| + i];
        assert Placed(post[|pre| + i], keys, courseToInstructor);
      }
      PreCheckIsNecessary(owed, added, section);
    }

    /** When nothing is owed, adding nothing solves the section. */
    lemma NothingOwed(s: seq<Assignment>, owed: seq<int>, keys: seq<string>,
                      courseToInstructor: map<string, string>, section: string)
      requires |owed| == |keys| && forall i :: 0 <= i < |owed| ==> owed[i] == 0
      ensures Solves(s, s, owed, keys, courseToInstructor, section)
    {
      assert s[|s|..] == [];
      ZeroSum(owed);
    }

    /**
     * One level of the search: if committing `a` (a session of `keys[k]`)
     * and then solving the rest succeeded, the two together place exactly
     * the sessions owed before the commit.
     */
    lemma SuccessStep(pre: seq<Assignment>, a: Assignment, mid: seq<Assignment>, post: seq<Assignment>,
                      preCounts: seq<int>, k: nat, midCounts: seq<int>,
                      keys: seq<string>, courseToInstructor: map<string, string>, section: string)
      requires Distinct(keys) && |preCounts| == |keys| && k < |keys|
      requires mid == pre + [a] && midCounts == preCounts[k := preCounts[k] - 1]
      requires a.section == section && Placed(a, keys, courseToInstructor) && a.course == keys[k]
      requires Solves(mid, post, midCounts, keys, courseToInstructor, section)
      ensures Solves(pre, post, preCounts, keys, courseToInstructor, section)
    {
      assert post[..|pre|] == mid[..|pre|];
      var rest := post[|mid|..];
      assert post[|pre|..] == [a] + rest by {
        assert post[..|mid|] == mid;
      }
      assert forall i :: 0 <= i < |keys| ==> CountIn(rest, keys[i], section) == midCounts[i];
      CountInCons(a, rest, keys, k, preCounts, section);
      StepPlaced(pre, a, mid, post, midCounts, keys, courseToInstructor, section);
      SumUpdate(preCounts, k, preCounts[k] - 1);
    }

    /** The placements behind `SuccessStep`: the committed session and the deeper ones are all made as the search makes them. */
    lemma StepPlaced(pre: seq<Assignment>, a: Assignment, mid: seq<Assignment>, post: seq<Assignment>,
                     midCounts: seq<int>, keys: seq<string>, courseToInstructor: map<string, string>, section: string)
      requires mid == pre + [a] && a.section == section && Placed(a, keys, courseToInstructor)
      requires Solves(mid, post, midCounts, keys, courseToInstructor, section)
      ensures forall j :: |pre| <= j < |post| ==> post[j].section == section && Placed(post[j], keys, courseToInstructor)
    {
      assert post[|pre|] == a by {
        assert post[..|mid|] == mid && |pre| < |mid|;
        assert post[|pre|] == post[..|mid|][|pre|] == mid[|pre|];
      }
      forall j | |pre| <= j < |post| ensures post[j].section == section && Placed(post[j], keys, courseToInstructor) {
        if j == |pre| {
          assert post[j] == a;
        } else {
          assert |mid| <= j;
        }
      }
    }

    /** The instructor map the search is given: each course of `keys` with its bound instructor. */
    function InstructorMap(keys: seq<string>): (m: map<string, string>)
      requires forall c :: c in keys ==> HasInstructor(c)
      ensures forall c :: c in keys ==> HasInstructor(c) && c in m && m[c] == permanentAssignments[c]
    {
      assert forall c :: c in keys ==> HasInstructor(c) && c in permanentAssignments;
      map c | c in keys :: permanentAssignments[c]
    }

    /**
     * `post` extends `start` with assignments made as the search makes them,
     * in the sections `done` only, which place for each course of `keys` its
     * full session count in every section of `done`.
     */
    ghost predicate Covers(start: seq<Assignment>, post: seq<Assignment>, keys: seq<string>,
                           courseToInstructor: map<string, string>, done: seq<string>)
      requires forall c :: c in keys ==> c in courseSchedule
    {
      |start| <= |post| && post[..|start|] == start &&
      (forall j :: |start| <= j < |post| ==> post[j].section in done && Placed(post[j], keys, courseToInstructor)) &&
      (forall c, section :: c in keys && section in done ==> CountIn(post[|start|..], c, section) == Sessions(c))
    }

    /** No listed course needs any session: every count starts at zero. */
    ghost predicate OwesNothing()
      requires forall c :: c in courses ==> c in courseSchedule
    {
      forall c :: c in courses ==> Sessions(c) == 0
    }

    /** When nothing is owed, every initial count is zero and the pre-check passes. */
    lemma NothingOwedPassesPreCheck()
      requires forall c :: c in courses ==> c in courseSchedule
      requires OwesNothing()
      ensures forall j :: 0 <= j < |Required(Dedup(courses))| ==> Required(Dedup(courses))[j] == 0
      ensures HasSufficientResources(Required(Dedup(courses)))
    {
      var keys := Dedup(courses);
      assert forall j :: 0 <= j < |keys| ==> keys[j] in courses;
      ZeroSum(Required(keys));
    }

    /** Every course named in the list has an instructor the source accepts. */
    predicate AllHaveInstructors()
    {
      forall c :: c in courses ==> HasInstructor(c)
    }

    /**
     * Schedules section "A" and then section "B", each from the full session
     * counts, after checking that every course has an instructor and that
     * the capacity pre-check passes.
     */
    method Schedule() returns (outcome: Outcome)
      requires Valid()
      requires forall c :: c in courses ==> c in courseSchedule
      modifies this
      ensures Valid()
      ensures outcome.MissingInstructor? <==> !AllHaveInstructors()
      ensures outcome.MissingInstructor? ==>
        outcome.course in courses && !HasInstructor(outcome.course) && assignments == old(assignments)
      ensures outcome.MissingInstructor? ==>
        (exists i :: 0 <= i < |Dedup(courses)| && Dedup(courses)[i] == outcome.course &&
          forall j :: 0 <= j < i ==> HasInstructor(Dedup(courses)[j]))
      ensures outcome.InsufficientResources? <==>
        AllHaveInstructors() && !HasSufficientResources(Required(Dedup(courses)))
      ensures outcome.InsufficientResources? ==> assignments == old(assignments)
      ensures outcome.SectionFailed? ==> outcome.section in Sections
      ensures outcome == SectionFailed("A") ==> assignments == old(assignments)
      ensures outcome == SectionFailed("B") ==>
        Covers(old(assignments), assignments, Dedup(courses), InstructorMap(Dedup(courses)), ["A"])
      ensures outcome.Scheduled? ==>
        Covers(old(assignments), assignments, Dedup(courses), InstructorMap(Dedup(courses)), Sections)
      ensures AllHaveInstructors() && OwesNothing() ==> outcome.Scheduled?
    {
      var keys := Dedup(courses);
      var required := Required(keys);
      var missing := FirstWithoutInstructor(keys);
      if missing.Some? {
        return MissingInstructor(keys[missing.value]);
      }
      var courseToInstructor := InstructorMap(keys);
      if OwesNothing() {
        NothingOwedPassesPreCheck();
      }
      if !HasSufficientResources(required) {
        return InsufficientResources;
      }
      outcome := ScheduleSections(keys, required, courseToInstructor);
    }

    /** The instructor check of `Schedule`: the index of the first key whose instructor is missing or empty, if any. */
    method FirstWithoutInstructor(keys: seq<string>) returns (missing: Option<nat>)
      ensures missing.None? <==> forall j :: 0 <= j < |keys| ==> HasInstructor(keys[j])
      ensures missing.Some? ==>
        missing.value < |keys| && !HasInstructor(keys[missing.value]) &&
        (forall j :: 0 <= j < missing.value ==> HasInstructor(keys[j]))
    {
      var i := 0;
      while i < |keys|
        invariant 0 <= i <= |keys|
        invariant forall j :: 0 <= j < i ==> HasInstructor(keys[j])
      {
        if !HasInstructor(keys[i]) {
          return Some(i);
        }
        i := i + 1;
      }
      return None;
    }

    /**
     * The section loop of `Schedule`: searches section "A" and then section
     * "B", each from a fresh copy of the full counts `required`, and stops at
     * the first section that fails.
     */
    method ScheduleSections(keys: seq<string>, required: seq<int>, courseToInstructor: map<string, string>)
      returns (outcome: Outcome)
      requires Valid() && Distinct(keys)
      requires forall c :: c in keys ==> c in courseSchedule && c in courseToInstructor
      requires required == Required(keys)
      modifies this
      ensures Valid()
      ensures outcome.Scheduled? || (outcome.SectionFailed? && outcome.section in Sections)
      ensures outcome == SectionFailed("A") ==> assignments == old(assignments)
      ensures outcome == SectionFailed("B") ==> Covers(old(assignments), assignments, keys, courseToInstructor, ["A"])
      ensures outcome.Scheduled? ==> Covers(old(assignments), assignments, keys, courseToInstructor, Sections)
      ensures (forall j :: 0 <= j < |required| ==> required[j] == 0) ==> outcome.Scheduled?
    {
      var s := 0;
      while s < |Sections|
        invariant 0 <= s <= |Sections|
        invariant Valid()
        invariant s == 0 ==> assignments == old(assignments)
        invariant Covers(old(assignments), assignments, keys, courseToInstructor, Sections[..s])
      {
        var section := Sections[s];
        var counts := new int[|required|](j requires 0 <= j < |required| => required[j]);
        assert counts[..] == required;
        ghost var before := assignments;
        var ok := Backtrack(counts, keys, courseToInstructor, section);
        if !ok {
          assert s == 1 ==> Sections[..s] == ["A"];
          return SectionFailed(section);
        }
        SectionStep(old(assignments), before, assignments, keys, courseToInstructor, s);
        s := s + 1;
      }
      assert Sections[..s] == Sections;
      return Scheduled;
    }

    /**
     * After section `Sections[s]` has been searched successfully from the
     * full counts, the assignments added since the start of `Schedule`
     * cover one more section.
     */
    lemma SectionStep(start: seq<Assignment>, before: seq<Assignment>, after: seq<Assignment>,
                      keys: seq<string>, courseToInstructor: map<string, string>, s: nat)
      requires s < |Sections| && Distinct(keys)
      requires forall c :: c in keys ==> c in courseSchedule
      requires Covers(start, before, keys, courseToInstructor, Sections[..s])
      requires Solves(before, after, Required(keys), keys, courseToInstructor, Sections[s])
      ensures Covers(start, after, keys, courseToInstructor, Sections[..s + 1])
    {
      assert after[..|start|] == before[..|start|];
      forall j | |start| <= j < |after|
        ensures after[j].section in Sections[..s + 1] && Placed(after[j], keys, courseToInstructor)
      {
        if j < |before| {
          assert after[j] == before[j];
        }
      }
      var earlier, added := before[|start|..], after[|before|..];
      assert after[|start|..] == earlier + added by {
        assert after[..|before|] == before;
        assert after[|start|..|before|] == after[..|before|][|start|..] == earlier;
        assert after[|start|..] == after[|start|..|before|] + added;
      }
      forall j | 0 <= j < |earlier| ensures earlier[j].section in Sections[..s] {
        assert earlier[j] == before[|start| + j];
      }
      forall j | 0 <= j < |added| ensures added[j].section == Sections[s] {
        assert added[j] == after[|before| + j];
      }
      forall c, section | c in keys && section in Sections[..s + 1]
        ensures CountIn(after[|start|..], c, section) == Sessions(c)
      {
        var i :| 0 <= i < |keys| && keys[i] == c;
        assert CountIn(added, c, Sections[s]) == Sessions(c);
        SectionCount(earlier, added, c, section, s, Sessions(c));
      }
    }
  }
}
