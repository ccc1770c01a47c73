/**
 * The values the weekly classroom scheduler works on (classrooms, course
 * requirements, assignments), the conflict rules its availability checks
 * enforce, and the counting functions its search keeps track of.
 */
module Timetable {
  import opened Wrappers

  /** The one room name the classroom rule singles out for courses with labs. */
  const LabRoomName: string := "Room 102"

  /** The days of the week, in the order the search tries them. */
  const Weekdays: seq<string> := ["Monday", "Tuesday", "Wednesday", "Thursday", "Friday"]

  /** The two parallel sections, in the order they are scheduled. */
  const Sections: seq<string> := ["A", "B"]

  /** A classroom record. The scheduler compares rooms by name only and never reads `hasLab`. */
  datatype Classroom = Classroom(name: string, hasLab: bool)

  /** How many lecture and lab sessions a course needs per section. */
  datatype Requirement = Requirement(lectures: int, labs: int)

  /** One committed placement of a session. */
  datatype Assignment = Assignment(course: string, instructor: string, classroom: Classroom,
                                   day: string, timeslot: string, section: string)

  // ---------------------------------------------------------------------
  // Conflicts
  // ---------------------------------------------------------------------

  /** `a` occupies `instructor` at `day`/`timeslot` in `section`. */
  predicate BooksInstructor(a: Assignment, instructor: string, day: string, timeslot: string, section: string)
  {
    a.instructor == instructor && a.day == day && a.timeslot == timeslot && a.section == section
  }

  /** `a` occupies a room with the name of `room` at `day`/`timeslot` in `section`. */
  predicate BooksRoom(a: Assignment, room: Classroom, day: string, timeslot: string, section: string)
  {
    a.classroom.name == room.name && a.day == day && a.timeslot == timeslot && a.section == section
  }

  /** No assignment of `s` occupies `instructor` at that day, timeslot and section. */
  predicate InstructorFree(s: seq<Assignment>, instructor: string, day: string, timeslot: string, section: string)
  {
    forall i :: 0 <= i < |s| ==> !BooksInstructor(s[i], instructor, day, timeslot, section)
  }

  /** No assignment of `s` occupies a room named like `room` at that day, timeslot and section. */
  predicate RoomFree(s: seq<Assignment>, room: Classroom, day: string, timeslot: string, section: string)
  {
    forall i :: 0 <= i < |s| ==> !BooksRoom(s[i], room, day, timeslot, section)
  }

  /** Two assignments of one section at the same time that share an instructor or a room name. */
  predicate Clash(a: Assignment, b: Assignment)
  {
    a.section == b.section && a.day == b.day && a.timeslot == b.timeslot &&
    (a.instructor == b.instructor || a.classroom.name == b.classroom.name)
  }

  /** The scheduler's invariant: no two assignments clash. */
  predicate ConflictFree(s: seq<Assignment>)
  {
    forall i, j :: 0 <= i < j < |s| ==> !Clash(s[i], s[j])
  }

  /**
   * Appending `a` keeps a list conflict-free exactly when the list was
   * conflict-free and both availability checks accept `a`.
   */
  lemma AppendConflictFree(s: seq<Assignment>, a: Assignment)
    ensures ConflictFree(s + [a]) <==>
      ConflictFree(s) &&
      InstructorFree(s, a.instructor, a.day, a.timeslot, a.section) &&
      RoomFree(s, a.classroom, a.day, a.timeslot, a.section)
  {
    var t := s + [a];
    if ConflictFree(t) {
      forall i | 0 <= i < |s| ensures !BooksInstructor(s[i], a.instructor, a.day, a.timeslot, a.section)
        && !BooksRoom(s[i], a.classroom, a.day, a.timeslot, a.section)
      {
        assert !Clash(t[i], t[|s|]);
      }
      forall i, j | 0 <= i < j < |s| ensures !Clash(s[i], s[j]) {
        assert !Clash(t[i], t[j]);
      }
    }
  }

  /** Assignments of another section never make an instructor or a room busy. */
  lemma OtherSectionsNeverBlock(s: seq<Assignment>, b: Assignment, room: Classroom,
                                instructor: string, day: string, timeslot: string, section: string)
    requires b.section != section
    ensures InstructorFree(s + [b], instructor, day, timeslot, section) == InstructorFree(s, instructor, day, timeslot, section)
    ensures RoomFree(s + [b], room, day, timeslot, section) == RoomFree(s, room, day, timeslot, section)
  {
    var t := s + [b];
    assert forall i :: 0 <= i < |s| ==> t[i] == s[i];
  }

  // ---------------------------------------------------------------------
  // Counting
  // ---------------------------------------------------------------------

  /** How many assignments of `s` place `course` in `section`. */
  function CountIn(s: seq<Assignment>, course: string, section: string): (n: nat)
    ensures n <= |s|
  {
    if s == [] then 0
    else (if s[0].course == course && s[0].section == section then 1 else 0) + CountIn(s[1..], course, section)
  }

  /** A course is counted in a section exactly when some assignment places it there. */
  lemma {:induction false} CountInPositive(s: seq<Assignment>, course: string, section: string)
    ensures CountIn(s, course, section) > 0 <==>
      exists i :: 0 <= i < |s| && s[i].course == course && s[i].section == section
  {
    if s != [] {
      CountInPositive(s[1..], course, section);
      assert forall i :: 0 < i < |s| ==> s[i] == s[1..][i - 1];
    }
  }

  /** Counting over a concatenation adds up. */
  lemma {:induction false} CountInAppend(s: seq<Assignment>, t: seq<Assignment>, course: string, section: string)
    ensures CountIn(s + t, course, section) == CountIn(s, course, section) + CountIn(t, course, section)
  {
    if s == [] {
      assert s + t == t;
    } else {
      assert (s + t)[1..] == s[1..] + t;
      CountInAppend(s[1..], t, course, section);
    }
  }

  /** Putting a session of `keys[k]` in front adds one to that course's count and leaves the others alone. */
  lemma CountInCons(a: Assignment, rest: seq<Assignment>, keys: seq<string>, k: nat, counts: seq<int>, section: string)
    requires Distinct(keys) && |counts| == |keys| && k < |keys|
    requires a.course == keys[k] && a.section == section
    requires forall i :: 0 <= i < |keys| ==> CountIn(rest, keys[i], section) == counts[k := counts[k] - 1][i]
    ensures forall i :: 0 <= i < |keys| ==> CountIn([a] + rest, keys[i], section) == counts[i]
  {
    assert ([a] + rest)[1..] == rest;
    forall i | 0 <= i < |keys| ensures CountIn([a] + rest, keys[i], section) == counts[i] {
      assert (a.course == keys[i]) == (i == k);
    }
  }

  /** Assignments made only in sections before `Sections[s]` place nothing in `Sections[s]`. */
  lemma NoneInSection(earlier: seq<Assignment>, course: string, s: nat)
    requires s < |Sections|
    requires forall j :: 0 <= j < |earlier| ==> earlier[j].section in Sections[..s]
    ensures CountIn(earlier, course, Sections[s]) == 0
  {
    forall j | 0 <= j < |earlier| ensures earlier[j].section != Sections[s] {
      assert Sections[..s] == [] || Sections[..s] == ["A"];
    }
    CountInPositive(earlier, course, Sections[s]);
  }

  /**
   * After one more section: `earlier` holds the sections before `Sections[s]`,
   * `added` only `Sections[s]`. A course placed `n` times in `Sections[s]`
   * and in every earlier section is placed `n` times in each of them overall.
   */
  lemma SectionCount(earlier: seq<Assignment>, added: seq<Assignment>, course: string, section: string, s: nat, n: int)
    requires s < |Sections| && section in Sections[..s + 1]
    requires forall j :: 0 <= j < |earlier| ==> earlier[j].section in Sections[..s]
    requires forall j :: 0 <= j < |added| ==> added[j].section == Sections[s]
    requires CountIn(added, course, Sections[s]) == n
    requires section in Sections[..s] ==> CountIn(earlier, course, section) == n
    ensures CountIn(earlier + added, course, section) == n
  {
    CountInAppend(earlier, added, course, section);
    if section == Sections[s] {
      NoneInSection(earlier, course, s);
    } else {
      assert section in Sections[..s];
      CountInPositive(added, course, section);
    }
  }

  /** The sum of a list of session counts, as Python's `sum` computes it. */
  function Sum(s: seq<int>): int
  {
    if s == [] then 0 else s[0] + Sum(s[1..])
  }

  /** A list of zero counts sums to zero. */
  lemma {:induction false} ZeroSum(s: seq<int>)
    requires forall i :: 0 <= i < |s| ==> s[i] == 0
    ensures Sum(s) == 0
  {
    if s != [] {
      ZeroSum(s[1..]);
    }
  }

  /** Replacing one entry changes the sum by the difference. */
  lemma {:induction false} SumUpdate(s: seq<int>, k: nat, v: int)
    requires k < |s|
    ensures Sum(s[k := v]) == Sum(s) - s[k] + v
  {
    if k > 0 {
      assert s[k := v][1..] == s[1..][k - 1 := v];
      SumUpdate(s[1..], k - 1, v);
    }
  }

  /** The sessions still owed: the sum of the positive counts only. It bounds the search depth. */
  function PositiveTotal(s: seq<int>): nat
  {
    if s == [] then 0 else (if s[0] > 0 then s[0] else 0) + PositiveTotal(s[1..])
  }

  /** Taking one session from a course that still owes some lowers the total by exactly one. */
  lemma {:induction false} PositiveTotalDecrement(s: seq<int>, k: nat)
    requires k < |s| && s[k] > 0
    ensures PositiveTotal(s[k := s[k] - 1]) == PositiveTotal(s) - 1
  {
    if k > 0 {
      assert s[k := s[k] - 1][1..] == s[1..][k - 1 := s[k] - 1];
      PositiveTotalDecrement(s[1..], k - 1);
    }
  }

  /** The index of the first positive count, the course the search picks next. */
  function FirstPositive(s: seq<int>): (r: Option<nat>)
    ensures r.Some? ==> r.value < |s| && s[r.value] > 0 && forall j :: 0 <= j < r.value ==> s[j] <= 0
    ensures r.None? ==> forall j :: 0 <= j < |s| ==> s[j] <= 0
  {
    if s == [] then None
    else if s[0] > 0 then Some(0)
    else match FirstPositive(s[1..])
      case None => assert forall j :: 0 < j < |s| ==> s[j] == s[1..][j - 1]; None
      case Some(k) => assert forall j :: 0 < j <= k + 1 ==> s[j] == s[1..][j - 1]; Some(k + 1)
  }

  // ---------------------------------------------------------------------
  // Dictionary keys
  // ---------------------------------------------------------------------

  /** No name occurs twice. */
  predicate Distinct(s: seq<string>)
  {
    forall i, j :: 0 <= i < j < |s| ==> s[i] != s[j]
  }

  /**
   * The keys of a dictionary built from `s`, in insertion order: a repeated
   * name keeps the position of its first occurrence.
   */
  function Dedup(s: seq<string>): (r: seq<string>)
    ensures Distinct(r)
    ensures forall x :: x in r <==> x in s
  {
    if s == [] then []
    else
      var keys := Dedup(s[..|s| - 1]);
      assert forall x :: x in s <==> x in s[..|s| - 1] || x == s[|s| - 1];
      if s[|s| - 1] in keys then keys else keys + [s[|s| - 1]]
  }

  /** `x` occurs in `s` before any occurrence of `y`. */
  predicate Before(s: seq<string>, x: string, y: string)
  {
    exists p :: 0 <= p < |s| && s[p] == x && y !in s[..p]
  }

  /**
   * The key list keeps first-occurrence order: of two keys, the earlier one
   * appears in `s` before the later one first appears.
   */
  lemma {:induction false} DedupKeepsFirstOccurrences(s: seq<string>)
    ensures forall i, j :: 0 <= i < j < |Dedup(s)| ==> Before(s, Dedup(s)[i], Dedup(s)[j])
  {
    if s != [] {
      var init, last := s[..|s| - 1], s[|s| - 1];
      var keys := Dedup(init);
      DedupKeepsFirstOccurrences(init);
      assert Dedup(s) == if last in keys then keys else keys + [last];
      forall i, j | 0 <= i < j < |Dedup(s)| ensures Before(s, Dedup(s)[i], Dedup(s)[j]) {
        var r := Dedup(s);
        assert r[i] == keys[i] && keys[i] in init;
        if j < |keys| {
          assert r[j] == keys[j] && Before(init, keys[i], keys[j]);
          var p :| 0 <= p < |init| && init[p] == keys[i] && keys[j] !in init[..p];
          assert s[p] == init[p] && s[..p] == init[..p];
        } else {
          assert r[j] == last && last !in init;
          var p :| 0 <= p < |init| && init[p] == keys[i];
          assert s[p] == init[p] && s[..p] == init[..p];
        }
      }
    }
  }

  /** A list without repeats is its own key list. */
  lemma {:induction false} DedupOfDistinct(s: seq<string>)
    requires Distinct(s)
    ensures Dedup(s) == s
  {
    if s != [] {
      var init := s[..|s| - 1];
      assert Distinct(init);
      DedupOfDistinct(init);
      assert s[|s| - 1] !in init;
      assert init + [s[|s| - 1]] == s;
    }
  }

  // ---------------------------------------------------------------------
  // Classroom choice
  // ---------------------------------------------------------------------

  /** Whether `room` is of the kind a course needs: the lab room for lab courses, any other room otherwise. */
  predicate Suits(room: Classroom, needsLab: bool)
  {
    if needsLab then room.name == LabRoomName else room.name != LabRoomName
  }

  /** The first room of `rooms` that suits, if any. */
  function FirstRoom(rooms: seq<Classroom>, needsLab: bool): (r: Option<Classroom>)
    ensures r.None? <==> forall i :: 0 <= i < |rooms| ==> !Suits(rooms[i], needsLab)
    ensures r.Some? ==> r.value in rooms && Suits(r.value, needsLab)
  {
    if rooms == [] then None
    else if Suits(rooms[0], needsLab) then Some(rooms[0])
    else
      assert forall j :: 0 < j < |rooms| ==> rooms[j] == rooms[1..][j - 1];
      FirstRoom(rooms[1..], needsLab)
  }

  /** The room chosen is the earliest suitable one: a suitable room preceded by no suitable room is the answer. */
  lemma {:induction false} FirstRoomIsFirst(rooms: seq<Classroom>, needsLab: bool, i: nat)
    requires i < |rooms| && Suits(rooms[i], needsLab)
    requires forall j :: 0 <= j < i ==> !Suits(rooms[j], needsLab)
    ensures FirstRoom(rooms, needsLab) == Some(rooms[i])
  {
    if i > 0 {
      FirstRoomIsFirst(rooms[1..], needsLab, i - 1);
    }
  }
}
