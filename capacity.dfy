/**
 * Why the feasibility pre-check is a necessary condition: within one section a
 * conflict-free list of assignments uses each (room name, day, timeslot) slot
 * at most once, so it can hold no more entries than there are slots.
 */
module Capacity {
  import opened Timetable

  /** The slot an assignment takes: its room name, day and timeslot. */
  function SlotOf(a: Assignment): (string, string, string)
  {
    (a.classroom.name, a.day, a.timeslot)
  }

  /** The set of slots taken by the assignments of `s`. */
  function SlotsOf(s: seq<Assignment>): set<(string, string, string)>
  {
    if s == [] then {} else SlotsOf(s[..|s| - 1]) + {SlotOf(s[|s| - 1])}
  }

  /** A slot that no assignment of `s` takes is not in `SlotsOf(s)`. */
  lemma {:induction false} SlotNotTaken(s: seq<Assignment>, x: (string, string, string))
    requires forall i :: 0 <= i < |s| ==> SlotOf(s[i]) != x
    ensures x !in SlotsOf(s)
  {
    if s != [] {
      var init := s[..|s| - 1];
      assert forall i :: 0 <= i < |init| ==> init[i] == s[i];
      SlotNotTaken(init, x);
    }
  }

  /** When every assignment's slot is in `grid`, so is every slot of `SlotsOf(s)`. */
  lemma {:induction false} SlotsWithin(s: seq<Assignment>, grid: seq<(string, string, string)>)
    requires forall i :: 0 <= i < |s| ==> SlotOf(s[i]) in grid
    ensures forall x :: x in SlotsOf(s) ==> x in grid
  {
    if s != [] {
      var init := s[..|s| - 1];
      assert forall i :: 0 <= i < |init| ==> init[i] == s[i];
      SlotsWithin(init, grid);
    }
  }

  /** In one conflict-free section, distinct assignments take distinct slots. */
  lemma {:induction false} SlotsOfSize(s: seq<Assignment>, section: string)
    requires ConflictFree(s)
    requires forall i :: 0 <= i < |s| ==> s[i].section == section
    ensures |SlotsOf(s)| == |s|
  {
    if s != [] {
      var init := s[..|s| - 1];
      var last := s[|s| - 1];
      assert forall i :: 0 <= i < |init| ==> init[i] == s[i];
      SlotsOfSize(init, section);
      forall i | 0 <= i < |init| ensures SlotOf(init[i]) != SlotOf(last) {
        assert !Clash(s[i], s[|s| - 1]);
      }
      SlotNotTaken(init, SlotOf(last));
    }
  }

  /** The slots of one room name on one day: one per timeslot. */
  function Row(name: string, day: string, timeslots: seq<string>): (r: seq<(string, string, string)>)
    ensures |r| == |timeslots|
    ensures forall t :: t in timeslots ==> (name, day, t) in r
  {
    if timeslots == [] then []
    else [(name, day, timeslots[0])] + Row(name, day, timeslots[1..])
  }

  /** The slots of one room name over all days. */
  function Plane(name: string, days: seq<string>, timeslots: seq<string>): (r: seq<(string, string, string)>)
    ensures |r| == |days| * |timeslots|
    ensures forall d, t :: d in days && t in timeslots ==> (name, d, t) in r
  {
    if days == [] then []
    else
      var rest := Plane(name, days[1..], timeslots);
      assert |days| * |timeslots| == |timeslots| + (|days| - 1) * |timeslots|;
      Row(name, days[0], timeslots) + rest
  }

  /** Every slot of the week: room names by days by timeslots. */
  function Grid(names: seq<string>, days: seq<string>, timeslots: seq<string>): (r: seq<(string, string, string)>)
    ensures |r| == |names| * |days| * |timeslots|
    ensures forall n, d, t :: n in names && d in days && t in timeslots ==> (n, d, t) in r
  {
    if names == [] then []
    else
      var rest := Grid(names[1..], days, timeslots);
      assert |names| * |days| * |timeslots| == |days| * |timeslots| + (|names| - 1) * |days| * |timeslots|;
      Plane(names[0], days, timeslots) + rest
  }

  /** A set drawn from a sequence is no larger than the sequence. */
  lemma {:induction false} ElementsBound<T>(q: seq<T>, e: set<T>)
    requires forall x :: x in e ==> x in q
    ensures |e| <= |q|
  {
    if q != [] {
      var init := q[..|q| - 1];
      var rest := e - {q[|q| - 1]};
      forall x | x in rest ensures x in init {
        var i :| 0 <= i < |q| && q[i] == x;
        assert i < |q| - 1;
        assert init[i] == x;
      }
      ElementsBound(init, rest);
      assert e <= rest + {q[|q| - 1]};
      assert |e| <= |rest| + 1 by {
        if q[|q| - 1] in e {
          assert e == rest + {q[|q| - 1]};
        } else {
          assert e == rest;
        }
      }
    } else {
      assert e == {};
    }
  }

  /**
   * A conflict-free list of one section's assignments, each in one of `rooms`
   * on one of `days` at one of `timeslots`, has at most
   * |rooms| × |days| × |timeslots| entries.
   */
  lemma SectionFitsSlots(s: seq<Assignment>, section: string,
                         rooms: seq<Classroom>, days: seq<string>, timeslots: seq<string>)
    requires ConflictFree(s)
    requires forall i :: 0 <= i < |s| ==>
      s[i].section == section && s[i].classroom in rooms && s[i].day in days && s[i].timeslot in timeslots
    ensures |s| <= |rooms| * |days| * |timeslots|
  {
    var names := RoomNames(rooms);
    var grid := Grid(names, days, timeslots);
    forall i | 0 <= i < |s| ensures SlotOf(s[i]) in grid {
      var a := s[i];
      assert a.classroom.name in names;
      assert (a.classroom.name, a.day, a.timeslot) in grid;
    }
    SlotsWithin(s, grid);
    SlotsOfSize(s, section);
    ElementsBound(grid, SlotsOf(s));
  }

  /** The names of `rooms`, in order. */
  function RoomNames(rooms: seq<Classroom>): (names: seq<string>)
    ensures |names| == |rooms|
    ensures forall r :: r in rooms ==> r.name in names
  {
    if rooms == [] then [] else [rooms[0].name] + RoomNames(rooms[1..])
  }
}
