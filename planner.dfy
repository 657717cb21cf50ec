/**
 * The data store the web application works on, reduced to the three tables
 * the generator touches, and the two operations that change schedules:
 * generating a date's schedule and confirming it.
 */
module Planner {
  import opened Wrappers
  import opened Models
  import opened Selection
  import opened Assignments
  import opened Schedule

  class DutyStore {
    var soldiers: seq<Soldier>
    var assignments: seq<Assignment>
    var unavailabilities: seq<Unavailability>

    /** Soldier ids are unique and every assignment refers to a soldier of the roster. */
    ghost predicate Valid()
      reads this
    {
      UniqueIds(soldiers) && Linked(soldiers, assignments)
    }

    constructor (roster: seq<Soldier>, log: seq<Assignment>, records: seq<Unavailability>)
      requires UniqueIds(roster)
      requires Linked(roster, log)
      ensures Valid()
      ensures soldiers == roster && assignments == log && unavailabilities == records
    {
      soldiers := roster;
      assignments := log;
      unavailabilities := records;
    }

    /**
     * Generates the schedule of the date that `parsed` holds. `parsed` is the
     * outcome of parsing the "YYYY-MM-DD" text; when it is None nothing
     * changes and the result is false. Otherwise the date's assignments are
     * deleted, the slots are filled in order, and the result is true.
     */
    method GenerateScheduleForDate(parsed: Option<Date>) returns (ok: bool)
      requires Valid()
      modifies this
      ensures Valid()
      ensures ok == parsed.Some?
      ensures unavailabilities == old(unavailabilities)
      ensures parsed.None? ==> soldiers == old(soldiers) && assignments == old(assignments)
      ensures parsed.Some? ==>
                var d := parsed.value;
                var pass := Run(old(soldiers), UnavailableOn(old(unavailabilities), d), d, Slots);
                && soldiers == pass.roster
                && assignments == WithoutDate(old(assignments), d) + pass.created
                && OnDate(assignments, d) == pass.created
                && WithoutDate(assignments, d) == WithoutDate(old(assignments), d)
      ensures parsed.Some? ==>
                var d := parsed.value;
                && NoDoubleBooking(OnDate(assignments, d))
                && (forall a :: a in OnDate(assignments, d) ==>
                      !a.confirmed && a.shiftType in Slots
                      && Qualified(old(soldiers), UnavailableOn(old(unavailabilities), d), a))
      ensures parsed.Some? ==>
                && |soldiers| == |old(soldiers)|
                && forall p :: 0 <= p < |soldiers| ==>
                     soldiers[p] == old(soldiers)[p].(totalServices := old(soldiers)[p].totalServices
                                     + if Assigned(OnDate(assignments, parsed.value), old(soldiers)[p].id) then 1 else 0)
    {
      if parsed.None? {
        return false;
      }
      var targetDate := parsed.value;
      DeleteAssignmentsOn(targetDate);
      var unavailable := UnavailableOn(unavailabilities, targetDate);
      FillDay(targetDate, unavailable, Slots);
      ok := true;

      ghost var pass := Run(old(soldiers), unavailable, targetDate, Slots);
      RunQualified(old(soldiers), unavailable, targetDate, Slots);
      ReplaceDate(old(assignments), pass.created, targetDate);
      RunKeepsLinks(old(soldiers), unavailable, targetDate, Slots, old(assignments));
      RunKeepsIdentity(old(soldiers), unavailable, targetDate, Slots);
      RunCounters(old(soldiers), unavailable, targetDate, Slots);
      DayInvariant(old(soldiers), unavailable, targetDate);
      assert UniqueIds(soldiers);
    }

    /** The deletion phase: every assignment of date `d` is removed, the rest keep their order. */
    method DeleteAssignmentsOn(d: Date)
      modifies this
      ensures assignments == WithoutDate(old(assignments), d)
      ensures soldiers == old(soldiers) && unavailabilities == old(unavailabilities)
    {
      var kept: seq<Assignment> := [];
      for i := 0 to |assignments|
        invariant soldiers == old(soldiers) && assignments == old(assignments)
        invariant unavailabilities == old(unavailabilities)
        invariant kept == WithoutDate(assignments[..i], d)
      {
        assert assignments[..i + 1][..i] == assignments[..i];
        if assignments[i].date != d {
          kept := kept + [assignments[i]];
        }
      }
      assert assignments[..|assignments|] == assignments;
      assignments := kept;
    }

    /**
     * The slot-fill phase: the slots are taken in order, each step seeing the
     * counters and used ids the earlier ones left.
     */
    method FillDay(d: Date, unavailable: set<int>, slots: seq<string>)
      modifies this
      ensures soldiers == Run(old(soldiers), unavailable, d, slots).roster
      ensures assignments == old(assignments) + Run(old(soldiers), unavailable, d, slots).created
      ensures unavailabilities == old(unavailabilities)
    {
      var alreadyAssignedToday: set<int> := {};
      ghost var roster0 := soldiers;
      ghost var pass := Start(roster0);
      assert slots[..0] == [];

      for k := 0 to |slots|
        invariant unavailabilities == old(unavailabilities)
        invariant pass == Run(roster0, unavailable, d, slots[..k])
        invariant soldiers == pass.roster && alreadyAssignedToday == pass.used
        invariant assignments == old(assignments) + pass.created
      {
        RunStep(roster0, unavailable, d, slots, k);
        alreadyAssignedToday := TakeSlot(d, unavailable, slots[k], alreadyAssignedToday, old(assignments), pass);
        pass := FillSlot(pass, unavailable, d, slots[k]);
      }
      assert slots[..|slots|] == slots;
    }

    /**
     * One slot: the candidate pool is built, and when it is not empty the
     * candidate with the smallest (total services, id) gets an unconfirmed
     * assignment, one more service, and is marked as used for the day.
     */
    method TakeSlot(d: Date, unavailable: set<int>, shiftType: string, used: set<int>,
                    ghost base: seq<Assignment>, ghost pass: DayState)
      returns (usedAfter: set<int>)
      requires soldiers == pass.roster && used == pass.used && assignments == base + pass.created
      modifies this
      ensures unavailabilities == old(unavailabilities)
      ensures soldiers == FillSlot(pass, unavailable, d, shiftType).roster
      ensures usedAfter == FillSlot(pass, unavailable, d, shiftType).used
      ensures assignments == base + FillSlot(pass, unavailable, d, shiftType).created
    {
      usedAfter := used;
      var candidates := BuildCandidates(soldiers, unavailable, used, shiftType);
      if |candidates| > 0 {
        var best := candidates[MinIndex(soldiers, candidates)];
        FillSlotTakes(pass, unavailable, d, shiftType, best);
        var soldier := soldiers[best];
        var assignment := Assignment(soldier.id, d, shiftType, false);
        assert base + pass.created + [assignment] == base + (pass.created + [assignment]);
        assignments := assignments + [assignment];
        soldiers := soldiers[best := soldier.(totalServices := soldier.totalServices + 1)];
        usedAfter := used + {soldier.id};
      } else {
        FillSlotSkips(pass, unavailable, d, shiftType);
      }
    }

    /**
     * Confirms every assignment of the date that `parsed` holds; assignments
     * of other dates and the roster are untouched. The result is false, with
     * nothing changed, when the date text did not parse.
     */
    method ConfirmSchedule(parsed: Option<Date>) returns (ok: bool)
      modifies this
      ensures old(Valid()) ==> Valid()
      ensures ok == parsed.Some?
      ensures soldiers == old(soldiers) && unavailabilities == old(unavailabilities)
      ensures parsed.None? ==> assignments == old(assignments)
      ensures parsed.Some? ==>
                && assignments == ConfirmDate(old(assignments), parsed.value)
                && WithoutDate(assignments, parsed.value) == WithoutDate(old(assignments), parsed.value)
                && forall a :: a in OnDate(assignments, parsed.value) ==> a.confirmed
    {
      if parsed.None? {
        return false;
      }
      var targetDate := parsed.value;
      for i := 0 to |assignments|
        invariant soldiers == old(soldiers) && unavailabilities == old(unavailabilities)
        invariant |assignments| == |old(assignments)|
        invariant assignments[..i] == ConfirmDate(old(assignments)[..i], targetDate)
        invariant assignments[i..] == old(assignments)[i..]
      {
        assert old(assignments)[..i + 1][..i] == old(assignments)[..i];
        if assignments[i].date == targetDate {
          assignments := assignments[i := assignments[i].(confirmed := true)];
        }
      }
      assert old(assignments)[..|old(assignments)|] == old(assignments);
      assert assignments[..|assignments|] == assignments;
      ok := true;
      ConfirmKeepsOtherDates(old(assignments), targetDate);
      ConfirmSetsDate(old(assignments), targetDate);
      if old(Valid()) {
        ConfirmKeepsLinks(soldiers, old(assignments), targetDate);
      }
    }
  }
}
