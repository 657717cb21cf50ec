/**
 * The daily slot-fill pass of the schedule generator as a specification: a
 * left fold of one-slot steps over the fixed slot list. The imperative
 * generator in module Planner is proved to compute exactly this fold.
 */
module Schedule {
  import opened Wrappers
  import opened Models
  import opened Roles
  import opened Selection
  import opened Assignments

  /** The duty slots of every day, in the order they are filled: three night watches, the day-room guard, the morning kitchen. */
  const Slots: seq<string> := [
    "Σκοπιά 00:00-02:00",
    "Σκοπιά 02:00-04:00",
    "Σκοπιά 04:00-06:00",
    "Θαλαμοφύλακας Ημέρας",
    "Κουζίνα Πρωί"
  ]

  /** The ids of the soldiers that have an unavailability record on date `d`. */
  function UnavailableOn(records: seq<Unavailability>, d: Date): (ids: set<int>)
    ensures forall k :: 0 <= k < |records| && records[k].date == d ==> records[k].soldierId in ids
    ensures forall i :: i in ids ==> exists k :: 0 <= k < |records| && records[k].date == d && records[k].soldierId == i
  {
    set u | u in records && u.date == d :: u.soldierId
  }

  /** The state of one day's pass: the roster with its counters, the ids used so far, the assignments created so far. */
  datatype DayState = DayState(roster: seq<Soldier>, used: set<int>, created: seq<Assignment>)

  /** The state before the first slot. */
  function Start(roster: seq<Soldier>): DayState
  {
    DayState(roster, {}, [])
  }

  /** The effect of giving slot `shift` to the soldier at roster position `p`. */
  function Assign(st: DayState, d: Date, shift: string, p: nat): DayState
    requires p < |st.roster|
  {
    var s := st.roster[p];
    DayState(
      st.roster[p := s.(totalServices := s.totalServices + 1)],
      st.used + {s.id},
      st.created + [Assignment(s.id, d, shift, false)])
  }

  /** Position `p` holds an eligible soldier whose (total services, id) key no eligible soldier undercuts. */
  ghost predicate IsBest(roster: seq<Soldier>, unavailable: set<int>, used: set<int>, shift: string, p: int)
  {
    && 0 <= p < |roster|
    && Eligible(roster[p], unavailable, used, shift)
    && forall q :: 0 <= q < |roster| && Eligible(roster[q], unavailable, used, shift) ==> !Precedes(roster[q], roster[p])
  }

  /**
   * One slot: with no eligible soldier the state is left as it is; otherwise
   * a best eligible soldier gets the slot, one more service and is marked used.
   */
  function FillSlot(st: DayState, unavailable: set<int>, d: Date, shift: string): DayState
  {
    var candidates := Candidates(st.roster, unavailable, st.used, shift);
    if |candidates| == 0 then st
    else Assign(st, d, shift, candidates[MinIndex(st.roster, candidates)])
  }

  /**
   * The step against its reference: a slot stays unfilled, with nothing
   * changed, exactly when nobody is eligible; otherwise it goes to an eligible
   * soldier whose (total services, id) key no eligible soldier undercuts.
   */
  lemma FillSlotPicksBest(st: DayState, unavailable: set<int>, d: Date, shift: string)
    ensures (forall p :: 0 <= p < |st.roster| ==> !Eligible(st.roster[p], unavailable, st.used, shift))
              ==> FillSlot(st, unavailable, d, shift) == st
    ensures (exists p :: 0 <= p < |st.roster| && Eligible(st.roster[p], unavailable, st.used, shift))
              ==> exists p :: IsBest(st.roster, unavailable, st.used, shift, p)
                              && FillSlot(st, unavailable, d, shift) == Assign(st, d, shift, p)
  {
    var candidates := Candidates(st.roster, unavailable, st.used, shift);
    if |candidates| > 0 {
      var m := MinIndex(st.roster, candidates);
      assert IsBest(st.roster, unavailable, st.used, shift, candidates[m]);
    }
  }

  /** When the pool is non-empty, the step gives the slot to the candidate that Python's `min` returns. */
  lemma FillSlotTakes(st: DayState, unavailable: set<int>, d: Date, shift: string, p: nat)
    requires |Candidates(st.roster, unavailable, st.used, shift)| > 0
    requires p == Candidates(st.roster, unavailable, st.used, shift)[MinIndex(st.roster, Candidates(st.roster, unavailable, st.used, shift))]
    ensures FillSlot(st, unavailable, d, shift) == Assign(st, d, shift, p)
  {
  }

  /** When the pool is empty, the step changes nothing. */
  lemma FillSlotSkips(st: DayState, unavailable: set<int>, d: Date, shift: string)
    requires |Candidates(st.roster, unavailable, st.used, shift)| == 0
    ensures FillSlot(st, unavailable, d, shift) == st
  {
  }

  /** The slots filled in order, each step seeing the counters and used ids the earlier steps left. */
  function FillSlots(st: DayState, unavailable: set<int>, d: Date, slots: seq<string>): DayState
  {
    if |slots| == 0 then st
    else
      var n := |slots| - 1;
      FillSlot(FillSlots(st, unavailable, d, slots[..n]), unavailable, d, slots[n])
  }

  /** A whole pass over `slots` for date `d`, starting from the roster and no used ids. */
  function Run(roster: seq<Soldier>, unavailable: set<int>, d: Date, slots: seq<string>): DayState
  {
    FillSlots(Start(roster), unavailable, d, slots)
  }

  /** A pass over the first k + 1 slots is the pass over the first k followed by the step for slot k. */
  lemma RunStep(roster: seq<Soldier>, unavailable: set<int>, d: Date, slots: seq<string>, k: nat)
    requires k < |slots|
    ensures Run(roster, unavailable, d, slots[..k + 1])
              == FillSlot(Run(roster, unavailable, d, slots[..k]), unavailable, d, slots[k])
  {
    assert slots[..k + 1][..k] == slots[..k];
  }

  /** Assignment `a` names a soldier of `roster` who is available, not unavailable on the date, and fit for `a`'s shift. */
  ghost predicate Qualified(roster: seq<Soldier>, unavailable: set<int>, a: Assignment)
  {
    exists p :: 0 <= p < |roster| && roster[p].id == a.soldierId && roster[p].isAvailable
                && a.soldierId !in unavailable && RoleCompatible(a.shiftType, roster[p].role)
  }

  /** No soldier id appears twice among `created`. */
  ghost predicate NoDoubleBooking(created: seq<Assignment>)
  {
    forall k, l :: 0 <= k < l < |created| ==> created[k].soldierId != created[l].soldierId
  }

  /** `slots` holds no label twice. */
  ghost predicate Distinct(slots: seq<string>)
  {
    forall k, l :: 0 <= k < l < |slots| ==> slots[k] != slots[l]
  }

  /**
   * The outcome of one slot step: None when nobody was eligible and the state
   * stayed; otherwise the eligible position that got the slot.
   */
  lemma StepOutcome(st: DayState, unavailable: set<int>, d: Date, shift: string) returns (pick: Option<nat>)
    ensures pick.None? ==> FillSlot(st, unavailable, d, shift) == st
    ensures pick.Some? ==> && pick.value < |st.roster|
                           && Eligible(st.roster[pick.value], unavailable, st.used, shift)
                           && FillSlot(st, unavailable, d, shift) == Assign(st, d, shift, pick.value)
  {
    var candidates := Candidates(st.roster, unavailable, st.used, shift);
    if |candidates| == 0 {
      pick := None;
    } else {
      pick := Some(candidates[MinIndex(st.roster, candidates)]);
    }
  }

  /** A pass changes only counters: roster length, ids, names, ranks, roles and availability stay. */
  lemma {:induction false} RunKeepsIdentity(roster: seq<Soldier>, unavailable: set<int>, d: Date, slots: seq<string>)
    ensures |Run(roster, unavailable, d, slots).roster| == |roster|
    ensures forall p :: 0 <= p < |roster| ==>
              Run(roster, unavailable, d, slots).roster[p]
                == roster[p].(totalServices := Run(roster, unavailable, d, slots).roster[p].totalServices)
  {
    if |slots| > 0 {
      var n := |slots| - 1;
      RunKeepsIdentity(roster, unavailable, d, slots[..n]);
      var st := Run(roster, unavailable, d, slots[..n]);
      assert Run(roster, unavailable, d, slots) == FillSlot(st, unavailable, d, slots[n]);
      var pick := StepOutcome(st, unavailable, d, slots[n]);
    }
  }

  /**
   * Counters: with unique ids, every soldier picked in the pass has exactly
   * one service more and every other soldier's counter is unchanged.
   */
  lemma {:induction false} RunCounters(roster: seq<Soldier>, unavailable: set<int>, d: Date, slots: seq<string>)
    requires UniqueIds(roster)
    ensures |Run(roster, unavailable, d, slots).roster| == |roster|
    ensures forall p :: 0 <= p < |roster| ==>
              Run(roster, unavailable, d, slots).roster[p].totalServices
                == roster[p].totalServices + (if Assigned(Run(roster, unavailable, d, slots).created, roster[p].id) then 1 else 0)
  {
    RunCounted(roster, unavailable, d, slots);
    RunUsedIds(roster, unavailable, d, slots);
  }

  /** Counters of `st` are those of `roster` plus one for every id in `st.used`; ids are unchanged. */
  ghost predicate CountedBy(roster: seq<Soldier>, st: DayState)
  {
    && |st.roster| == |roster|
    && forall q :: 0 <= q < |roster| ==>
         && st.roster[q].id == roster[q].id
         && st.roster[q].totalServices == roster[q].totalServices + (if roster[q].id in st.used then 1 else 0)
  }

  /** One slot keeps the counters in step with the used ids. */
  lemma StepCounted(roster: seq<Soldier>, st: DayState, unavailable: set<int>, d: Date, shift: string)
    requires UniqueIds(roster) && CountedBy(roster, st)
    ensures CountedBy(roster, FillSlot(st, unavailable, d, shift))
  {
    var pick := StepOutcome(st, unavailable, d, shift);
    if pick.Some? {
      var p := pick.value;
      var r := Assign(st, d, shift, p);
      forall q | 0 <= q < |roster|
        ensures r.roster[q].id == roster[q].id
        ensures r.roster[q].totalServices == roster[q].totalServices + (if roster[q].id in r.used then 1 else 0)
      {
        if q != p {
          assert roster[q].id != roster[p].id;
        }
      }
    }
  }

  /** A whole pass keeps the counters in step with the used ids. */
  lemma {:induction false} RunCounted(roster: seq<Soldier>, unavailable: set<int>, d: Date, slots: seq<string>)
    requires UniqueIds(roster)
    ensures CountedBy(roster, Run(roster, unavailable, d, slots))
  {
    if |slots| > 0 {
      var n := |slots| - 1;
      RunCounted(roster, unavailable, d, slots[..n]);
      var st := Run(roster, unavailable, d, slots[..n]);
      assert Run(roster, unavailable, d, slots) == FillSlot(st, unavailable, d, slots[n]);
      StepCounted(roster, st, unavailable, d, slots[n]);
    }
  }

  /** Soldier `id` has an assignment in `created`. */
  ghost predicate Assigned(created: seq<Assignment>, id: int)
  {
    exists k :: 0 <= k < |created| && created[k].soldierId == id
  }

  /** `used` holds exactly the soldier ids of `created`. */
  ghost predicate UsedMatches(used: set<int>, created: seq<Assignment>)
  {
    forall i :: i in used <==> Assigned(created, i)
  }

  /** One slot keeps the used ids equal to the soldier ids of the assignments created. */
  lemma StepUsedIds(st: DayState, unavailable: set<int>, d: Date, shift: string)
    requires UsedMatches(st.used, st.created)
    ensures UsedMatches(FillSlot(st, unavailable, d, shift).used, FillSlot(st, unavailable, d, shift).created)
  {
    var pick := StepOutcome(st, unavailable, d, shift);
    if pick.Some? {
      var p := pick.value;
      var r := Assign(st, d, shift, p);
      forall i
        ensures i in r.used <==> Assigned(r.created, i)
      {
        if i == st.roster[p].id {
          assert r.created[|st.created|].soldierId == i;
        } else if i in st.used {
          var k :| 0 <= k < |st.created| && st.created[k].soldierId == i;
          assert r.created[k].soldierId == i;
        }
      }
    }
  }

  /** The ids a pass marks as used are exactly the soldiers of the assignments it created. */
  lemma {:induction false} RunUsedIds(roster: seq<Soldier>, unavailable: set<int>, d: Date, slots: seq<string>)
    ensures UsedMatches(Run(roster, unavailable, d, slots).used, Run(roster, unavailable, d, slots).created)
  {
    if |slots| > 0 {
      var n := |slots| - 1;
      RunUsedIds(roster, unavailable, d, slots[..n]);
      var st := Run(roster, unavailable, d, slots[..n]);
      assert Run(roster, unavailable, d, slots) == FillSlot(st, unavailable, d, slots[n]);
      StepUsedIds(st, unavailable, d, slots[n]);
    }
  }

  /** No double-booking: a pass never gives two slots to the same soldier id. */
  lemma {:induction false} RunNoDoubleBooking(roster: seq<Soldier>, unavailable: set<int>, d: Date, slots: seq<string>)
    ensures NoDoubleBooking(Run(roster, unavailable, d, slots).created)
  {
    if |slots| > 0 {
      var n := |slots| - 1;
      RunNoDoubleBooking(roster, unavailable, d, slots[..n]);
      RunUsedIds(roster, unavailable, d, slots[..n]);
      var st := Run(roster, unavailable, d, slots[..n]);
      assert Run(roster, unavailable, d, slots) == FillSlot(st, unavailable, d, slots[n]);
      var pick := StepOutcome(st, unavailable, d, slots[n]);
      if pick.Some? {
        var p := pick.value;
        var r := Assign(st, d, slots[n], p);
        forall k | 0 <= k < |st.created|
          ensures st.created[k].soldierId != st.roster[p].id
        {
          assert st.created[k].soldierId in st.used;
        }
        assert r.created == st.created + [Assignment(st.roster[p].id, d, slots[n], false)];
      }
    }
  }

  /**
   * Each assignment of a pass is an unconfirmed assignment of date `d` to one
   * of `slots`, for a soldier of the original roster who is available, not
   * unavailable on `d`, and fit for that slot's role keyword.
   */
  lemma {:induction false} RunQualified(roster: seq<Soldier>, unavailable: set<int>, d: Date, slots: seq<string>)
    ensures forall a :: a in Run(roster, unavailable, d, slots).created ==>
              a.date == d && !a.confirmed && a.shiftType in slots && Qualified(roster, unavailable, a)
  {
    if |slots| > 0 {
      var n := |slots| - 1;
      RunQualified(roster, unavailable, d, slots[..n]);
      RunKeepsIdentity(roster, unavailable, d, slots[..n]);
      var st := Run(roster, unavailable, d, slots[..n]);
      assert Run(roster, unavailable, d, slots) == FillSlot(st, unavailable, d, slots[n]);
      var pick := StepOutcome(st, unavailable, d, slots[n]);
      if pick.Some? {
        var p := pick.value;
        var a := Assignment(st.roster[p].id, d, slots[n], false);
        assert Assign(st, d, slots[n], p).created == st.created + [a];
        assert Qualified(roster, unavailable, a) by {
          assert roster[p].id == a.soldierId;
        }
        forall b | b in st.created
          ensures b.shiftType in slots
        {
          assert b.shiftType in slots[..n];
        }
      }
    }
  }

  /** At most one assignment per slot: no more assignments than slots, and with distinct labels no label twice. */
  lemma {:induction false} RunOnePerSlot(roster: seq<Soldier>, unavailable: set<int>, d: Date, slots: seq<string>)
    ensures |Run(roster, unavailable, d, slots).created| <= |slots|
    ensures forall a :: a in Run(roster, unavailable, d, slots).created ==> a.shiftType in slots
    ensures Distinct(slots) ==>
              forall k, l :: 0 <= k < l < |Run(roster, unavailable, d, slots).created| ==>
                Run(roster, unavailable, d, slots).created[k].shiftType
                  != Run(roster, unavailable, d, slots).created[l].shiftType
  {
    if |slots| > 0 {
      var n := |slots| - 1;
      RunOnePerSlot(roster, unavailable, d, slots[..n]);
      var st := Run(roster, unavailable, d, slots[..n]);
      assert Run(roster, unavailable, d, slots) == FillSlot(st, unavailable, d, slots[n]);
      var pick := StepOutcome(st, unavailable, d, slots[n]);
      if pick.Some? {
        var p := pick.value;
        var r := Assign(st, d, slots[n], p);
        if Distinct(slots) {
          assert Distinct(slots[..n]);
          forall k | 0 <= k < |st.created|
            ensures st.created[k].shiftType != slots[n]
          {
            assert st.created[k] in st.created;
            var j :| 0 <= j < n && slots[..n][j] == st.created[k].shiftType;
          }
        }
      }
    }
  }

  /** The sum of all service counters of a roster. */
  function TotalLoad(roster: seq<Soldier>): nat
  {
    if |roster| == 0 then 0
    else TotalLoad(roster[..|roster| - 1]) + roster[|roster| - 1].totalServices
  }

  /** One more service for one soldier raises the roster's total by one. */
  lemma {:induction false} TotalLoadBump(roster: seq<Soldier>, p: nat)
    requires p < |roster|
    ensures TotalLoad(roster[p := roster[p].(totalServices := roster[p].totalServices + 1)]) == TotalLoad(roster) + 1
  {
    var n := |roster| - 1;
    var bumped := roster[p := roster[p].(totalServices := roster[p].totalServices + 1)];
    if p == n {
      assert bumped[..n] == roster[..n];
    } else {
      assert bumped[..n] == roster[..n][p := roster[p].(totalServices := roster[p].totalServices + 1)];
      TotalLoadBump(roster[..n], p);
    }
  }

  /** One assignment adds one service to the roster's total and one entry to the day's list. */
  lemma AssignLoad(st: DayState, d: Date, shift: string, p: nat)
    requires p < |st.roster|
    ensures TotalLoad(Assign(st, d, shift, p).roster) == TotalLoad(st.roster) + 1
    ensures |Assign(st, d, shift, p).created| == |st.created| + 1
  {
    TotalLoadBump(st.roster, p);
  }

  /** Fairness accounting: a pass adds exactly one service to the roster's total per assignment it creates. */
  lemma {:induction false} RunLoad(roster: seq<Soldier>, unavailable: set<int>, d: Date, slots: seq<string>)
    ensures TotalLoad(Run(roster, unavailable, d, slots).roster)
              == TotalLoad(roster) + |Run(roster, unavailable, d, slots).created|
  {
    if |slots| > 0 {
      var n := |slots| - 1;
      RunLoad(roster, unavailable, d, slots[..n]);
      var st := Run(roster, unavailable, d, slots[..n]);
      assert Run(roster, unavailable, d, slots) == FillSlot(st, unavailable, d, slots[n]);
      var pick := StepOutcome(st, unavailable, d, slots[n]);
      if pick.Some? {
        var p := pick.value;
        AssignLoad(st, d, slots[n], p);
      }
    }
  }

  /** The three watches contain the watch keyword first, so they need it in the role. */
  lemma WatchSlotRole(k: nat)
    requires k < 3
    ensures forall role :: RoleCompatible(Slots[k], role) <==> Contains(role, RoleKeywords[0])
  {
    assert OccursAt(Slots[k], RoleKeywords[0], 0);
    FirstKeywordDecides(Slots[k], 0);
  }

  /** The day-room guard slot lacks the watch keyword and contains the guard keyword. */
  lemma GuardSlotRole()
    ensures forall role :: RoleCompatible(Slots[3], role) <==> Contains(role, RoleKeywords[1])
  {
    AbsentFirstChar(Slots[3], RoleKeywords[0]);
    assert OccursAt(Slots[3], RoleKeywords[1], 0);
    FirstKeywordDecides(Slots[3], 1);
  }

  /** The morning kitchen slot lacks the first two keywords and contains the kitchen keyword. */
  lemma KitchenSlotRole()
    ensures forall role :: RoleCompatible(Slots[4], role) <==> Contains(role, RoleKeywords[2])
  {
    AbsentFirstChar(Slots[4], RoleKeywords[0]);
    AbsentFirstChar(Slots[4], RoleKeywords[1]);
    assert OccursAt(Slots[4], RoleKeywords[2], 0);
    FirstKeywordDecides(Slots[4], 2);
  }

  /**
   * What each fixed slot asks of a role: the three watches need the watch
   * keyword, the day-room guard its keyword and the morning kitchen its own.
   */
  lemma SlotRoles()
    ensures forall k, role :: 0 <= k < 3 ==> (RoleCompatible(Slots[k], role) <==> Contains(role, RoleKeywords[0]))
    ensures forall role :: RoleCompatible(Slots[3], role) <==> Contains(role, RoleKeywords[1])
    ensures forall role :: RoleCompatible(Slots[4], role) <==> Contains(role, RoleKeywords[2])
  {
    forall k: nat | k < 3
      ensures forall role :: RoleCompatible(Slots[k], role) <==> Contains(role, RoleKeywords[0])
    {
      WatchSlotRole(k);
    }
    GuardSlotRole();
    KitchenSlotRole();
  }

  /**
   * A pass that replaces date `d`'s assignments keeps the foreign key: the
   * surviving assignments and the new ones all refer to soldiers of the
   * updated roster.
   */
  lemma RunKeepsLinks(roster: seq<Soldier>, unavailable: set<int>, d: Date, slots: seq<string>, log: seq<Assignment>)
    requires Linked(roster, log)
    ensures Linked(Run(roster, unavailable, d, slots).roster,
                   WithoutDate(log, d) + Run(roster, unavailable, d, slots).created)
  {
    var pass := Run(roster, unavailable, d, slots);
    var kept := WithoutDate(log, d);
    var all := kept + pass.created;
    RunQualified(roster, unavailable, d, slots);
    RunKeepsIdentity(roster, unavailable, d, slots);
    QueriesPartition(log, d);
    forall k | 0 <= k < |all|
      ensures exists p :: 0 <= p < |pass.roster| && pass.roster[p].id == all[k].soldierId
    {
      var p: int;
      if k < |kept| {
        assert kept[k] in multiset(kept);
        assert kept[k] in multiset(log);
        var j :| 0 <= j < |log| && log[j] == kept[k];
        p :| 0 <= p < |roster| && roster[p].id == log[j].soldierId;
      } else {
        assert all[k] in pass.created;
        assert Qualified(roster, unavailable, all[k]);
        p :| 0 <= p < |roster| && roster[p].id == all[k].soldierId;
      }
      assert pass.roster[p].id == roster[p].id;
    }
  }

  /** The fixed slot labels are pairwise different. */
  lemma SlotsDistinct()
    ensures Distinct(Slots)
  {
    assert Slots[0][7] == '0' && Slots[1][7] == '0' && Slots[2][7] == '0';
    assert Slots[0][8] == '0' && Slots[1][8] == '2' && Slots[2][8] == '4';
    assert Slots[3][0] != Slots[4][0];
    assert forall k :: 0 <= k < 3 ==> Slots[k][0] != Slots[3][0] && Slots[k][0] != Slots[4][0];
  }

  /**
   * The day invariant of a pass over the fixed slots: every assignment is an
   * unconfirmed assignment of the date to one of the slots, no slot and no
   * soldier appears twice, and every soldier named is qualified.
   */
  lemma DayInvariant(roster: seq<Soldier>, unavailable: set<int>, d: Date)
    ensures |Run(roster, unavailable, d, Slots).created| <= |Slots|
    ensures NoDoubleBooking(Run(roster, unavailable, d, Slots).created)
    ensures forall k, l :: 0 <= k < l < |Run(roster, unavailable, d, Slots).created| ==>
              Run(roster, unavailable, d, Slots).created[k].shiftType
                != Run(roster, unavailable, d, Slots).created[l].shiftType
    ensures forall a :: a in Run(roster, unavailable, d, Slots).created ==>
              a.date == d && !a.confirmed && a.shiftType in Slots && Qualified(roster, unavailable, a)
  {
    SlotsDistinct();
    RunOnePerSlot(roster, unavailable, d, Slots);
    RunNoDoubleBooking(roster, unavailable, d, Slots);
    RunQualified(roster, unavailable, d, Slots);
  }

  /**
   * Once every soldier of the roster is used for the day, the remaining slots
   * stay empty and nothing changes any more.
   */
  lemma {:induction false} UsedUpDayStaysPut(roster: seq<Soldier>, unavailable: set<int>, d: Date, slots: seq<string>, k: nat)
    requires k <= |slots|
    requires forall p :: 0 <= p < |roster| ==> roster[p].id in Run(roster, unavailable, d, slots[..k]).used
    ensures Run(roster, unavailable, d, slots) == Run(roster, unavailable, d, slots[..k])
    decreases |slots| - k
  {
    if k == |slots| {
      assert slots[..k] == slots;
    } else {
      var st := Run(roster, unavailable, d, slots[..k]);
      RunKeepsIdentity(roster, unavailable, d, slots[..k]);
      RunStep(roster, unavailable, d, slots, k);
      FillSlotPicksBest(st, unavailable, d, slots[k]);
      assert forall p :: 0 <= p < |st.roster| ==> !Eligible(st.roster[p], unavailable, st.used, slots[k]);
      UsedUpDayStaysPut(roster, unavailable, d, slots, k + 1);
    }
  }
}
