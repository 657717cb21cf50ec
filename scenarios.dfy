/**
 * Worked examples of one day's pass on a two-soldier roster: the lower
 * counter wins, an unavailable soldier is passed over, a label without a
 * keyword takes any role, and a full day uses each soldier at most once.
 */
module Scenarios {
  import opened Wrappers
  import opened Models
  import opened Roles
  import opened Selection
  import opened Schedule

  /** Two watch soldiers; the second has served less. */
  const Alpha: Soldier := Soldier(1, "Alpha", "", "Σκοπιά", 3, true)
  const Bravo: Soldier := Soldier(2, "Bravo", "", "Σκοπιά", 1, true)

  /** Both watch soldiers qualify for every watch slot. */
  lemma WatchSoldiersFit(k: nat)
    requires k < 3
    ensures RoleCompatible(Slots[k], Alpha.role) && RoleCompatible(Slots[k], Bravo.role)
  {
    SlotRoles();
    assert OccursAt(Alpha.role, RoleKeywords[0], 0);
  }

  /** On the fresh roster the first watch is given to Bravo, the less-served soldier. */
  lemma BravoTakesFirstWatch(d: Date)
    ensures FillSlot(Start([Alpha, Bravo]), {}, d, Slots[0]) == Assign(Start([Alpha, Bravo]), d, Slots[0], 1)
  {
    var watch := Slots[0];
    var st := Start([Alpha, Bravo]);
    WatchSoldiersFit(0);
    assert Eligible(st.roster[1], {}, {}, watch);
    FillSlotPicksBest(st, {}, d, watch);
    var p :| IsBest(st.roster, {}, {}, watch, p) && FillSlot(st, {}, d, watch) == Assign(st, d, watch, p);
    assert Precedes(st.roster[1], st.roster[0]);
    assert p == 1;
  }

  /** With nobody unavailable, the first watch goes to the soldier with fewer services, whose counter becomes 2. */
  lemma LowerCounterWins(d: Date)
    ensures Run([Alpha, Bravo], {}, d, [Slots[0]])
              == DayState([Alpha, Bravo.(totalServices := 2)], {2}, [Assignment(2, d, Slots[0], false)])
  {
    var watch := Slots[0];
    var st := Start([Alpha, Bravo]);
    assert [watch][..0] == [];
    assert FillSlots(st, {}, d, []) == st;
    assert Run([Alpha, Bravo], {}, d, [watch]) == FillSlot(st, {}, d, watch);
    BravoTakesFirstWatch(d);
    var next := Assign(st, d, watch, 1);
    assert next.roster == [Alpha, Bravo.(totalServices := 2)];
    assert next.used == {2};
    assert next.created == [Assignment(2, d, watch, false)];
  }

  /** With the less-served soldier unavailable on the date, the other one takes the watch. */
  lemma UnavailableSoldierSkipped(d: Date)
    ensures Run([Alpha, Bravo], {2}, d, [Slots[0]]).created == [Assignment(1, d, Slots[0], false)]
  {
    var st := Start([Alpha, Bravo]);
    assert [Slots[0]][..0] == [];
    assert FillSlots(st, {2}, d, []) == st;
    assert Run([Alpha, Bravo], {2}, d, [Slots[0]]) == FillSlot(st, {2}, d, Slots[0]);
    WatchSoldiersFit(0);
    assert Eligible(st.roster[0], {2}, {}, Slots[0]);
    var pick := StepOutcome(st, {2}, d, Slots[0]);
    assert pick == Some(0);
  }

  /** A free-text special duty ("messenger") that carries none of the keywords. */
  const Messenger: string := "Αγγελιοφόρος"

  /** The messenger label contains no keyword, so it accepts every role. */
  lemma MessengerHasNoKeyword()
    ensures FirstKeyword(Messenger, RoleKeywords).None?
  {
    AbsentFirstChar(Messenger, RoleKeywords[0]);
    AbsentFirstChar(Messenger, RoleKeywords[1]);
    AbsentFirstChar(Messenger, RoleKeywords[2]);
  }

  /** A label with none of the keywords goes to a soldier whatever the soldier's role. */
  lemma FreeTextSlotTakesAnyRole(d: Date, role: string)
    ensures Run([Soldier(7, "Charlie", "", role, 0, true)], {}, d, [Messenger]).created
              == [Assignment(7, d, Messenger, false)]
  {
    var st := Start([Soldier(7, "Charlie", "", role, 0, true)]);
    assert [Messenger][..0] == [];
    assert FillSlots(st, {}, d, []) == st;
    assert Run(st.roster, {}, d, [Messenger]) == FillSlot(st, {}, d, Messenger);
    MessengerHasNoKeyword();
    assert Eligible(st.roster[0], {}, {}, Messenger);
    var pick := StepOutcome(st, {}, d, Messenger);
    assert pick == Some(0);
  }

  /** The first two watches go to the less-served soldier and then to the other. */
  lemma FirstTwoWatches(d: Date)
    ensures Run([Alpha, Bravo], {}, d, Slots[..2])
              == DayState([Alpha.(totalServices := 4), Bravo.(totalServices := 2)], {1, 2},
                          [Assignment(2, d, Slots[0], false), Assignment(1, d, Slots[1], false)])
  {
    var roster := [Alpha, Bravo];
    var watch0, watch1 := Slots[0], Slots[1];
    LowerCounterWins(d);
    assert Slots[..1] == [watch0];
    var s1 := Run(roster, {}, d, Slots[..1]);
    assert s1 == DayState([Alpha, Bravo.(totalServices := 2)], {2}, [Assignment(2, d, watch0, false)]);
    RunStep(roster, {}, d, Slots, 1);
    assert Run(roster, {}, d, Slots[..2]) == FillSlot(s1, {}, d, watch1);
    WatchSoldiersFit(1);
    assert Eligible(s1.roster[0], {}, s1.used, watch1);
    var pick := StepOutcome(s1, {}, d, watch1);
    assert pick == Some(0);
    var s2 := Assign(s1, d, watch1, 0);
    assert s2.roster == [Alpha.(totalServices := 4), Bravo.(totalServices := 2)];
    assert s2.used == {1, 2};
    assert s2.created == [Assignment(2, d, watch0, false), Assignment(1, d, watch1, false)];
  }

  /**
   * A whole day with the two watch soldiers: the first watch goes to the one
   * with fewer services, the second to the other, and every later slot stays
   * empty because both are used for the day.
   */
  lemma FullDay(d: Date)
    ensures Run([Alpha, Bravo], {}, d, Slots).created
              == [Assignment(2, d, Slots[0], false), Assignment(1, d, Slots[1], false)]
    ensures Run([Alpha, Bravo], {}, d, Slots).roster
              == [Alpha.(totalServices := 4), Bravo.(totalServices := 2)]
  {
    FirstTwoWatches(d);
    UsedUpDayStaysPut([Alpha, Bravo], {}, d, Slots, 2);
  }
}
