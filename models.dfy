/**
 * The records of the duty planner's data store (models.py), reduced to the
 * fields the schedule generator reads or writes. Primary keys of assignments
 * and unavailability records are not part of this model. Of the relationships
 * between tables, only the link from an assignment to its soldier is kept
 * (`Linked`); the link from an unavailability record to its soldier is not
 * modelled.
 */
module Models {

  /** A calendar date, as produced by parsing a "YYYY-MM-DD" string. */
  datatype Date = Date(year: int, month: int, day: int)

  /** A soldier of the unit; `totalServices` is the fairness counter. */
  datatype Soldier = Soldier(
    id: int,
    name: string,
    rank: string,
    role: string,
    totalServices: nat,
    isAvailable: bool)

  /** One soldier on one duty shift of one date. */
  datatype Assignment = Assignment(
    soldierId: int,
    date: Date,
    shiftType: string,
    confirmed: bool)

  /** A date on which a soldier cannot serve. */
  datatype Unavailability = Unavailability(
    soldierId: int,
    date: Date,
    reason: string)

  /** Soldier ids are a primary key: no two roster entries share one. */
  predicate UniqueIds(roster: seq<Soldier>)
  {
    forall p, q :: 0 <= p < |roster| && 0 <= q < |roster| && roster[p].id == roster[q].id ==> p == q
  }

  /** Every assignment of `log` refers to a soldier of `roster` (the foreign key of the assignment table). */
  ghost predicate Linked(roster: seq<Soldier>, log: seq<Assignment>)
  {
    forall k :: 0 <= k < |log| ==> exists p :: 0 <= p < |roster| && roster[p].id == log[k].soldierId
  }
}
