/**
 * The assignment table viewed as an ordered log: the queries by date that the
 * generator and the confirmation action run, and the confirmation update.
 */
module Assignments {
  import opened Models

  /** The assignments of dates other than `d`, in log order. */
  function WithoutDate(log: seq<Assignment>, d: Date): (r: seq<Assignment>)
    ensures forall k :: 0 <= k < |r| ==> r[k].date != d
    ensures |r| <= |log|
  {
    if |log| == 0 then []
    else
      var n := |log| - 1;
      WithoutDate(log[..n], d) + (if log[n].date == d then [] else [log[n]])
  }

  /** The assignments of date `d`, in log order. */
  function OnDate(log: seq<Assignment>, d: Date): (r: seq<Assignment>)
    ensures forall k :: 0 <= k < |r| ==> r[k].date == d
    ensures |r| <= |log|
  {
    if |log| == 0 then []
    else
      var n := |log| - 1;
      OnDate(log[..n], d) + (if log[n].date == d then [log[n]] else [])
  }

  /** The two date queries split the log: together they hold each entry exactly as often as the log does. */
  lemma {:induction false} QueriesPartition(log: seq<Assignment>, d: Date)
    ensures multiset(OnDate(log, d)) + multiset(WithoutDate(log, d)) == multiset(log)
  {
    if |log| > 0 {
      var n := |log| - 1;
      QueriesPartition(log[..n], d);
      assert log[..n] + [log[n]] == log;
    }
  }

  /**
   * The date queries select exactly: an entry survives the deletion of `d`
   * iff it is in the log with another date, and the query of `d` returns an
   * entry iff it is in the log with date `d`. Nothing is invented or lost.
   */
  lemma QueriesExact(log: seq<Assignment>, d: Date)
    ensures forall a :: a in WithoutDate(log, d) <==> a in log && a.date != d
    ensures forall a :: a in OnDate(log, d) <==> a in log && a.date == d
  {
    QueriesPartition(log, d);
    var on, off := OnDate(log, d), WithoutDate(log, d);
    forall a
      ensures a in off <==> a in log && a.date != d
      ensures a in on <==> a in log && a.date == d
    {
      assert a in log <==> a in multiset(on) + multiset(off);
    }
  }

  /** Both date queries distribute over concatenation of logs. */
  lemma {:induction false} QueriesAppend(x: seq<Assignment>, y: seq<Assignment>, d: Date)
    ensures WithoutDate(x + y, d) == WithoutDate(x, d) + WithoutDate(y, d)
    ensures OnDate(x + y, d) == OnDate(x, d) + OnDate(y, d)
    decreases |y|
  {
    if |y| == 0 {
      assert x + y == x;
    } else {
      var n := |y| - 1;
      var xy := x + y;
      assert xy[..|xy| - 1] == x + y[..n];
      assert xy[|xy| - 1] == y[n];
      QueriesAppend(x, y[..n], d);
      var tailW := if y[n].date == d then [] else [y[n]];
      var tailO := if y[n].date == d then [y[n]] else [];
      calc {
        WithoutDate(xy, d);
        WithoutDate(x + y[..n], d) + tailW;
        (WithoutDate(x, d) + WithoutDate(y[..n], d)) + tailW;
        WithoutDate(x, d) + (WithoutDate(y[..n], d) + tailW);
        WithoutDate(x, d) + WithoutDate(y, d);
      }
      calc {
        OnDate(xy, d);
        OnDate(x + y[..n], d) + tailO;
        (OnDate(x, d) + OnDate(y[..n], d)) + tailO;
        OnDate(x, d) + (OnDate(y[..n], d) + tailO);
        OnDate(x, d) + OnDate(y, d);
      }
    }
  }

  /** A log whose entries all carry date `d` is its own `d`-query and has nothing for other dates. */
  lemma {:induction false} AllOnDate(c: seq<Assignment>, d: Date)
    requires forall k :: 0 <= k < |c| ==> c[k].date == d
    ensures OnDate(c, d) == c
    ensures WithoutDate(c, d) == []
  {
    if |c| > 0 {
      var n := |c| - 1;
      AllOnDate(c[..n], d);
      assert c[..n] + [c[n]] == c;
    }
  }

  /**
   * Replacing a date's assignments: after deleting the entries of `d` and
   * appending `c` (all dated `d`), the entries of `d` are exactly `c` and the
   * entries of every other date are those before the replacement.
   */
  lemma ReplaceDate(log: seq<Assignment>, c: seq<Assignment>, d: Date)
    requires forall k :: 0 <= k < |c| ==> c[k].date == d
    ensures OnDate(WithoutDate(log, d) + c, d) == c
    ensures WithoutDate(WithoutDate(log, d) + c, d) == WithoutDate(log, d)
  {
    var rest := WithoutDate(log, d);
    QueriesAppend(rest, c, d);
    AllOnDate(c, d);
    NoneOnDate(rest, d);
  }

  /** A log with no entry of date `d` has an empty `d`-query and is its own complement. */
  lemma {:induction false} NoneOnDate(log: seq<Assignment>, d: Date)
    requires forall k :: 0 <= k < |log| ==> log[k].date != d
    ensures OnDate(log, d) == []
    ensures WithoutDate(log, d) == log
  {
    if |log| > 0 {
      var n := |log| - 1;
      NoneOnDate(log[..n], d);
      assert log[..n] + [log[n]] == log;
    }
  }

  /** `a` with its confirmed flag set when it belongs to date `d`. */
  function ConfirmIfOn(a: Assignment, d: Date): Assignment
  {
    if a.date == d then a.(confirmed := true) else a
  }

  /**
   * The log after confirming date `d`: only confirmed flags change, those of
   * `d` become true and those of every other date keep their value.
   */
  function ConfirmDate(log: seq<Assignment>, d: Date): (r: seq<Assignment>)
    ensures |r| == |log|
    ensures forall i :: 0 <= i < |log| ==>
              r[i].soldierId == log[i].soldierId && r[i].date == log[i].date
              && r[i].shiftType == log[i].shiftType
              && r[i].confirmed == (log[i].confirmed || log[i].date == d)
  {
    if |log| == 0 then []
    else
      var n := |log| - 1;
      ConfirmDate(log[..n], d) + [ConfirmIfOn(log[n], d)]
  }

  /** Confirming `d` leaves the assignments of every other date as they were. */
  lemma {:induction false} ConfirmKeepsOtherDates(log: seq<Assignment>, d: Date)
    ensures WithoutDate(ConfirmDate(log, d), d) == WithoutDate(log, d)
  {
    if |log| > 0 {
      var n := |log| - 1;
      ConfirmKeepsOtherDates(log[..n], d);
      QueriesAppend(ConfirmDate(log[..n], d), [ConfirmIfOn(log[n], d)], d);
    }
  }

  /** After confirming `d`, the assignments of `d` are the same ones, each confirmed. */
  lemma {:induction false} ConfirmSetsDate(log: seq<Assignment>, d: Date)
    ensures |OnDate(ConfirmDate(log, d), d)| == |OnDate(log, d)|
    ensures forall k :: 0 <= k < |OnDate(log, d)| ==>
              OnDate(ConfirmDate(log, d), d)[k] == OnDate(log, d)[k].(confirmed := true)
  {
    if |log| > 0 {
      var n := |log| - 1;
      ConfirmSetsDate(log[..n], d);
      QueriesAppend(ConfirmDate(log[..n], d), [ConfirmIfOn(log[n], d)], d);
    }
  }

  /** Confirming a date twice is the same as confirming it once. */
  lemma {:induction false} ConfirmIdempotent(log: seq<Assignment>, d: Date)
    ensures ConfirmDate(ConfirmDate(log, d), d) == ConfirmDate(log, d)
  {
    if |log| > 0 {
      var n := |log| - 1;
      ConfirmIdempotent(log[..n], d);
      var once := ConfirmDate(log, d);
      assert once[..n] == ConfirmDate(log[..n], d);
    }
  }

  /** Confirming a date keeps every assignment's soldier, so the foreign key still holds. */
  lemma ConfirmKeepsLinks(roster: seq<Soldier>, log: seq<Assignment>, d: Date)
    requires Linked(roster, log)
    ensures Linked(roster, ConfirmDate(log, d))
  {
    var r := ConfirmDate(log, d);
    forall k | 0 <= k < |r|
      ensures exists p :: 0 <= p < |roster| && roster[p].id == r[k].soldierId
    {
      assert r[k].soldierId == log[k].soldierId;
    }
  }
}
