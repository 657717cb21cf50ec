/**
 * Building the candidate pool for one slot and choosing the candidate with the
 * smallest (total services, id) key. Candidates are positions in the roster:
 * they stand for the soldier objects the generator collects in a list.
 */
module Selection {
  import opened Models
  import opened Roles

  /** The four filters a soldier must pass to be a candidate for `shift`. */
  predicate Eligible(s: Soldier, unavailable: set<int>, used: set<int>, shift: string)
  {
    s.isAvailable && s.id !in unavailable && s.id !in used && RoleCompatible(shift, s.role)
  }

  /** The roster positions of the eligible soldiers, in roster order. */
  function Candidates(roster: seq<Soldier>, unavailable: set<int>, used: set<int>, shift: string): (c: seq<nat>)
    ensures forall k :: 0 <= k < |c| ==> c[k] < |roster| && Eligible(roster[c[k]], unavailable, used, shift)
    ensures forall p :: 0 <= p < |roster| && Eligible(roster[p], unavailable, used, shift) ==> p in c
    ensures forall k, l :: 0 <= k < l < |c| ==> c[k] < c[l]
  {
    if |roster| == 0 then []
    else
      var n := |roster| - 1;
      Candidates(roster[..n], unavailable, used, shift)
        + (if Eligible(roster[n], unavailable, used, shift) then [n] else [])
  }

  /** The candidate loop of the generator: skip soldiers failing a filter, append the others. */
  method BuildCandidates(roster: seq<Soldier>, unavailable: set<int>, used: set<int>, shift: string)
    returns (candidates: seq<nat>)
    ensures candidates == Candidates(roster, unavailable, used, shift)
  {
    candidates := [];
    for p := 0 to |roster|
      invariant candidates == Candidates(roster[..p], unavailable, used, shift)
    {
      assert roster[..p + 1][..p] == roster[..p];
      var soldier := roster[p];
      if !soldier.isAvailable {
        continue;
      }
      if soldier.id in unavailable {
        continue;
      }
      if soldier.id in used {
        continue;
      }
      var compatible := CheckRole(shift, soldier.role);
      if !compatible {
        continue;
      }
      candidates := candidates + [p];
    }
    assert roster[..|roster|] == roster;
  }

  /** The key order of the selection: fewer services first, then the smaller id. */
  predicate Precedes(a: Soldier, b: Soldier)
  {
    a.totalServices < b.totalServices || (a.totalServices == b.totalServices && a.id < b.id)
  }

  /**
   * The index in `cs` of the candidate Python's `min` returns: no candidate has
   * a smaller key, and every candidate before it has a strictly larger one.
   */
  function MinIndex(roster: seq<Soldier>, cs: seq<nat>): (m: nat)
    requires |cs| > 0
    requires forall k :: 0 <= k < |cs| ==> cs[k] < |roster|
    ensures m < |cs|
    ensures forall k :: 0 <= k < |cs| ==> !Precedes(roster[cs[k]], roster[cs[m]])
    ensures forall k :: 0 <= k < m ==> Precedes(roster[cs[m]], roster[cs[k]])
  {
    if |cs| == 1 then 0
    else
      var n := |cs| - 1;
      var m := MinIndex(roster, cs[..n]);
      if Precedes(roster[cs[n]], roster[cs[m]]) then n else m
  }
}
