/**
 * The role-compatibility test of the schedule generator: a shift label is
 * searched for the known duty keywords in list order, and only the first one
 * found is required of the soldier's role.
 */
module Roles {
  import opened Wrappers

  /** `part` occurs in `text` starting at position `i`. */
  predicate OccursAt(text: string, part: string, i: int)
  {
    0 <= i <= |text| - |part| && text[i..i + |part|] == part
  }

  /** Case-sensitive substring test, as Python's `part in text` on strings. */
  predicate Contains(text: string, part: string)
  {
    exists i | 0 <= i <= |text| - |part| :: OccursAt(text, part, i)
  }

  /** A non-empty `part` whose first character never appears in `text` does not occur in it. */
  lemma {:induction false} AbsentFirstChar(text: string, part: string)
    requires |part| > 0 && part[0] !in text
    ensures !Contains(text, part)
  {
    forall i | 0 <= i <= |text| - |part|
      ensures !OccursAt(text, part, i)
    {
      assert text[i..i + |part|][0] == text[i];
    }
  }

  /** The duty keywords ("watch", "day-room guard", "kitchen"), in the order they are tried. */
  const RoleKeywords: seq<string> := ["Σκοπιά", "Θαλαμοφύλακας", "Κουζίνα"]

  /** The position of the first of `keywords` that occurs in `shift`, if any does. */
  function FirstKeyword(shift: string, keywords: seq<string>): (r: Option<nat>)
    ensures r.Some? ==> r.value < |keywords| && Contains(shift, keywords[r.value])
    ensures r.Some? ==> forall j :: 0 <= j < r.value ==> !Contains(shift, keywords[j])
    ensures r.None? <==> forall j :: 0 <= j < |keywords| ==> !Contains(shift, keywords[j])
  {
    if |keywords| == 0 then None
    else if Contains(shift, keywords[0]) then Some(0)
    else
      match FirstKeyword(shift, keywords[1..])
      case None => None
      case Some(k) => Some(k + 1)
  }

  /**
   * A soldier with role `role` may take shift `shift`: when the label contains
   * a keyword, the first such keyword must occur in the role; a label with no
   * keyword accepts every role.
   */
  function RoleCompatible(shift: string, role: string): (ok: bool)
    ensures ok <==> forall k :: 0 <= k < |RoleKeywords| && Contains(shift, RoleKeywords[k])
                                && (forall j :: 0 <= j < k ==> !Contains(shift, RoleKeywords[j]))
                                ==> Contains(role, RoleKeywords[k])
  {
    match FirstKeyword(shift, RoleKeywords)
    case None => true
    case Some(k) => Contains(role, RoleKeywords[k])
  }

  /** A label whose first contained keyword is `k` accepts exactly the roles containing keyword `k`. */
  lemma FirstKeywordDecides(shift: string, k: nat)
    requires k < |RoleKeywords| && Contains(shift, RoleKeywords[k])
    requires forall j :: 0 <= j < k ==> !Contains(shift, RoleKeywords[j])
    ensures forall role :: RoleCompatible(shift, role) <==> Contains(role, RoleKeywords[k])
  {
  }

  /** The keyword loop of the generator, which stops at the first keyword found in the label. */
  method CheckRole(shift: string, role: string) returns (compatible: bool)
    ensures compatible == RoleCompatible(shift, role)
  {
    var shiftHasKeyword := false;
    var soldierHasMatchingRole := false;
    for i := 0 to |RoleKeywords|
      invariant !shiftHasKeyword && !soldierHasMatchingRole
      invariant forall j :: 0 <= j < i ==> !Contains(shift, RoleKeywords[j])
    {
      var keyword := RoleKeywords[i];
      if Contains(shift, keyword) {
        shiftHasKeyword := true;
        if Contains(role, keyword) {
          soldierHasMatchingRole := true;
        }
        break;
      }
    }
    compatible := !(shiftHasKeyword && !soldierHasMatchingRole);
  }
}
