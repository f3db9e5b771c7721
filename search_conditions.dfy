/**
 * The search-parent array as the inspector edits it in place: the "+", "-",
 * "Add Selected" and "Clear" buttons and the `CheckValidSearchParents` pass.
 */
module SearchConditionsEditor {
  import opened Common
  import opened SearchParents
  import opened SearchParentsLemmas

  class SearchConditions {
    /** The serialized `parentGOs` array. */
    var parentGOs: seq<Slot>

    constructor (initial: seq<Slot>)
      ensures parentGOs == initial
    {
      parentGOs := initial;
    }

    /** "+": insert at `Max(arraySize - 1, 0)`, then null the last element. */
    method Plus()
      modifies this
      ensures parentGOs == old(parentGOs) + [None]
    {
      InsertThenSetLastAppends(parentGOs, None);
      parentGOs := InsertArrayElementAtIndex(parentGOs, AppendIndex(parentGOs));
      parentGOs := parentGOs[|parentGOs| - 1 := None];
    }

    /**
     * "-": drop the last element when there are several, otherwise null
     * element 0. On an empty array element 0 does not exist: the handler
     * fails (`ok` is false) and nothing changes.
     */
    method Minus() returns (ok: bool)
      modifies this
      ensures ok == (|old(parentGOs)| > 0)
      ensures |old(parentGOs)| > 1 ==> parentGOs == old(parentGOs)[..|old(parentGOs)| - 1]
      ensures |old(parentGOs)| == 1 ==> parentGOs == [None]
      ensures |old(parentGOs)| == 0 ==> parentGOs == []
      ensures |old(parentGOs)| >= 1 ==> |parentGOs| >= 1
    {
      if |parentGOs| > 1 {
        parentGOs := DeleteArrayElementAtIndex(parentGOs, |parentGOs| - 1);
        ok := true;
      } else if |parentGOs| == 1 {
        parentGOs := parentGOs[0 := None];
        ok := true;
      } else {
        ok := false;
      }
    }

    /** "Clear": size 1, element 0 null. */
    method Clear()
      modifies this
      ensures parentGOs == [None]
    {
      parentGOs := SetArraySize(parentGOs, 1);
      parentGOs := parentGOs[0 := None];
    }

    /**
     * "Add Selected": append every selected object, in order, then run the
     * validation pass as written.
     */
    method AddSelected(selection: seq<Node>, root: Node, under: Under) returns (outcome: CheckOutcome)
      modifies this
      ensures outcome == CheckedParents(old(parentGOs) + AsSlots(selection), root, under)
      ensures parentGOs == outcome.parents
      ensures IsSubseq(parentGOs, old(parentGOs) + AsSlots(selection))
      ensures outcome.Checked? ==> Accepted(parentGOs, root, under)
    {
      var i := 0;
      while i < |selection|
        invariant 0 <= i <= |selection|
        invariant parentGOs == old(parentGOs) + AsSlots(selection[..i])
      {
        InsertThenSetLastAppends(parentGOs, Some(selection[i]));
        parentGOs := InsertArrayElementAtIndex(parentGOs, AppendIndex(parentGOs));
        parentGOs := parentGOs[|parentGOs| - 1 := Some(selection[i])];
        assert AsSlots(selection[..i + 1]) == AsSlots(selection[..i]) + [Some(selection[i])];
        i := i + 1;
      }
      assert selection[..i] == selection;
      outcome := CheckValidSearchParents(root, under);
    }

    /**
     * `CheckValidSearchParents` as written: the outer loop steps back after
     * each deletion (`i--`), the inner loop does not stop after deleting and
     * may delete again at the decremented index, down to -1.
     */
    method CheckValidSearchParents(root: Node, under: Under) returns (outcome: CheckOutcome)
      modifies this
      ensures outcome == CheckedParents(old(parentGOs), root, under)
      ensures parentGOs == outcome.parents
      ensures IsSubseq(parentGOs, old(parentGOs))
      ensures outcome.Checked? ==> Accepted(parentGOs, root, under)
    {
      ghost var answer := CheckedParents(parentGOs, root, under);
      CheckedParentsValid(parentGOs, root, under);
      var i: int := 0;
      while i < |parentGOs|
        invariant 0 <= i <= |parentGOs|
        invariant CheckOuter(parentGOs, i, root, under) == answer
        decreases |parentGOs| - i
      {
        var go1 := parentGOs[i];
        if go1.None? {
          i := i + 1;
        } else if under(go1.value, root) {
          // DeleteArrayElementAtIndex(i--), then the loop's i++
          parentGOs := DeleteArrayElementAtIndex(parentGOs, i);
        } else {
          var t1 := go1.value;
          ghost var gap := |parentGOs| - i;
          var j := 0;
          while j < |parentGOs|
            invariant -1 <= i < |parentGOs| && 0 <= j <= |parentGOs| + 1
            invariant |parentGOs| - i == gap
            invariant CheckInner(parentGOs, i, t1, j, root, under) == answer
            decreases |parentGOs| + 1 - j
          {
            if j != i && parentGOs[j].Some? && under(t1, parentGOs[j].value) {
              if i < 0 {
                outcome := BadIndex(parentGOs);
                return;
              }
              parentGOs := DeleteArrayElementAtIndex(parentGOs, i);
              i := i - 1;
            }
            j := j + 1;
          }
          i := i + 1;
        }
      }
      outcome := Checked(parentGOs);
    }

    /**
     * The pass with the inner loop stopping at the first deletion: keeps every
     * searched object searched, given a transform hierarchy.
     */
    method CheckValidSearchParentsFixed(root: Node, under: Under)
      modifies this
      ensures parentGOs == FixedParents(old(parentGOs), root, under)
      ensures IsSubseq(parentGOs, old(parentGOs))
      ensures Accepted(parentGOs, root, under)
      ensures Hierarchy(under) ==> KeepsCoverage(old(parentGOs), parentGOs, root, under)
    {
      ghost var answer := FixedParents(parentGOs, root, under);
      FixedOuterValid(parentGOs, 0, root, under);
      if Hierarchy(under) {
        FixedParentsCorrect(parentGOs, root, under);
      }
      var i := 0;
      while i < |parentGOs|
        invariant 0 <= i <= |parentGOs|
        invariant FixedOuter(parentGOs, i, root, under) == answer
        decreases |parentGOs| - i
      {
        var go1 := parentGOs[i];
        if go1.None? {
          i := i + 1;
        } else if under(go1.value, root) {
          parentGOs := DeleteArrayElementAtIndex(parentGOs, i);
        } else {
          var t1 := go1.value;
          var j := 0;
          while j < |parentGOs| && (j == i || parentGOs[j].None? || !under(t1, parentGOs[j].value))
            invariant 0 <= j <= |parentGOs|
            invariant FixedInner(parentGOs, i, j, root, under) == answer
          {
            j := j + 1;
          }
          if j < |parentGOs| {
            parentGOs := DeleteArrayElementAtIndex(parentGOs, i);
          } else {
            i := i + 1;
          }
        }
      }
    }
  }
}
