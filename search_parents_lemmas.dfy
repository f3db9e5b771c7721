/**
 * What `CheckValidSearchParents` guarantees, as written and corrected, and
 * the inputs on which the two differ.
 */
module SearchParentsLemmas {
  import opened Common
  import opened SearchParents

  // ---------------------------------------------------------------------
  // Deleting only
  // ---------------------------------------------------------------------

  lemma {:induction false} SubseqRefl<T>(s: seq<T>)
    ensures IsSubseq(s, s)
    decreases |s|
  {
    if s != [] {
      SubseqRefl(s[1..]);
    }
  }

  lemma {:induction false} SubseqTrans<T>(a: seq<T>, b: seq<T>, c: seq<T>)
    requires IsSubseq(a, b) && IsSubseq(b, c)
    ensures IsSubseq(a, c)
    decreases |c|
  {
    if a == [] {
    } else if c == [] || b == [] {
      assert false;
    } else if IsSubseq(b, c[1..]) {
      SubseqTrans(a, b, c[1..]);
    } else {
      assert b[0] == c[0] && IsSubseq(b[1..], c[1..]);
      if a[0] == b[0] && IsSubseq(a[1..], b[1..]) {
        SubseqTrans(a[1..], b[1..], c[1..]);
      } else {
        SubseqTrans(a, b[1..], c[1..]);
      }
    }
  }

  lemma {:induction false} DeleteIsSubseq(s: seq<Slot>, k: int)
    requires 0 <= k < |s|
    ensures IsSubseq(DeleteArrayElementAtIndex(s, k), s)
    decreases k
  {
    var d := DeleteArrayElementAtIndex(s, k);
    if k == 0 {
      assert d == s[1..];
      SubseqRefl(s[1..]);
      if d != [] {
        assert IsSubseq(d, s[1..]);
      }
    } else {
      assert d[0] == s[0];
      assert d[1..] == DeleteArrayElementAtIndex(s[1..], k - 1);
      DeleteIsSubseq(s[1..], k - 1);
    }
  }

  // ---------------------------------------------------------------------
  // The validated prefix survives deletions behind it
  // ---------------------------------------------------------------------

  lemma DeleteKeepsPrefix(s: seq<Slot>, k: int, n: int, root: Node, under: Under)
    requires 0 <= n <= k < |s| && GoodPrefix(s, n, root, under)
    ensures GoodPrefix(DeleteArrayElementAtIndex(s, k), n, root, under)
  {
    var d := DeleteArrayElementAtIndex(s, k);
    forall p | 0 <= p < n ensures GoodAt(d, p, root, under) {
      assert GoodAt(s, p, root, under);
      if d[p].Some? {
        forall q | 0 <= q < |d| && q != p && d[q].Some?
          ensures !under(d[p].value, d[q].value)
        {
          var q' := if q < k then q else q + 1;
          assert d[q] == s[q'];
        }
      }
    }
  }

  lemma GoodPrefixAccepted(s: seq<Slot>, root: Node, under: Under)
    requires GoodPrefix(s, |s|, root, under)
    ensures Accepted(s, root, under)
  {
    forall p, q | 0 <= p < |s| && 0 <= q < |s| && p != q && s[p].Some? && s[q].Some?
      ensures !under(s[p].value, s[q].value)
    {
      assert GoodAt(s, p, root, under);
    }
    forall p | 0 <= p < |s| && s[p].Some? ensures !under(s[p].value, root) {
      assert GoodAt(s, p, root, under);
    }
  }

  // ---------------------------------------------------------------------
  // As written: the result is valid and only deletes
  // ---------------------------------------------------------------------

  lemma {:induction false} CheckOuterValid(s: seq<Slot>, i: int, root: Node, under: Under)
    requires 0 <= i <= |s| && GoodPrefix(s, i, root, under)
    ensures IsSubseq(CheckOuter(s, i, root, under).parents, s)
    ensures CheckOuter(s, i, root, under).Checked? ==> Accepted(CheckOuter(s, i, root, under).parents, root, under)
    decreases |s| - i, 1, 0, 0
  {
    if i == |s| {
      SubseqRefl(s);
      GoodPrefixAccepted(s, root, under);
    } else if s[i].None? {
      assert GoodAt(s, i, root, under);
      CheckOuterValid(s, i + 1, root, under);
    } else if under(s[i].value, root) {
      var d := DeleteArrayElementAtIndex(s, i);
      DeleteKeepsPrefix(s, i, i, root, under);
      CheckOuterValid(d, i, root, under);
      DeleteIsSubseq(s, i);
      SubseqTrans(CheckOuter(d, i, root, under).parents, d, s);
    } else {
      CheckInnerValid(s, i, s[i].value, 0, false, root, under);
    }
  }

  /**
   * `deleted` records whether `t1` has already been removed; until then it
   * sits at index `i` and no entry before `j` contains it, afterwards every
   * entry up to and including `i` is validated.
   */
  lemma {:induction false} CheckInnerValid(s: seq<Slot>, i: int, t1: Node, j: int, deleted: bool, root: Node, under: Under)
    requires -1 <= i < |s| && 0 <= j <= |s| + 1
    requires deleted ==> GoodPrefix(s, i + 1, root, under)
    requires !deleted ==> 0 <= i && s[i] == Some(t1) && !under(t1, root) && GoodPrefix(s, i, root, under)
    requires !deleted ==> forall q :: 0 <= q < j && q < |s| && q != i && s[q].Some? ==> !under(t1, s[q].value)
    ensures IsSubseq(CheckInner(s, i, t1, j, root, under).parents, s)
    ensures CheckInner(s, i, t1, j, root, under).Checked? ==> Accepted(CheckInner(s, i, t1, j, root, under).parents, root, under)
    decreases |s| - i, 0, |s| + 1 - j, 1
  {
    if j >= |s| {
      InnerFinishedPrefix(s, i, t1, deleted, root, under);
      CheckOuterValid(s, i + 1, root, under);
    } else if j == i || s[j].None? || !under(t1, s[j].value) {
      CheckInnerValid(s, i, t1, j + 1, deleted, root, under);
    } else if i < 0 {
      SubseqRefl(s);
    } else {
      CheckInnerDeleteValid(s, i, t1, j, deleted, root, under);
    }
  }

  /** The inner loop's deletion step: entry `i` goes, and every entry before it stays validated. */
  lemma {:induction false} CheckInnerDeleteValid(s: seq<Slot>, i: int, t1: Node, j: int, deleted: bool, root: Node, under: Under)
    requires 0 <= i < |s| && 0 <= j < |s|
    requires deleted ==> GoodPrefix(s, i + 1, root, under)
    requires !deleted ==> GoodPrefix(s, i, root, under)
    ensures var r := CheckInner(DeleteArrayElementAtIndex(s, i), i - 1, t1, j + 1, root, under);
            IsSubseq(r.parents, s) && (r.Checked? ==> Accepted(r.parents, root, under))
    decreases |s| - i, 0, |s| + 1 - j, 0
  {
    var d := DeleteArrayElementAtIndex(s, i);
    assert GoodPrefix(s, i, root, under);
    DeleteKeepsPrefix(s, i, i, root, under);
    CheckInnerValid(d, i - 1, t1, j + 1, true, root, under);
    DeleteIsSubseq(s, i);
    SubseqTrans(CheckInner(d, i - 1, t1, j + 1, root, under).parents, d, s);
  }

  /** When the inner loop has passed every entry, entry `i` is validated too. */
  lemma InnerFinishedPrefix(s: seq<Slot>, i: int, t1: Node, deleted: bool, root: Node, under: Under)
    requires -1 <= i < |s|
    requires deleted ==> GoodPrefix(s, i + 1, root, under)
    requires !deleted ==> 0 <= i && s[i] == Some(t1) && !under(t1, root) && GoodPrefix(s, i, root, under)
    requires !deleted ==> forall q :: 0 <= q < |s| && q != i && s[q].Some? ==> !under(t1, s[q].value)
    ensures GoodPrefix(s, i + 1, root, under)
  {
    if !deleted {
      assert GoodAt(s, i, root, under);
    }
  }

  /**
   * As written, the pass only deletes, and when it finishes without reaching
   * index -1 no surviving entry is under the combiner or under another entry.
   */
  lemma CheckedParentsValid(s: seq<Slot>, root: Node, under: Under)
    ensures IsSubseq(CheckedParents(s, root, under).parents, s)
    ensures CheckedParents(s, root, under).Checked? ==> Accepted(CheckedParents(s, root, under).parents, root, under)
  {
    CheckOuterValid(s, 0, root, under);
  }

  lemma {:induction false} CheckOuterKeepsAccepted(s: seq<Slot>, i: int, root: Node, under: Under)
    requires 0 <= i <= |s| && Accepted(s, root, under)
    ensures CheckOuter(s, i, root, under) == Checked(s)
    decreases |s| - i, 1, 0
  {
    if i < |s| {
      if s[i].None? {
        CheckOuterKeepsAccepted(s, i + 1, root, under);
      } else {
        CheckInnerKeepsAccepted(s, i, 0, root, under);
      }
    }
  }

  lemma {:induction false} CheckInnerKeepsAccepted(s: seq<Slot>, i: int, j: int, root: Node, under: Under)
    requires 0 <= i < |s| && 0 <= j <= |s| && s[i].Some? && Accepted(s, root, under)
    ensures CheckInner(s, i, s[i].value, j, root, under) == Checked(s)
    decreases |s| - i, 0, |s| + 1 - j
  {
    if j == |s| {
      CheckOuterKeepsAccepted(s, i + 1, root, under);
    } else {
      CheckInnerKeepsAccepted(s, i, j + 1, root, under);
    }
  }

  /** As written, the pass leaves the list unchanged exactly when it is already valid. */
  lemma CheckedParentsUnchangedIff(s: seq<Slot>, root: Node, under: Under)
    ensures CheckedParents(s, root, under) == Checked(s) <==> Accepted(s, root, under)
  {
    CheckedParentsValid(s, root, under);
    if Accepted(s, root, under) {
      CheckOuterKeepsAccepted(s, 0, root, under);
    }
  }

  // ---------------------------------------------------------------------
  // Corrected: valid, only deletes, and loses no searched object
  // ---------------------------------------------------------------------

  lemma {:induction false} FixedOuterValid(s: seq<Slot>, i: int, root: Node, under: Under)
    requires 0 <= i <= |s| && GoodPrefix(s, i, root, under)
    ensures IsSubseq(FixedOuter(s, i, root, under), s)
    ensures Accepted(FixedOuter(s, i, root, under), root, under)
    decreases |s| - i, 1, 0
  {
    if i == |s| {
      SubseqRefl(s);
      GoodPrefixAccepted(s, root, under);
    } else if s[i].None? {
      assert GoodAt(s, i, root, under);
      FixedOuterValid(s, i + 1, root, under);
    } else if under(s[i].value, root) {
      FixedDeleteValid(s, i, root, under);
    } else {
      FixedInnerValid(s, i, 0, root, under);
    }
  }

  lemma {:induction false} FixedDeleteValid(s: seq<Slot>, i: int, root: Node, under: Under)
    requires 0 <= i < |s| && GoodPrefix(s, i, root, under)
    ensures IsSubseq(FixedOuter(DeleteArrayElementAtIndex(s, i), i, root, under), s)
    ensures Accepted(FixedOuter(DeleteArrayElementAtIndex(s, i), i, root, under), root, under)
    decreases |s| - i, 0, 0
  {
    var d := DeleteArrayElementAtIndex(s, i);
    DeleteKeepsPrefix(s, i, i, root, under);
    FixedOuterValid(d, i, root, under);
    DeleteIsSubseq(s, i);
    SubseqTrans(FixedOuter(d, i, root, under), d, s);
  }

  lemma {:induction false} FixedInnerValid(s: seq<Slot>, i: int, j: int, root: Node, under: Under)
    requires 0 <= i < |s| && 0 <= j <= |s| && s[i].Some? && !under(s[i].value, root)
    requires GoodPrefix(s, i, root, under)
    requires forall q :: 0 <= q < j && q != i && s[q].Some? ==> !under(s[i].value, s[q].value)
    ensures IsSubseq(FixedInner(s, i, j, root, under), s)
    ensures Accepted(FixedInner(s, i, j, root, under), root, under)
    decreases |s| - i, 0, |s| - j
  {
    if j == |s| {
      assert GoodAt(s, i, root, under);
      FixedOuterValid(s, i + 1, root, under);
    } else if j == i || s[j].None? || !under(s[i].value, s[j].value) {
      FixedInnerValid(s, i, j + 1, root, under);
    } else {
      FixedDeleteValid(s, i, root, under);
    }
  }

  /**
   * Deleting entry `i` keeps coverage when that entry is under the combiner
   * or under the entry at another index `w`.
   */
  lemma DeleteKeepsCoverage(s0: seq<Slot>, s: seq<Slot>, i: int, w: int, root: Node, under: Under)
    requires Transitive(under)
    requires 0 <= i < |s| && s[i].Some? && KeepsCoverage(s0, s, root, under)
    requires under(s[i].value, root) ||
             (0 <= w < |s| && w != i && s[w].Some? && under(s[i].value, s[w].value))
    ensures KeepsCoverage(s0, DeleteArrayElementAtIndex(s, i), root, under)
  {
    var d := DeleteArrayElementAtIndex(s, i);
    forall k | 0 <= k < |s0| && s0[k].Some? && !under(s0[k].value, root)
      ensures CoveredBy(s0[k].value, d, under)
    {
      var x := s0[k].value;
      var q :| 0 <= q < |s| && s[q].Some? && under(x, s[q].value);
      if q != i {
        var q' := if q < i then q else q - 1;
        assert d[q'] == s[q];
      } else {
        if under(s[i].value, root) {
          TransitiveAt(under, x, s[i].value, root);
        }
        var w' := if w < i then w else w - 1;
        assert d[w'] == s[w];
        TransitiveAt(under, x, s[i].value, s[w].value);
      }
    }
  }

  lemma {:induction false} FixedOuterCoverage(s0: seq<Slot>, s: seq<Slot>, i: int, root: Node, under: Under)
    requires Transitive(under)
    requires 0 <= i <= |s| && KeepsCoverage(s0, s, root, under)
    ensures KeepsCoverage(s0, FixedOuter(s, i, root, under), root, under)
    decreases |s| - i, 1, 0
  {
    if i == |s| {
    } else if s[i].None? {
      FixedOuterCoverage(s0, s, i + 1, root, under);
    } else if under(s[i].value, root) {
      DeleteKeepsCoverage(s0, s, i, 0, root, under);
      FixedOuterCoverage(s0, DeleteArrayElementAtIndex(s, i), i, root, under);
    } else {
      FixedInnerCoverage(s0, s, i, 0, root, under);
    }
  }

  lemma {:induction false} FixedInnerCoverage(s0: seq<Slot>, s: seq<Slot>, i: int, j: int, root: Node, under: Under)
    requires Transitive(under)
    requires 0 <= i < |s| && 0 <= j <= |s| && s[i].Some? && KeepsCoverage(s0, s, root, under)
    ensures KeepsCoverage(s0, FixedInner(s, i, j, root, under), root, under)
    decreases |s| - i, 0, |s| - j
  {
    if j == |s| {
      FixedOuterCoverage(s0, s, i + 1, root, under);
    } else if j == i || s[j].None? || !under(s[i].value, s[j].value) {
      FixedInnerCoverage(s0, s, i, j + 1, root, under);
    } else {
      DeleteKeepsCoverage(s0, s, i, j, root, under);
      FixedOuterCoverage(s0, DeleteArrayElementAtIndex(s, i), i, root, under);
    }
  }

  lemma StartCoverage(s: seq<Slot>, root: Node, under: Under)
    requires Reflexive(under)
    ensures KeepsCoverage(s, s, root, under)
  {
    forall k | 0 <= k < |s| && s[k].Some? ensures CoveredBy(s[k].value, s, under) {
      ReflexiveAt(under, s[k].value);
    }
  }

  /**
   * The corrected pass only deletes, leaves a valid list, and every non-null
   * entry it drops that is not under the combiner is still searched through a
   * surviving entry (duplicates collapse to one, nested parents to the outer one).
   */
  lemma FixedParentsCorrect(s: seq<Slot>, root: Node, under: Under)
    requires Hierarchy(under)
    ensures IsSubseq(FixedParents(s, root, under), s)
    ensures Accepted(FixedParents(s, root, under), root, under)
    ensures KeepsCoverage(s, FixedParents(s, root, under), root, under)
  {
    FixedOuterValid(s, 0, root, under);
    StartCoverage(s, root, under);
    FixedOuterCoverage(s, s, 0, root, under);
  }

  lemma {:induction false} FixedOuterKeepsAccepted(s: seq<Slot>, i: int, root: Node, under: Under)
    requires 0 <= i <= |s| && Accepted(s, root, under)
    ensures FixedOuter(s, i, root, under) == s
    decreases |s| - i, 1, 0
  {
    if i < |s| {
      if s[i].None? {
        FixedOuterKeepsAccepted(s, i + 1, root, under);
      } else {
        FixedInnerKeepsAccepted(s, i, 0, root, under);
      }
    }
  }

  lemma {:induction false} FixedInnerKeepsAccepted(s: seq<Slot>, i: int, j: int, root: Node, under: Under)
    requires 0 <= i < |s| && 0 <= j <= |s| && s[i].Some? && Accepted(s, root, under)
    ensures FixedInner(s, i, j, root, under) == s
    decreases |s| - i, 0, |s| - j
  {
    if j == |s| {
      FixedOuterKeepsAccepted(s, i + 1, root, under);
    } else {
      FixedInnerKeepsAccepted(s, i, j + 1, root, under);
    }
  }

  /** The corrected pass is idempotent and changes nothing on a valid list. */
  lemma FixedParentsIdempotent(s: seq<Slot>, root: Node, under: Under)
    ensures Accepted(s, root, under) ==> FixedParents(s, root, under) == s
    ensures FixedParents(FixedParents(s, root, under), root, under) == FixedParents(s, root, under)
  {
    if Accepted(s, root, under) {
      FixedOuterKeepsAccepted(s, 0, root, under);
    }
    FixedOuterValid(s, 0, root, under);
    FixedOuterKeepsAccepted(FixedParents(s, root, under), 0, root, under);
  }

  /** With a reflexive `IsChildOf`, a valid list holds no object twice. */
  lemma AcceptedHasNoDuplicates(s: seq<Slot>, root: Node, under: Under)
    requires Reflexive(under) && Accepted(s, root, under)
    ensures forall p, q :: 0 <= p < q < |s| && s[p].Some? ==> s[p] != s[q]
  {
    forall p, q | 0 <= p < q < |s| && s[p].Some? ensures s[p] != s[q] {
      ReflexiveAt(under, s[p].value);
    }
  }

  // ---------------------------------------------------------------------
  // Where the pass as written goes wrong
  // ---------------------------------------------------------------------

  lemma SameNodeIsHierarchy()
    ensures Hierarchy(SameNode)
  {
  }

  /**
   * With objects 0, 1, 2 and the combiner 9, none below any other, the list
   * [0, 1, 1, 2, 1] loses the unrelated object 0: after the first 1 is removed
   * at index 1, the next match removes the entry at index 0.
   */
  lemma InnocentEntryDeleted()
    ensures Hierarchy(SameNode)
    ensures CheckedParents([Some(0), Some(1), Some(1), Some(2), Some(1)], 9, SameNode)
            == Checked([Some(2), Some(1)])
    ensures !KeepsCoverage([Some(0), Some(1), Some(1), Some(2), Some(1)], [Some(2), Some(1)], 9, SameNode)
  {
    SameNodeIsHierarchy();
    var s := [Some(0), Some(1), Some(1), Some(2), Some(1)];
    assert CheckOuter(s, 0, 9, SameNode) == CheckOuter(s, 1, 9, SameNode);
    assert CheckOuter(s, 1, 9, SameNode) == CheckInner([Some(0), Some(1), Some(2), Some(1)], 0, 1, 3, 9, SameNode);
    assert CheckInner([Some(0), Some(1), Some(2), Some(1)], 0, 1, 3, 9, SameNode)
        == CheckOuter([Some(1), Some(2), Some(1)], 0, 9, SameNode);
    var u := [Some(1), Some(2), Some(1)];
    assert CheckOuter(u, 0, 9, SameNode) == CheckInner(u, 0, 1, 0, 9, SameNode);
    assert CheckInner(u, 0, 1, 0, 9, SameNode) == CheckInner(u, 0, 1, 2, 9, SameNode);
    assert DeleteArrayElementAtIndex(u, 0) == [Some(2), Some(1)];
    assert CheckInner(u, 0, 1, 2, 9, SameNode) == CheckInner([Some(2), Some(1)], -1, 1, 3, 9, SameNode);
    var v := [Some(2), Some(1)];
    assert CheckInner(v, -1, 1, 3, 9, SameNode) == CheckOuter(v, 0, 9, SameNode);
    assert CheckOuter(v, 0, 9, SameNode) == CheckInner(v, 0, 2, 0, 9, SameNode);
    assert CheckInner(v, 0, 2, 0, 9, SameNode) == CheckOuter(v, 1, 9, SameNode);
    assert CheckOuter(v, 1, 9, SameNode) == CheckInner(v, 1, 1, 0, 9, SameNode);
    assert CheckInner(v, 1, 1, 0, 9, SameNode) == CheckOuter(v, 2, 9, SameNode);
    assert !CoveredBy(0, [Some(2), Some(1)], SameNode);
  }

  /** The list [1, 1, 0, 1] drives the pass to delete at index -1. */
  lemma DeleteAtMinusOne()
    ensures Hierarchy(SameNode)
    ensures CheckedParents([Some(1), Some(1), Some(0), Some(1)], 9, SameNode)
            == BadIndex([Some(1), Some(0), Some(1)])
  {
    SameNodeIsHierarchy();
  }

  /** The corrected pass on the same lists keeps 0 and collapses the duplicates. */
  lemma FixedOnCounterexamples()
    ensures FixedParents([Some(0), Some(1), Some(1), Some(2), Some(1)], 9, SameNode)
            == [Some(0), Some(2), Some(1)]
    ensures FixedParents([Some(1), Some(1), Some(0), Some(1)], 9, SameNode)
            == [Some(0), Some(1)]
  {
    var s := [Some(0), Some(1), Some(1), Some(2), Some(1)];
    var s1 := [Some(0), Some(1), Some(2), Some(1)];
    var s2 := [Some(0), Some(2), Some(1)];
    assert FixedOuter(s, 0, 9, SameNode) == FixedOuter(s, 1, 9, SameNode);
    assert DeleteArrayElementAtIndex(s, 1) == s1;
    assert FixedOuter(s, 1, 9, SameNode) == FixedOuter(s1, 1, 9, SameNode);
    assert DeleteArrayElementAtIndex(s1, 1) == s2;
    assert FixedOuter(s1, 1, 9, SameNode) == FixedOuter(s2, 1, 9, SameNode);
    assert FixedOuter(s2, 1, 9, SameNode) == FixedOuter(s2, 2, 9, SameNode);
    assert FixedOuter(s2, 2, 9, SameNode) == s2;
    var u := [Some(1), Some(1), Some(0), Some(1)];
    var u1 := [Some(1), Some(0), Some(1)];
    var u2 := [Some(0), Some(1)];
    assert DeleteArrayElementAtIndex(u, 0) == u1;
    assert FixedOuter(u, 0, 9, SameNode) == FixedOuter(u1, 0, 9, SameNode);
    assert DeleteArrayElementAtIndex(u1, 0) == u2;
    assert FixedOuter(u1, 0, 9, SameNode) == FixedOuter(u2, 0, 9, SameNode);
    assert FixedOuter(u2, 0, 9, SameNode) == FixedOuter(u2, 1, 9, SameNode);
    assert FixedOuter(u2, 1, 9, SameNode) == u2;
  }
}
