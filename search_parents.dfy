/**
 * The search-parent list of a Mesh Combine Studio combiner and the
 * validation pass `CheckValidSearchParents` run over it.
 *
 * The list is Unity's serialized array of optional GameObject references.
 * Scene ancestry (`Transform.IsChildOf`) is a parameter `under`: `under(a, b)`
 * holds when `a` is `b` or lies below `b`.
 *
 * The pass is given twice: as the source writes it (`CheckOuter`/`CheckInner`,
 * whose inner loop goes on comparing after it has deleted the entry) and with
 * the `break` it evidently intends (`FixedOuter`/`FixedInner`).
 */
module SearchParents {
  import opened Common

  /** A scene GameObject, by instance id. */
  type Node = int

  /** One element of the serialized array: an object reference or null. */
  type Slot = Option<Node>

  /** `under(a, b)`: Unity's `a.IsChildOf(b)`, true for `a == b` too. */
  type Under = (Node, Node) -> bool

  ghost predicate Reflexive(under: Under) {
    forall x :: under(x, x)
  }

  ghost predicate Transitive(under: Under) {
    forall x, y, z :: under(x, y) && under(y, z) ==> under(x, z)
  }

  /** A transform hierarchy: `IsChildOf` is reflexive and transitive. */
  ghost predicate Hierarchy(under: Under) {
    Reflexive(under) && Transitive(under)
  }

  lemma ReflexiveAt(under: Under, x: Node)
    requires Reflexive(under)
    ensures under(x, x)
  {
  }

  lemma TransitiveAt(under: Under, x: Node, y: Node, z: Node)
    requires Transitive(under) && under(x, y) && under(y, z)
    ensures under(x, z)
  {
  }

  /** The simplest hierarchy: every object is its own and only ancestor. */
  function SameNode(a: Node, b: Node): bool {
    a == b
  }

  // ---------------------------------------------------------------------
  // Unity's serialized-array edits
  // ---------------------------------------------------------------------

  /** `SerializedProperty.DeleteArrayElementAtIndex(k)` on a valid index. */
  function DeleteArrayElementAtIndex(s: seq<Slot>, k: int): (r: seq<Slot>)
    requires 0 <= k < |s|
    ensures |r| == |s| - 1
    ensures forall q :: 0 <= q < |r| ==> r[q] == if q < k then s[q] else s[q + 1]
  {
    s[..k] + s[k + 1..]
  }

  /**
   * `SerializedProperty.InsertArrayElementAtIndex(k)`: Unity inserts a copy
   * of the element at `k`; into an empty array it inserts a null reference.
   */
  function InsertArrayElementAtIndex(s: seq<Slot>, k: int): (r: seq<Slot>)
    requires 0 <= k <= |s|
    ensures |r| == |s| + 1
    ensures r[..k] == s[..k] && r[k + 1..] == s[k..]
    ensures r[k] == if k < |s| then s[k] else None
  {
    s[..k] + [if k < |s| then s[k] else None] + s[k..]
  }

  /**
   * Setting `SerializedProperty.arraySize` to `n`: truncation, or growth by
   * copies of the last element (null references when the array was empty).
   */
  function SetArraySize(s: seq<Slot>, n: nat): (r: seq<Slot>)
    ensures |r| == n
    ensures forall q :: 0 <= q < n && q < |s| ==> r[q] == s[q]
  {
    if n <= |s| then s[..n]
    else s + seq(n - |s|, _ => if |s| == 0 then None else s[|s| - 1])
  }

  /** The index the "+" and "Add Selected" buttons insert at: `Mathf.Max(arraySize - 1, 0)`. */
  function AppendIndex(s: seq<Slot>): (k: nat)
    ensures k <= |s| && (|s| > 0 ==> k < |s|)
    ensures |s| > 0 ==> k == |s| - 1
    ensures |s| == 0 ==> k == 0
  {
    if |s| - 1 > 0 then |s| - 1 else 0
  }

  /**
   * Inserting at `AppendIndex` and then overwriting the last element is an
   * append: the copy Unity makes keeps the old last element in place.
   */
  lemma InsertThenSetLastAppends(s: seq<Slot>, x: Slot)
    ensures var t := InsertArrayElementAtIndex(s, AppendIndex(s));
            t[|t| - 1 := x] == s + [x]
  {
    var k := AppendIndex(s);
    var t := InsertArrayElementAtIndex(s, k);
    var u := t[|t| - 1 := x];
    forall q | 0 <= q < |s| ensures u[q] == s[q] {
      if q < k {
        assert t[..k][q] == s[..k][q];
      }
    }
  }

  /** The selected objects as array elements. */
  function AsSlots(selection: seq<Node>): (r: seq<Slot>)
    ensures |r| == |selection|
    ensures forall k :: 0 <= k < |r| ==> r[k] == Some(selection[k])
  {
    if selection == [] then [] else [Some(selection[0])] + AsSlots(selection[1..])
  }

  // ---------------------------------------------------------------------
  // What a valid search-parent list is
  // ---------------------------------------------------------------------

  /** No non-null entry is the combiner's own object or lies below it. */
  ghost predicate NoneUnderRoot(s: seq<Slot>, root: Node, under: Under) {
    forall p :: 0 <= p < |s| && s[p].Some? ==> !under(s[p].value, root)
  }

  /** No non-null entry is, or lies below, the non-null entry at another index. */
  ghost predicate NoneNested(s: seq<Slot>, under: Under) {
    forall p, q :: 0 <= p < |s| && 0 <= q < |s| && p != q && s[p].Some? && s[q].Some? ==>
      !under(s[p].value, s[q].value)
  }

  ghost predicate Accepted(s: seq<Slot>, root: Node, under: Under) {
    NoneUnderRoot(s, root, under) && NoneNested(s, under)
  }

  /** Entry `p` is null or passes both tests against the whole current list. */
  ghost predicate GoodAt(s: seq<Slot>, p: int, root: Node, under: Under)
    requires 0 <= p < |s|
  {
    s[p].None? ||
    (!under(s[p].value, root) &&
     forall q :: 0 <= q < |s| && q != p && s[q].Some? ==> !under(s[p].value, s[q].value))
  }

  /** The first `n` entries are good: the part of the list already validated. */
  ghost predicate GoodPrefix(s: seq<Slot>, n: int, root: Node, under: Under) {
    0 <= n <= |s| && forall p :: 0 <= p < n ==> GoodAt(s, p, root, under)
  }

  /** `r` is obtained from `s` by deleting elements only. */
  ghost predicate IsSubseq<T>(r: seq<T>, s: seq<T>)
    decreases |s|
  {
    if r == [] then true
    else if s == [] then false
    else (r[0] == s[0] && IsSubseq(r[1..], s[1..])) || IsSubseq(r, s[1..])
  }

  /** `x` is, or lies below, some non-null entry of `r`. */
  ghost predicate CoveredBy(x: Node, r: seq<Slot>, under: Under) {
    exists q :: 0 <= q < |r| && r[q].Some? && under(x, r[q].value)
  }

  /**
   * Every non-null entry of `s` is either under the combiner (and rightly
   * dropped) or still searched through some entry of `r`.
   */
  ghost predicate KeepsCoverage(s: seq<Slot>, r: seq<Slot>, root: Node, under: Under) {
    forall k :: 0 <= k < |s| && s[k].Some? ==>
      under(s[k].value, root) || CoveredBy(s[k].value, r, under)
  }

  // ---------------------------------------------------------------------
  // CheckValidSearchParents as written
  // ---------------------------------------------------------------------

  /** How the pass ends. */
  datatype CheckOutcome =
    | Checked(parents: seq<Slot>)
      /** A deletion at index -1 was reached; `parents` is the list at that moment. */
    | BadIndex(parents: seq<Slot>)

  /** The outer `for (int i ...)` loop, at index `i` of the current list `s`. */
  function CheckOuter(s: seq<Slot>, i: int, root: Node, under: Under): (r: CheckOutcome)
    requires 0 <= i <= |s|
    ensures |r.parents| < |s| || r.parents == s
    decreases |s| - i, 1, 0
  {
    if i == |s| then Checked(s)
    else if s[i].None? then CheckOuter(s, i + 1, root, under)
    else if under(s[i].value, root) then CheckOuter(DeleteArrayElementAtIndex(s, i), i, root, under)
    else CheckInner(s, i, s[i].value, 0, root, under)
  }

  /**
   * The inner `for (int j ...)` loop comparing `t1` against entry `j`. After a
   * match it deletes at `i`, decrements `i` and keeps going: a later match
   * deletes again at the decremented index.
   */
  function CheckInner(s: seq<Slot>, i: int, t1: Node, j: int, root: Node, under: Under): (r: CheckOutcome)
    requires -1 <= i < |s| && 0 <= j <= |s| + 1
    ensures |r.parents| < |s| || r.parents == s
    decreases |s| - i, 0, |s| + 1 - j
  {
    if j >= |s| then CheckOuter(s, i + 1, root, under)
    else if j == i || s[j].None? || !under(t1, s[j].value) then CheckInner(s, i, t1, j + 1, root, under)
    else if i < 0 then BadIndex(s)
    else CheckInner(DeleteArrayElementAtIndex(s, i), i - 1, t1, j + 1, root, under)
  }

  /** The whole pass as written, from index 0. */
  function CheckedParents(s: seq<Slot>, root: Node, under: Under): (r: CheckOutcome)
    ensures |r.parents| < |s| || r.parents == s
  {
    CheckOuter(s, 0, root, under)
  }

  // ---------------------------------------------------------------------
  // CheckValidSearchParents with `break` after the deletion
  // ---------------------------------------------------------------------

  function FixedOuter(s: seq<Slot>, i: int, root: Node, under: Under): (r: seq<Slot>)
    requires 0 <= i <= |s|
    ensures |r| < |s| || r == s
    decreases |s| - i, 1, 0
  {
    if i == |s| then s
    else if s[i].None? then FixedOuter(s, i + 1, root, under)
    else if under(s[i].value, root) then FixedOuter(DeleteArrayElementAtIndex(s, i), i, root, under)
    else FixedInner(s, i, 0, root, under)
  }

  function FixedInner(s: seq<Slot>, i: int, j: int, root: Node, under: Under): (r: seq<Slot>)
    requires 0 <= i < |s| && 0 <= j <= |s| && s[i].Some?
    ensures |r| < |s| || r == s
    decreases |s| - i, 0, |s| - j
  {
    if j == |s| then FixedOuter(s, i + 1, root, under)
    else if j == i || s[j].None? || !under(s[i].value, s[j].value) then FixedInner(s, i, j + 1, root, under)
    else FixedOuter(DeleteArrayElementAtIndex(s, i), i, root, under)
  }

  /** The corrected pass, from index 0. */
  function FixedParents(s: seq<Slot>, root: Node, under: Under): (r: seq<Slot>)
    ensures |r| < |s| || r == s
  {
    FixedOuter(s, 0, root, under)
  }
}
