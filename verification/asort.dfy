/**
 ccan's asort (ccan/ccan/asort/asort.c): median-of-three quicksort on an explicit stack,
 finished by an insertion sort.  None of the three inner scans checks a bound.
 */
module Asort {
  import opened BitShift

  /** Partitions of at most this distance between their ends are left to the insertion sort. */
  const MaxThresh: nat := 4

  /** A part of the array that is still to be partitioned, both ends included. */
  datatype StackNode = StackNode(lo: nat, hi: nat)

  // ---- comparators ----

  /** Names three elements whose comparisons are to be chained. */
  ghost predicate Linked<T>(x: T, y: T, z: T) { true }

  /** What a comparator owes its caller: a total preorder. */
  ghost predicate TotalPreorder<T(!new)>(cmp: (T, T) -> int) {
    && (forall x, y :: cmp(x, y) < 0 <==> cmp(y, x) > 0)
    && (forall x, y, z {:trigger Linked(x, y, z)} ::
          Linked(x, y, z) && cmp(x, y) <= 0 && cmp(y, z) <= 0 ==> cmp(x, z) <= 0)
  }

  /** What the code relies on.  It only ever asks whether a result is negative, so x may stand
      before y unless cmp(y, x) is negative; that must be total and transitive. */
  ghost predicate Sortable<T(!new)>(cmp: (T, T) -> int) {
    && (forall x, y :: cmp(x, y) < 0 ==> cmp(y, x) >= 0)
    && (forall x, y, z {:trigger Linked(x, y, z)} ::
          Linked(x, y, z) && cmp(y, x) >= 0 && cmp(z, y) >= 0 ==> cmp(z, x) >= 0)
  }

  lemma PreorderSortable<T(!new)>(cmp: (T, T) -> int)
    requires TotalPreorder(cmp)
    ensures Sortable(cmp)
  {
    forall x, y, z | Linked(x, y, z) && cmp(y, x) >= 0 && cmp(z, y) >= 0 ensures cmp(z, x) >= 0 {
      assert cmp(x, y) <= 0 && cmp(y, z) <= 0;
    }
  }

  /** No comparison ever comes out negative. */
  ghost predicate NeverLess<T(!new)>(cmp: (T, T) -> int) {
    forall x, y :: cmp(x, y) >= 0
  }

  lemma Transitive<T(!new)>(cmp: (T, T) -> int, x: T, y: T, z: T)
    requires Sortable(cmp) && cmp(y, x) >= 0 && cmp(z, y) >= 0
    ensures cmp(z, x) >= 0
  {
    assert Linked(x, y, z);
  }

  /** Sorted between lo (included) and hi (excluded). */
  ghost predicate SortedPart<T>(s: seq<T>, cmp: (T, T) -> int, lo: nat, hi: nat)
    requires hi <= |s|
  {
    forall i: nat, j: nat :: lo <= i < j < hi ==> cmp(s[j], s[i]) >= 0
  }

  ghost predicate Sorted<T>(s: seq<T>, cmp: (T, T) -> int) {
    SortedPart(s, cmp, 0, |s|)
  }

  /** Sorted, up to neighbours within the threshold. */
  ghost predicate NearlySorted<T>(s: seq<T>, cmp: (T, T) -> int) {
    forall i: nat, j: nat :: i + MaxThresh < j < |s| ==> cmp(s[j], s[i]) >= 0
  }

  // ---- rearranging a part of the array ----

  /** t is s with the elements from lo to hi in some other order. */
  ghost predicate Shuffled<T>(s: seq<T>, t: seq<T>, lo: nat, hi: nat) {
    && lo <= hi < |s| == |t|
    && s[..lo] == t[..lo]
    && s[hi + 1..] == t[hi + 1..]
    && multiset(s[lo..hi + 1]) == multiset(t[lo..hi + 1])
  }

  lemma ShuffledWhole<T>(s: seq<T>, t: seq<T>, lo: nat, hi: nat)
    requires Shuffled(s, t, lo, hi)
    ensures multiset(s) == multiset(t)
  {
    assert s == s[..lo] + s[lo..hi + 1] + s[hi + 1..];
    assert t == t[..lo] + t[lo..hi + 1] + t[hi + 1..];
  }

  lemma ShuffledTransitive<T>(s: seq<T>, t: seq<T>, u: seq<T>, lo: nat, hi: nat)
    requires Shuffled(s, t, lo, hi) && Shuffled(t, u, lo, hi)
    ensures Shuffled(s, u, lo, hi)
  {
  }

  /** Every element of the part comes from the part. */
  lemma ShuffledFrom<T>(s: seq<T>, t: seq<T>, lo: nat, hi: nat, i: nat) returns (k: nat)
    requires Shuffled(s, t, lo, hi) && lo <= i <= hi
    ensures lo <= k <= hi && t[i] == s[k]
  {
    assert t[i] == t[lo..hi + 1][i - lo];
    assert t[i] in multiset(t[lo..hi + 1]);
    assert t[i] in multiset(s[lo..hi + 1]);
    assert t[i] in s[lo..hi + 1];
    var d: nat :| d < |s[lo..hi + 1]| && s[lo..hi + 1][d] == t[i];
    k := lo + d;
  }

  function Swapped<T>(s: seq<T>, i: nat, j: nat): (t: seq<T>)
    requires i < |s| && j < |s|
    ensures |t| == |s|
  {
    s[i := s[j]][j := s[i]]
  }

  lemma SwappedShuffled<T>(s: seq<T>, i: nat, j: nat, lo: nat, hi: nat)
    requires lo <= i <= hi < |s| && lo <= j <= hi
    ensures Shuffled(s, Swapped(s, i, j), lo, hi)
  {
    var part := s[lo..hi + 1];
    assert Swapped(s, i, j)[lo..hi + 1] == part[i - lo := part[j - lo]][j - lo := part[i - lo]];
  }

  method Swap<T>(a: array<T>, i: nat, j: nat, ghost lo: nat, ghost hi: nat)
    requires lo <= i <= hi < a.Length && lo <= j <= hi
    modifies a
    ensures a[..] == Swapped(old(a[..]), i, j)
    ensures Shuffled(old(a[..]), a[..], lo, hi)
  {
    ghost var s := a[..];
    a[i], a[j] := a[j], a[i];
    SwappedShuffled(s, i, j, lo, hi);
    assert a[..] == Swapped(s, i, j);
  }

  // ---- one partition ----

  /** Elements up to left do not exceed p, elements after right are not below p. */
  ghost predicate SplitBy<T>(s: seq<T>, cmp: (T, T) -> int, lo: nat, hi: nat, left: nat, right: nat, p: T)
    requires hi < |s|
  {
    && (forall i: nat :: lo <= i < left && i <= hi ==> cmp(p, s[i]) >= 0)
    && (forall i: nat :: right < i <= hi && lo <= i ==> cmp(s[i], p) >= 0)
  }

  /** asort.c:128-138. */
  method MedianOfThree<T(!new)>(a: array<T>, cmp: (T, T) -> int, lo: nat, mid: nat, hi: nat)
    requires Sortable(cmp) && lo < mid < hi < a.Length
    modifies a
    ensures Shuffled(old(a[..]), a[..], lo, hi)
    ensures cmp(a[mid], a[lo]) >= 0 && cmp(a[hi], a[mid]) >= 0
    ensures NeverLess(cmp) ==> a[..] == old(a[..])
  {
    OrderTwo(a, cmp, lo, mid, lo, hi);
    ghost var t := a[..];
    if cmp(a[hi], a[mid]) < 0 {
      Swap(a, mid, hi, lo, hi);
      ghost var u := a[..];
      ShuffledTransitive(old(a[..]), t, u, lo, hi);
      OrderTwo(a, cmp, lo, mid, lo, hi);
      ShuffledTransitive(old(a[..]), u, a[..], lo, hi);
    }
  }

  /** Exchange two elements if the second is less. */
  method OrderTwo<T(!new)>(a: array<T>, cmp: (T, T) -> int, i: nat, j: nat, ghost lo: nat, ghost hi: nat)
    requires Sortable(cmp) && lo <= i < j <= hi < a.Length
    modifies a
    ensures Shuffled(old(a[..]), a[..], lo, hi)
    ensures a[..] == if cmp(old(a[j]), old(a[i])) < 0 then Swapped(old(a[..]), i, j) else old(a[..])
    ensures cmp(a[j], a[i]) >= 0
  {
    if cmp(a[j], a[i]) < 0 {
      Swap(a, i, j, lo, hi);
    }
  }

  /** asort.c:148-149: nothing bounds the scan but the elements already known not to be below p. */
  method ScanUp<T(!new)>(a: array<T>, cmp: (T, T) -> int, lo: nat, hi: nat, from: nat, mid: nat, ghost right: nat)
      returns (left: nat)
    requires Sortable(cmp) && lo <= from <= hi < a.Length && mid < a.Length && lo <= right < hi
    requires SplitBy(a[..], cmp, lo, hi, from, right, a[mid])
    ensures from <= left <= hi && cmp(a[left], a[mid]) >= 0
    ensures SplitBy(a[..], cmp, lo, hi, left, right, a[mid])
    ensures NeverLess(cmp) ==> left == from
  {
    left := from;
    while cmp(a[left], a[mid]) < 0
      invariant from <= left <= hi
      invariant NeverLess(cmp) ==> left == from
      invariant forall i: nat :: lo <= i < left ==> cmp(a[mid], a[i]) >= 0
      decreases hi - left
    {
      assert left < hi;
      left := left + 1;
    }
  }

  /** asort.c:151-152, the same from the other side. */
  method ScanDown<T(!new)>(a: array<T>, cmp: (T, T) -> int, lo: nat, hi: nat, from: nat, mid: nat, ghost left: nat)
      returns (right: nat)
    requires Sortable(cmp) && lo <= from <= hi < a.Length && mid < a.Length && lo < left <= hi
    requires SplitBy(a[..], cmp, lo, hi, left, from, a[mid])
    ensures lo <= right <= from && cmp(a[mid], a[right]) >= 0
    ensures SplitBy(a[..], cmp, lo, hi, left, right, a[mid])
    ensures NeverLess(cmp) ==> right == from
  {
    right := from;
    while cmp(a[mid], a[right]) < 0
      invariant lo <= right <= from
      invariant NeverLess(cmp) ==> right == from
      invariant forall i: nat :: right < i <= hi ==> cmp(a[i], a[mid]) >= 0
      decreases right
    {
      assert lo < right;
      right := right - 1;
    }
  }

  lemma SwappedSplit<T(!new)>(s: seq<T>, cmp: (T, T) -> int, lo: nat, hi: nat, left: nat, right: nat, p: T)
    requires lo <= left < right <= hi < |s|
    requires SplitBy(s, cmp, lo, hi, left, right, p)
    requires cmp(s[left], p) >= 0 && cmp(p, s[right]) >= 0
    ensures SplitBy(Swapped(s, left, right), cmp, lo, hi, left + 1, right - 1, p)
  {
  }

  /** asort.c:154-163: exchange two elements on the wrong sides; the pivot may be one of them. */
  method Exchange<T(!new)>(a: array<T>, cmp: (T, T) -> int, lo: nat, hi: nat, left: nat, right: nat, mid: nat)
      returns (mid': nat)
    requires lo <= left < right <= hi < a.Length && lo <= mid <= hi
    requires SplitBy(a[..], cmp, lo, hi, left, right, a[mid])
    requires cmp(a[left], a[mid]) >= 0 && cmp(a[mid], a[right]) >= 0
    modifies a
    ensures Shuffled(old(a[..]), a[..], lo, hi)
    ensures lo <= mid' <= hi && a[mid'] == old(a[mid])
    ensures SplitBy(a[..], cmp, lo, hi, left + 1, right - 1, a[mid'])
    ensures a[..] == Swapped(old(a[..]), left, right)
  {
    SwappedSplit(a[..], cmp, lo, hi, left, right, a[mid]);
    Swap(a, left, right, lo, hi);
    mid' := if mid == left then right else if mid == right then left else mid;
  }

  /** One turn of the loop, asort.c:148-169. */
  method CollapseOnce<T(!new)>(a: array<T>, cmp: (T, T) -> int, lo: nat, hi: nat, left0: nat, right0: nat, mid0: nat)
      returns (left: nat, right: nat, mid: nat)
    requires Sortable(cmp) && lo < left0 <= right0 < hi < a.Length && lo <= mid0 <= hi
    requires SplitBy(a[..], cmp, lo, hi, left0, right0, a[mid0])
    modifies a
    ensures Shuffled(old(a[..]), a[..], lo, hi)
    ensures lo < left <= hi && lo <= right < hi && right - left < right0 - left0
    ensures lo <= mid <= hi && a[mid] == old(a[mid0])
    ensures SplitBy(a[..], cmp, lo, hi, left, right, a[mid])
    ensures NeverLess(cmp) ==> left == left0 + 1 && right == right0 - 1 && a[..] == Swapped(old(a[..]), left0, right0)
  {
    mid := mid0;
    left := ScanUp(a, cmp, lo, hi, left0, mid, right0);
    right := ScanDown(a, cmp, lo, hi, right0, mid, left);
    if left < right {
      mid := Exchange(a, cmp, lo, hi, left, right, mid);
      left, right := left + 1, right - 1;
    } else if left == right {
      // the source also breaks here; the guard of the loop fails anyway
      assert a[..] == Swapped(a[..], left, right);
      left, right := left + 1, right - 1;
    }
  }

  /** The element at k once what is between lo and hi, but outside left and right, is in reverse. */
  ghost function PartMirrorAt<T>(s: seq<T>, lo: nat, hi: nat, left: nat, right: int, k: nat): (x: T)
    requires k < |s| && hi < |s|
  {
    if lo < k < hi && (k < left || right < k) then s[lo + hi - k] else s[k]
  }

  ghost predicate PartMirrored<T>(s: seq<T>, t: seq<T>, lo: nat, hi: nat, left: nat, right: int) {
    && hi < |s| == |t|
    && forall k: nat :: k < |s| ==> t[k] == PartMirrorAt(s, lo, hi, left, right, k)
  }

  ghost function MirrorAt<T>(s: seq<T>, lo: nat, hi: nat, k: nat): (x: T)
    requires k < |s| && hi < |s|
  {
    if lo < k < hi then s[lo + hi - k] else s[k]
  }

  /** The elements between the ends lo and hi in reverse. */
  ghost predicate Mirrored<T>(s: seq<T>, t: seq<T>, lo: nat, hi: nat) {
    && hi < |s| == |t|
    && forall k: nat :: k < |s| ==> t[k] == MirrorAt(s, lo, hi, k)
  }

  lemma MirrorStep<T>(s: seq<T>, t: seq<T>, lo: nat, hi: nat, left: nat, right: nat)
    requires lo < left <= right < hi && left + right == lo + hi && PartMirrored(s, t, lo, hi, left, right)
    ensures PartMirrored(s, Swapped(t, left, right), lo, hi, left + 1, right - 1)
  {
  }

  /** The state of the loop below: t comes from s, and left and right are closing in. */
  ghost predicate Walls<T(!new)>(s: seq<T>, t: seq<T>, cmp: (T, T) -> int, lo: nat, hi: nat, left: nat, right: nat, mid: nat) {
    && lo < left <= hi && lo <= right < hi && lo <= mid <= hi
    && Shuffled(s, t, lo, hi)
    && SplitBy(t, cmp, lo, hi, left, right, t[mid])
    && (NeverLess(cmp) ==> left + right == lo + hi && left - right <= 2 && PartMirrored(s, t, lo, hi, left, right))
  }

  lemma WallsMeet<T(!new)>(s: seq<T>, t: seq<T>, cmp: (T, T) -> int, lo: nat, hi: nat, left: nat, right: nat, mid: nat)
    requires Walls(s, t, cmp, lo, hi, left, right, mid) && right < left
    ensures Shuffled(s, t, lo, hi) && SplitBy(t, cmp, lo, hi, left, right, t[mid])
    ensures NeverLess(cmp) ==> Mirrored(s, t, lo, hi) && left == (lo + hi) / 2 + 1 && right == (lo + hi - 1) / 2
  {
    if NeverLess(cmp) {
      MirrorEnd(s, t, lo, hi, left, right);
    }
  }

  lemma MirrorEnd<T>(s: seq<T>, t: seq<T>, lo: nat, hi: nat, left: nat, right: nat)
    requires right < left && PartMirrored(s, t, lo, hi, left, right)
    ensures Mirrored(s, t, lo, hi)
  {
    forall k: nat | k < |s| ensures t[k] == MirrorAt(s, lo, hi, k) {
      assert t[k] == PartMirrorAt(s, lo, hi, left, right, k);
    }
  }

  method CloseIn<T(!new)>(a: array<T>, cmp: (T, T) -> int, lo: nat, hi: nat, left0: nat, right0: nat, mid0: nat, ghost s: seq<T>)
      returns (left: nat, right: nat, mid: nat)
    requires Sortable(cmp) && left0 <= right0 && hi < a.Length && Walls(s, a[..], cmp, lo, hi, left0, right0, mid0)
    modifies a
    ensures Walls(s, a[..], cmp, lo, hi, left, right, mid)
    ensures a[mid] == old(a[mid0]) && right - left < right0 - left0
  {
    ghost var t := a[..];
    left, right, mid := CollapseOnce(a, cmp, lo, hi, left0, right0, mid0);
    ShuffledTransitive(s, t, a[..], lo, hi);
    if NeverLess(cmp) {
      MirrorStep(s, t, lo, hi, left0, right0);
    }
  }

  /** The "collapse the walls" loop, asort.c:140-171. */
  method Collapse<T(!new)>(a: array<T>, cmp: (T, T) -> int, lo: nat, mid0: nat, hi: nat) returns (left: nat, right: nat)
    requires Sortable(cmp) && lo + 1 < hi < a.Length && lo < mid0 < hi
    requires cmp(a[mid0], a[lo]) >= 0 && cmp(a[hi], a[mid0]) >= 0
    modifies a
    ensures Shuffled(old(a[..]), a[..], lo, hi)
    ensures lo <= right < left <= hi
    ensures SplitBy(a[..], cmp, lo, hi, left, right, old(a[mid0]))
    ensures NeverLess(cmp) ==> Mirrored(old(a[..]), a[..], lo, hi) && left == (lo + hi) / 2 + 1 && right == (lo + hi - 1) / 2
  {
    var mid := mid0;
    left, right := lo + 1, hi - 1;
    while left <= right
      invariant Walls(old(a[..]), a[..], cmp, lo, hi, left, right, mid) && a[mid] == old(a[mid0])
      decreases right - left
    {
      left, right, mid := CloseIn(a, cmp, lo, hi, left, right, mid, old(a[..]));
    }
    WallsMeet(old(a[..]), a[..], cmp, lo, hi, left, right, mid);
  }

  /** One turn of the outer loop up to asort.c:171. */
  method Partition<T(!new)>(a: array<T>, cmp: (T, T) -> int, lo: nat, hi: nat) returns (left: nat, right: nat, ghost p: T)
    requires Sortable(cmp) && lo + 2 <= hi < a.Length
    modifies a
    ensures Shuffled(old(a[..]), a[..], lo, hi)
    ensures lo <= right < left <= hi
    ensures SplitBy(a[..], cmp, lo, hi, left, right, p)
    ensures NeverLess(cmp) ==> Mirrored(old(a[..]), a[..], lo, hi) && left == (lo + hi) / 2 + 1 && right == (lo + hi - 1) / 2
  {
    var mid := lo + (hi - lo) / 2;
    MedianOfThree(a, cmp, lo, mid, hi);
    p := a[mid];
    ghost var t := a[..];
    left, right := Collapse(a, cmp, lo, mid, hi);
    ShuffledTransitive(old(a[..]), t, a[..], lo, hi);
  }

  // ---- what the quicksort has settled so far ----

  /** Nothing before c exceeds anything from c on. */
  ghost predicate Cut<T>(s: seq<T>, cmp: (T, T) -> int, c: nat) {
    forall i: nat, j: nat :: i < c <= j < |s| ==> cmp(s[j], s[i]) >= 0
  }

  ghost predicate AllCut<T>(s: seq<T>, cmp: (T, T) -> int, cuts: set<nat>) {
    forall c :: c in cuts ==> Cut(s, cmp, c)
  }

  ghost predicate Apart(g: StackNode, h: StackNode) {
    g.hi < h.lo || h.hi < g.lo
  }

  /** The part lies between two cuts, and no cut is inside it. */
  ghost predicate Enclosed(cuts: set<nat>, g: StackNode) {
    && g.lo <= g.hi && g.lo in cuts && g.hi + 1 in cuts
    && forall c :: c in cuts ==> c <= g.lo || g.hi < c
  }

  ghost predicate Together(parts: seq<StackNode>, i: nat, j: nat) {
    exists g :: g in parts && g.lo <= i <= g.hi && g.lo <= j <= g.hi
  }

  ghost predicate Separated(cuts: set<nat>, i: nat, j: nat) {
    exists c :: c in cuts && i < c <= j
  }

  ghost predicate PairwiseApart(parts: seq<StackNode>) {
    forall j: nat, k: nat :: j < k < |parts| ==> Apart(parts[j], parts[k])
  }

  /** Two positions further apart than the threshold are cut off from each other, or still waiting together. */
  ghost predicate Outlined(n: nat, parts: seq<StackNode>, cuts: set<nat>) {
    && (forall g :: g in parts ==> g.hi < n && Enclosed(cuts, g))
    && PairwiseApart(parts)
    && (forall i: nat, j: nat :: i + MaxThresh < j < n ==> Together(parts, i, j) || Separated(cuts, i, j))
  }

  /** With nothing waiting, the array is sorted up to neighbours. */
  lemma NothingWaiting<T>(s: seq<T>, cmp: (T, T) -> int, cuts: set<nat>)
    requires Outlined(|s|, [], cuts) && AllCut(s, cmp, cuts)
    ensures NearlySorted(s, cmp)
  {
    forall i: nat, j: nat | i + MaxThresh < j < |s| ensures cmp(s[j], s[i]) >= 0 {
      assert !Together([], i, j);
      var c: nat :| c in cuts && i < c <= j;
      assert Cut(s, cmp, c);
    }
  }

  /** Every position between the two new parts is a cut. */
  ghost function NewCuts(left: nat, right: nat): (cs: set<nat>)
    ensures forall c: nat :: c in cs <==> right < c <= left
  {
    if left <= right then {} else NewCuts(left - 1, right) + {left}
  }

  /** Rearranging an enclosed part keeps a cut. */
  lemma CutKept<T(!new)>(s: seq<T>, t: seq<T>, cmp: (T, T) -> int, lo: nat, hi: nat, c: nat)
    requires Shuffled(s, t, lo, hi) && Cut(s, cmp, c) && (c <= lo || hi < c)
    ensures Cut(t, cmp, c)
  {
    forall i: nat, j: nat | i < c <= j < |t| ensures cmp(t[j], t[i]) >= 0 {
      var i', j' := i, j;
      if lo <= i <= hi {
        i' := ShuffledFrom(s, t, lo, hi, i);
      } else {
        assert s[..lo] == t[..lo] && s[hi + 1..] == t[hi + 1..];
        assert i < lo ==> t[..lo][i] == s[..lo][i];
        assert hi < i ==> t[hi + 1..][i - hi - 1] == s[hi + 1..][i - hi - 1];
      }
      if lo <= j <= hi {
        j' := ShuffledFrom(s, t, lo, hi, j);
      } else {
        assert j < lo ==> t[..lo][j] == s[..lo][j];
        assert hi < j ==> t[hi + 1..][j - hi - 1] == s[hi + 1..][j - hi - 1];
      }
      assert i' < c <= j';
    }
  }

  lemma CutMade<T(!new)>(t: seq<T>, cmp: (T, T) -> int, lo: nat, hi: nat, left: nat, right: nat, p: T, c: nat)
    requires Sortable(cmp) && hi < |t| && Cut(t, cmp, lo) && Cut(t, cmp, hi + 1)
    requires SplitBy(t, cmp, lo, hi, left, right, p) && lo <= right < c <= left <= hi
    ensures Cut(t, cmp, c)
  {
    forall i: nat, j: nat | i < c <= j < |t| ensures cmp(t[j], t[i]) >= 0 {
      if lo <= i && j <= hi {
        Transitive(cmp, t[i], p, t[j]);
      }
    }
  }

  lemma CutsKept<T(!new)>(s: seq<T>, t: seq<T>, cmp: (T, T) -> int, g: StackNode, left: nat, right: nat, p: T, cuts: set<nat>)
    requires Sortable(cmp) && Shuffled(s, t, g.lo, g.hi)
    requires AllCut(s, cmp, cuts) && Enclosed(cuts, g)
    requires g.lo <= right < left <= g.hi && SplitBy(t, cmp, g.lo, g.hi, left, right, p)
    ensures AllCut(t, cmp, cuts + NewCuts(left, right))
  {
    forall c | c in cuts ensures Cut(t, cmp, c) {
      CutKept(s, t, cmp, g.lo, g.hi, c);
    }
    forall c | c in NewCuts(left, right) ensures Cut(t, cmp, c) {
      CutMade(t, cmp, g.lo, g.hi, left, right, p, c);
    }
  }

  // ---- the stack of waiting parts ----

  /** asort.c:178-201: drop the small parts, and of two large ones take the smaller first. */
  function Next(rest: seq<StackNode>, lo: nat, hi: nat, left: nat, right: nat): (parts: seq<StackNode>)
    requires lo <= right < left <= hi
  {
    var l, r := StackNode(lo, right), StackNode(left, hi);
    if right - lo <= MaxThresh then
      if hi - left <= MaxThresh then rest else rest + [r]
    else if hi - left <= MaxThresh then rest + [l]
    else if right - lo > hi - left then rest + [l, r]
    else rest + [r, l]
  }

  lemma NextApart(rest: seq<StackNode>, lo: nat, hi: nat, left: nat, right: nat)
    requires lo <= right < left <= hi && PairwiseApart(rest + [StackNode(lo, hi)])
    ensures PairwiseApart(Next(rest, lo, hi, left, right))
  {
    var was, parts := rest + [StackNode(lo, hi)], Next(rest, lo, hi, left, right);
    forall j: nat, k: nat | j < k < |parts| ensures Apart(parts[j], parts[k]) {
      if k < |rest| {
        assert Apart(was[j], was[k]);
      } else if j < |rest| {
        assert Apart(was[j], was[|rest|]);
      }
    }
  }

  lemma NextEnclosed(n: nat, rest: seq<StackNode>, lo: nat, hi: nat, left: nat, right: nat, cuts: set<nat>, k: nat)
    requires lo <= right < left <= hi && Outlined(n, rest + [StackNode(lo, hi)], cuts)
    requires k < |Next(rest, lo, hi, left, right)|
    ensures Next(rest, lo, hi, left, right)[k].hi < n
    ensures Enclosed(cuts + NewCuts(left, right), Next(rest, lo, hi, left, right)[k])
  {
    var was, g := rest + [StackNode(lo, hi)], Next(rest, lo, hi, left, right)[k];
    assert was[|rest|] in was;
    if k < |rest| {
      assert g == was[k] && was[k] in was;
      assert Apart(was[k], was[|rest|]);
    } else {
      assert g == StackNode(lo, right) || g == StackNode(left, hi);
    }
  }

  lemma NextOutlined(n: nat, rest: seq<StackNode>, lo: nat, hi: nat, left: nat, right: nat, cuts: set<nat>)
    requires lo <= right < left <= hi && Outlined(n, rest + [StackNode(lo, hi)], cuts)
    ensures Outlined(n, Next(rest, lo, hi, left, right), cuts + NewCuts(left, right))
  {
    var was, parts := rest + [StackNode(lo, hi)], Next(rest, lo, hi, left, right);
    var cuts' := cuts + NewCuts(left, right);
    NextApart(rest, lo, hi, left, right);
    forall g | g in parts ensures g.hi < n && Enclosed(cuts', g) {
      var k: nat :| k < |parts| && parts[k] == g;
      NextEnclosed(n, rest, lo, hi, left, right, cuts, k);
    }
    forall i: nat, j: nat | i + MaxThresh < j < n ensures Together(parts, i, j) || Separated(cuts', i, j) {
      NextCovers(n, rest, lo, hi, left, right, cuts, i, j);
    }
  }

  lemma NextCovers(n: nat, rest: seq<StackNode>, lo: nat, hi: nat, left: nat, right: nat, cuts: set<nat>, i: nat, j: nat)
    requires lo <= right < left <= hi && Outlined(n, rest + [StackNode(lo, hi)], cuts)
    requires i + MaxThresh < j < n
    ensures Together(Next(rest, lo, hi, left, right), i, j) || Separated(cuts + NewCuts(left, right), i, j)
  {
    var was, parts := rest + [StackNode(lo, hi)], Next(rest, lo, hi, left, right);
    var cuts' := cuts + NewCuts(left, right);
    if Separated(cuts, i, j) {
      var c :| c in cuts && i < c <= j;
      assert c in cuts';
    } else {
      var g :| g in was && g.lo <= i <= g.hi && g.lo <= j <= g.hi;
      if g in rest {
        assert g in parts;
      } else if j <= right {
        assert StackNode(lo, right) in parts;
      } else if left <= i {
        assert StackNode(left, hi) in parts;
      } else {
        var c := if i <= right then right + 1 else if j <= left then j else left;
        assert c in cuts';
      }
    }
  }

  // ---- how deep the stack gets ----

  function Size(g: StackNode): (r: int) { g.hi - g.lo + 1 }

  /** A part at height k has at most n / 2^k elements. */
  ghost predicate Halving(parts: seq<StackNode>, n: nat) {
    forall k: nat :: k < |parts| ==> Size(parts[k]) * Pow2(k) <= n
  }

  ghost predicate AllLarge(parts: seq<StackNode>) {
    forall k: nat :: k < |parts| ==> parts[k].lo + MaxThresh <= parts[k].hi
  }

  lemma Pow2Order(j: nat, k: nat)
    requires Pow2(j) < Pow2(k)
    ensures j < k
  {
    if k <= j {
      Pow2Monotone(k, j);
    }
  }

  lemma {:induction false} Pow2Monotone(k: nat, j: nat)
    requires k <= j
    ensures Pow2(k) <= Pow2(j)
  {
    if k < j {
      Pow2Monotone(k, j - 1);
    }
  }

  lemma TimesMonotone(x: int, y: int, m: nat)
    requires x <= y
    ensures x * m <= y * m
  {
  }

  lemma NextHalving(rest: seq<StackNode>, lo: nat, hi: nat, left: nat, right: nat, n: nat)
    requires lo <= right < left <= hi
    requires Halving(rest + [StackNode(lo, hi)], n) && AllLarge(rest + [StackNode(lo, hi)])
    ensures Halving(Next(rest, lo, hi, left, right), n) && AllLarge(Next(rest, lo, hi, left, right))
  {
    var was, parts := rest + [StackNode(lo, hi)], Next(rest, lo, hi, left, right);
    var d := |rest|;
    assert Size(was[d]) * Pow2(d) <= n;
    forall k: nat | k < |parts| ensures Size(parts[k]) * Pow2(k) <= n && parts[k].lo + MaxThresh <= parts[k].hi {
      if k < d {
        assert parts[k] == was[k];
      } else if k == d {
        TimesMonotone(Size(parts[k]), Size(was[d]), Pow2(d));
      } else {
        TimesMonotone(2 * Size(parts[k]), Size(was[d]), Pow2(d));
        assert Pow2(k) == 2 * Pow2(d);
      }
    }
  }

  /** Pushing on a stack of `bits` entries when `top` are in use. */
  lemma PushFits(parts: seq<StackNode>, n: nat, bits: nat)
    requires parts != [] && Halving(parts, n) && n < Pow2(bits)
    requires Size(parts[|parts| - 1]) >= 8
    ensures |parts| + 2 < bits
  {
    var d := |parts| - 1;
    TimesMonotone(8, Size(parts[d]), Pow2(d));
    assert Pow2(d + 3) == 2 * Pow2(d + 2) == 4 * Pow2(d + 1) == 8 * Pow2(d);
    Pow2Order(d + 3, bits);
  }

  /** The total distance left to partition, which each turn makes smaller. */
  ghost function Width(parts: seq<StackNode>): (r: int) {
    if parts == [] then 0
    else Width(parts[..|parts| - 1]) + parts[|parts| - 1].hi - parts[|parts| - 1].lo
  }

  lemma WidthAppend(parts: seq<StackNode>, g: StackNode)
    ensures Width(parts + [g]) == Width(parts) + g.hi - g.lo
  {
    assert (parts + [g])[..|parts|] == parts;
  }

  lemma {:induction false} WidthPositive(parts: seq<StackNode>)
    requires AllLarge(parts)
    ensures Width(parts) >= 0
  {
    if parts != [] {
      WidthPositive(parts[..|parts| - 1]);
    }
  }

  lemma NextNarrower(rest: seq<StackNode>, lo: nat, hi: nat, left: nat, right: nat)
    requires lo <= right < left <= hi
    ensures Width(Next(rest, lo, hi, left, right)) < Width(rest + [StackNode(lo, hi)])
  {
    var l, r := StackNode(lo, right), StackNode(left, hi);
    WidthAppend(rest, StackNode(lo, hi));
    WidthAppend(rest, l);
    WidthAppend(rest, r);
    WidthAppend(rest + [l], r);
    WidthAppend(rest + [r], l);
    assert rest + [l, r] == rest + [l] + [r] && rest + [r, l] == rest + [r] + [l];
  }

  // ---- the quicksort phase ----

  /** The stack holds a sentinel and all the waiting parts but the last, which is the current one. */
  ghost predicate Stacked(stack: seq<StackNode>, top: nat, lo: nat, hi: nat, parts: seq<StackNode>) {
    && top == |parts| <= |stack|
    && (top > 0 ==> stack[1..top] + [StackNode(lo, hi)] == parts)
  }

  /** asort.c:178-201.  There is room for every push. */
  method Advance(stack: array<StackNode>, top: nat, lo: nat, hi: nat, left: nat, right: nat,
                 ghost parts: seq<StackNode>, ghost n: nat)
      returns (top': nat, lo': nat, hi': nat)
    requires Stacked(stack[..], top, lo, hi, parts) && top > 0
    requires lo <= right < left <= hi
    requires Halving(parts, n) && n < Pow2(stack.Length)
    modifies stack
    ensures Stacked(stack[..], top', lo', hi', Next(parts[..top - 1], lo, hi, left, right))
  {
    ghost var rest := stack[1..top];
    assert rest == parts[..top - 1] && parts[top - 1] == StackNode(lo, hi);
    if right - lo <= MaxThresh {
      if hi - left <= MaxThresh {
        top' := top - 1;
        lo', hi' := stack[top'].lo, stack[top'].hi;
        assert top' > 0 ==> stack[1..top'] + [stack[top']] == rest;
      } else {
        top', lo', hi' := top, left, hi;
      }
    } else if hi - left <= MaxThresh {
      top', lo', hi' := top, lo, right;
    } else {
      PushFits(parts, n, stack.Length);
      if right - lo > hi - left {
        stack[top] := StackNode(lo, right);
        top', lo', hi' := top + 1, left, hi;
      } else {
        stack[top] := StackNode(left, hi);
        top', lo', hi' := top + 1, lo, right;
      }
      assert stack[1..top'] == rest + [stack[top]];
    }
  }

  /** What the quicksort loop keeps. */
  ghost predicate Progress<T(!new)>(s: seq<T>, cmp: (T, T) -> int, parts: seq<StackNode>, cuts: set<nat>) {
    && Outlined(|s|, parts, cuts)
    && AllCut(s, cmp, cuts)
    && Halving(parts, |s|)
    && AllLarge(parts)
  }

  lemma ProgressStarts<T(!new)>(s: seq<T>, cmp: (T, T) -> int)
    requires |s| > MaxThresh
    ensures Progress(s, cmp, [StackNode(0, |s| - 1)], {0, |s|})
  {
    var g := StackNode(0, |s| - 1);
    forall i: nat, j: nat | i + MaxThresh < j < |s| ensures Together([g], i, j) {
      assert g in [g];
    }
  }

  lemma ProgressKept<T(!new)>(s: seq<T>, t: seq<T>, cmp: (T, T) -> int, parts: seq<StackNode>, left: nat, right: nat,
                              p: T, cuts: set<nat>)
    requires Sortable(cmp) && parts != [] && Progress(s, cmp, parts, cuts)
    requires var g := parts[|parts| - 1];
      && Shuffled(s, t, g.lo, g.hi)
      && g.lo <= right < left <= g.hi && SplitBy(t, cmp, g.lo, g.hi, left, right, p)
    ensures var g := parts[|parts| - 1];
      Progress(t, cmp, Next(parts[..|parts| - 1], g.lo, g.hi, left, right), cuts + NewCuts(left, right))
  {
    var rest, g := parts[..|parts| - 1], parts[|parts| - 1];
    assert parts == rest + [StackNode(g.lo, g.hi)] && g in parts;
    CutsKept(s, t, cmp, g, left, right, p, cuts);
    NextOutlined(|s|, rest, g.lo, g.hi, left, right, cuts);
    NextHalving(rest, g.lo, g.hi, left, right, |s|);
  }

  /** Partition the current part: progress is made on the parts then waiting. */
  method Turn<T(!new)>(a: array<T>, cmp: (T, T) -> int, lo: nat, hi: nat, ghost rest: seq<StackNode>, ghost cuts: set<nat>)
      returns (left: nat, right: nat, ghost cuts': set<nat>)
    requires Sortable(cmp) && Progress(a[..], cmp, rest + [StackNode(lo, hi)], cuts)
    modifies a
    ensures multiset(a[..]) == multiset(old(a[..]))
    ensures lo <= right < left <= hi
    ensures Progress(a[..], cmp, Next(rest, lo, hi, left, right), cuts')
    ensures NeverLess(cmp) ==> Mirrored(old(a[..]), a[..], lo, hi) && left == (lo + hi) / 2 + 1 && right == (lo + hi - 1) / 2
  {
    ghost var parts := rest + [StackNode(lo, hi)];
    assert parts[|rest|] == StackNode(lo, hi) && parts[|rest|] in parts && parts[..|rest|] == rest;
    ghost var p;
    left, right, p := Partition(a, cmp, lo, hi);
    ShuffledWhole(old(a[..]), a[..], lo, hi);
    ProgressKept(old(a[..]), a[..], cmp, parts, left, right, p, cuts);
    cuts' := cuts + NewCuts(left, right);
  }

  /** One turn of the outer loop, asort.c:117-202. */
  method Step<T(!new)>(a: array<T>, cmp: (T, T) -> int, stack: array<StackNode>, top: nat, lo: nat, hi: nat,
                       ghost parts: seq<StackNode>, ghost cuts: set<nat>)
      returns (top': nat, lo': nat, hi': nat, ghost parts': seq<StackNode>, ghost cuts': set<nat>)
    requires (a as object) != (stack as object)
    requires Sortable(cmp) && a.Length < Pow2(stack.Length) && top > 0
    requires Stacked(stack[..], top, lo, hi, parts) && Progress(a[..], cmp, parts, cuts)
    modifies a, stack
    ensures multiset(a[..]) == multiset(old(a[..]))
    ensures Stacked(stack[..], top', lo', hi', parts') && Progress(a[..], cmp, parts', cuts')
    ensures 0 <= Width(parts') < Width(parts)
    ensures NeverLess(cmp) ==> Mirrored(old(a[..]), a[..], lo, hi)
    ensures NeverLess(cmp) && hi - lo <= 2 * (MaxThresh + 1) ==> parts' == parts[..top - 1]
  {
    ghost var rest := stack[1..top];
    assert parts[..top - 1] == rest;
    ghost var n := a.Length;
    var left: nat, right: nat;
    left, right, cuts' := Turn(a, cmp, lo, hi, rest, cuts);
    parts' := Next(rest, lo, hi, left, right);
    NextNarrower(rest, lo, hi, left, right);
    WidthPositive(parts');
    top', lo', hi' := Advance(stack, top, lo, hi, left, right, parts, n);
  }

  /** A small enough array that nothing in it compares as less is partitioned once. */
  ghost predicate OnePass<T(!new)>(s: seq<T>, t: seq<T>, cmp: (T, T) -> int, parts: seq<StackNode>, hi: nat) {
    NeverLess(cmp) && hi <= 2 * (MaxThresh + 1) ==>
      if parts == [] then Mirrored(s, t, 0, hi) else parts == [StackNode(0, hi)] && t == s
  }

  method StepOn<T(!new)>(a: array<T>, cmp: (T, T) -> int, stack: array<StackNode>, top: nat, lo: nat, hi: nat,
                         ghost parts: seq<StackNode>, ghost cuts: set<nat>, ghost s: seq<T>, ghost hi0: nat)
      returns (top': nat, lo': nat, hi': nat, ghost parts': seq<StackNode>, ghost cuts': set<nat>)
    requires (a as object) != (stack as object)
    requires Sortable(cmp) && a.Length < Pow2(stack.Length) && top > 0
    requires Stacked(stack[..], top, lo, hi, parts) && Progress(a[..], cmp, parts, cuts)
    requires OnePass(s, a[..], cmp, parts, hi0)
    modifies a, stack
    ensures multiset(a[..]) == multiset(old(a[..]))
    ensures Stacked(stack[..], top', lo', hi', parts') && Progress(a[..], cmp, parts', cuts')
    ensures 0 <= Width(parts') < Width(parts)
    ensures OnePass(s, a[..], cmp, parts', hi0)
  {
    assert parts[top - 1] == StackNode(lo, hi);
    top', lo', hi', parts', cuts' := Step(a, cmp, stack, top, lo, hi, parts, cuts);
  }

  /** The outer loop, asort.c:117-202. */
  method Drain<T(!new)>(a: array<T>, cmp: (T, T) -> int, stack: array<StackNode>, hi0: nat, ghost cuts0: set<nat>)
    requires (a as object) != (stack as object)
    requires Sortable(cmp) && a.Length < Pow2(stack.Length)
    requires stack.Length > 0 && Progress(a[..], cmp, [StackNode(0, hi0)], cuts0)
    modifies a, stack
    ensures multiset(a[..]) == multiset(old(a[..]))
    ensures NearlySorted(a[..], cmp)
    ensures NeverLess(cmp) && hi0 <= 2 * (MaxThresh + 1) ==> Mirrored(old(a[..]), a[..], 0, hi0)
  {
    var lo: nat, hi: nat, top: nat := 0, hi0, 1;
    ghost var parts: seq<StackNode>, cuts := [StackNode(0, hi0)], cuts0;
    assert stack[1..1] + [StackNode(lo, hi)] == parts;
    while top > 0
      invariant Stacked(stack[..], top, lo, hi, parts)
      invariant Progress(a[..], cmp, parts, cuts)
      invariant multiset(a[..]) == multiset(old(a[..]))
      invariant OnePass(old(a[..]), a[..], cmp, parts, hi0)
      decreases Width(parts)
    {
      top, lo, hi, parts, cuts := StepOn(a, cmp, stack, top, lo, hi, parts, cuts, old(a[..]), hi0);
    }
    NothingWaiting(a[..], cmp, cuts);
  }

  /** asort.c:108-203, for any width of size_t that can count the elements: the stack has one entry per bit. */
  method Quicksort<T(!new)>(a: array<T>, cmp: (T, T) -> int, bits: nat)
    requires Sortable(cmp) && MaxThresh < a.Length < Pow2(bits)
    modifies a
    ensures multiset(a[..]) == multiset(old(a[..]))
    ensures NearlySorted(a[..], cmp)
    ensures NeverLess(cmp) && a.Length <= 2 * MaxThresh + 3 ==> Mirrored(old(a[..]), a[..], 0, a.Length - 1)
  {
    assert Pow2(2) == 2 * Pow2(1) == 4;
    Pow2Order(2, bits);
    var stack := new StackNode[bits](_ => StackNode(0, 0));
    ProgressStarts(a[..], cmp);
    Drain(a, cmp, stack, a.Length - 1, {0, a.Length});
  }

  // ---- the insertion sort ----

  /** The sentinel: the first element is the smallest. */
  ghost predicate Guarded<T>(s: seq<T>, cmp: (T, T) -> int) {
    |s| > 0 && forall i: nat :: i < |s| ==> cmp(s[i], s[0]) >= 0
  }

  /** k is the smallest of the first elements. */
  ghost predicate FirstSmallest<T>(s: seq<T>, cmp: (T, T) -> int, k: nat) {
    k < |s| && forall i: nat :: i <= MaxThresh && i < |s| ==> cmp(s[i], s[k]) >= 0
  }

  lemma FirstSmallestGuards<T(!new)>(s: seq<T>, cmp: (T, T) -> int, k: nat)
    requires Sortable(cmp) && NearlySorted(s, cmp) && FirstSmallest(s, cmp, k)
    ensures Guarded(Swapped(s, k, 0), cmp)
  {
    forall i: nat | MaxThresh < i < |s| ensures cmp(s[i], s[k]) >= 0 {
      Transitive(cmp, s[k], s[0], s[i]);
    }
  }

  /** asort.c:214-225. */
  method FindSmallest<T(!new)>(a: array<T>, cmp: (T, T) -> int) returns (tmp: nat)
    requires Sortable(cmp) && a.Length > 0
    ensures FirstSmallest(a[..], cmp, tmp)
    ensures NeverLess(cmp) ==> tmp == 0
  {
    var thresh: nat := if a.Length - 1 < MaxThresh then a.Length - 1 else MaxThresh;
    var run: nat := 1;
    tmp := 0;
    while run <= thresh
      invariant tmp < run <= thresh + 1
      invariant NeverLess(cmp) ==> tmp == 0
      invariant forall i: nat :: i < run ==> cmp(a[i], a[tmp]) >= 0
    {
      if cmp(a[run], a[tmp]) < 0 {
        forall i: nat | i < run ensures cmp(a[i], a[run]) >= 0 {
          Transitive(cmp, a[run], a[tmp], a[i]);
        }
        tmp := run;
      }
      run := run + 1;
    }
  }

  /** asort.c:227-228: the smallest of the first elements is the smallest of all. */
  method PlaceSentinel<T(!new)>(a: array<T>, cmp: (T, T) -> int)
    requires Sortable(cmp) && a.Length > 0 && NearlySorted(a[..], cmp)
    modifies a
    ensures multiset(a[..]) == multiset(old(a[..]))
    ensures Guarded(a[..], cmp)
    ensures NeverLess(cmp) ==> a[..] == old(a[..])
  {
    var tmp := FindSmallest(a, cmp);
    FirstSmallestGuards(a[..], cmp, tmp);
    if tmp != 0 {
      Swap(a, tmp, 0, 0, a.Length - 1);
      ShuffledWhole(old(a[..]), a[..], 0, a.Length - 1);
    } else {
      assert Swapped(a[..], 0, 0) == a[..];
    }
  }

  /** s with the element at run moved down to at. */
  ghost function Rotated<T>(s: seq<T>, at: nat, run: nat): (t: seq<T>)
    requires at <= run < |s|
    ensures |t| == |s|
    ensures forall i: nat :: i < |s| ==> t[i] == if i < at || run < i then s[i] else if i == at then s[run] else s[i - 1]
  {
    s[..at] + [s[run]] + s[at..run] + s[run + 1..]
  }

  lemma RotatedSame<T>(s: seq<T>, at: nat, run: nat)
    requires at <= run < |s|
    ensures multiset(Rotated(s, at, run)) == multiset(s)
  {
    assert s == s[..at] + s[at..run] + [s[run]] + s[run + 1..];
  }

  /** asort.c:240-254. */
  method Rotate<T>(a: array<T>, at: nat, run: nat)
    requires at <= run < a.Length
    modifies a
    ensures a[..] == Rotated(old(a[..]), at, run)
  {
    var c := a[run];
    var hi := run;
    while hi > at
      invariant at <= hi <= run
      invariant forall i: nat :: i < a.Length && (i <= hi || run < i) && i != run ==> a[i] == old(a[i])
      invariant hi == run ==> a[run] == old(a[run])
      invariant forall i: nat :: hi < i <= run ==> a[i] == old(a[i - 1])
    {
      a[hi] := a[hi - 1];
      hi := hi - 1;
    }
    a[hi] := c;
  }

  lemma RotatedSorted<T(!new)>(s: seq<T>, cmp: (T, T) -> int, at: nat, run: nat)
    requires Sortable(cmp) && 0 < at <= run < |s| && SortedPart(s, cmp, 0, run)
    requires cmp(s[run], s[at - 1]) >= 0
    requires forall i: nat :: at <= i < run ==> cmp(s[i], s[run]) >= 0
    ensures SortedPart(Rotated(s, at, run), cmp, 0, run + 1)
  {
    var t := Rotated(s, at, run);
    forall i: nat, j: nat | i < j < run + 1 ensures cmp(t[j], t[i]) >= 0 {
      if j == at && i < at - 1 {
        Transitive(cmp, s[i], s[at - 1], s[run]);
      }
    }
  }

  /** asort.c:235-254: the scan stops at the sentinel at the latest. */
  method Insert<T(!new)>(a: array<T>, cmp: (T, T) -> int, run: nat)
    requires Sortable(cmp) && 0 < run < a.Length
    requires Guarded(a[..], cmp) && SortedPart(a[..], cmp, 0, run)
    modifies a
    ensures multiset(a[..]) == multiset(old(a[..]))
    ensures Guarded(a[..], cmp) && SortedPart(a[..], cmp, 0, run + 1)
    ensures NeverLess(cmp) ==> a[..] == old(a[..])
  {
    var tmp := run - 1;
    while cmp(a[run], a[tmp]) < 0
      invariant 0 <= tmp < run
      invariant NeverLess(cmp) ==> tmp == run - 1
      invariant forall i: nat :: tmp < i < run ==> cmp(a[i], a[run]) >= 0
      decreases tmp
    {
      assert tmp > 0 by { assert cmp(a[run], a[0]) >= 0; }
      tmp := tmp - 1;
    }
    tmp := tmp + 1;
    RotatedSorted(a[..], cmp, tmp, run);
    RotatedSame(a[..], tmp, run);
    if tmp != run {
      Rotate(a, tmp, run);
    } else {
      assert a[..] == Rotated(old(a[..]), tmp, run);
    }
  }

  /** asort.c:213-256. */
  method InsertionSort<T(!new)>(a: array<T>, cmp: (T, T) -> int)
    requires Sortable(cmp) && a.Length > 0 && NearlySorted(a[..], cmp)
    modifies a
    ensures multiset(a[..]) == multiset(old(a[..]))
    ensures Sorted(a[..], cmp)
    ensures NeverLess(cmp) ==> a[..] == old(a[..])
  {
    PlaceSentinel(a, cmp);
    var run: nat := 2;
    while run < a.Length
      invariant 2 <= run && (a.Length >= 2 ==> run <= a.Length)
      invariant multiset(a[..]) == multiset(old(a[..]))
      invariant NeverLess(cmp) ==> a[..] == old(a[..])
      invariant Guarded(a[..], cmp)
      invariant SortedPart(a[..], cmp, 0, if run < a.Length then run else a.Length)
    {
      Insert(a, cmp, run);
      run := run + 1;
    }
  }

  /** _asort, asort.c:95-257.  With a comparator that never says "less", up to MaxThresh elements
      stay where they are, and up to 2 * MaxThresh + 3 have all but the ends reversed. */
  method Asort<T(!new)>(a: array<T>, cmp: (T, T) -> int, bits: nat)
    requires Sortable(cmp) && a.Length < Pow2(bits)
    modifies a
    ensures multiset(a[..]) == multiset(old(a[..]))
    ensures Sorted(a[..], cmp)
    ensures NeverLess(cmp) && a.Length <= MaxThresh ==> a[..] == old(a[..])
    ensures NeverLess(cmp) && MaxThresh < a.Length <= 2 * MaxThresh + 3 ==> Mirrored(old(a[..]), a[..], 0, a.Length - 1)
  {
    if a.Length == 0 {
      return;
    }
    if a.Length > MaxThresh {
      Quicksort(a, cmp, bits);
    }
    InsertionSort(a, cmp);
  }

  /** For a comparator that keeps its side, that is the usual sense of sorted. */
  lemma SortedAscends<T(!new)>(s: seq<T>, cmp: (T, T) -> int)
    requires TotalPreorder(cmp)
    ensures Sortable(cmp)
    ensures Sorted(s, cmp) <==> forall i: nat, j: nat :: i < j < |s| ==> cmp(s[i], s[j]) <= 0
  {
    PreorderSortable(cmp);
  }

  // ---- the one array the node sorts ----

  /** cmp_times, timestamp.c:9-16: both tests are the same one. */
  function CmpTimes(a: nat, b: nat): (r: int) {
    if a > b then 1 else if a > b then -1 else 0
  }

  /** The two sides of every comparison agree, on the elements of s. */
  ghost predicate Antisymmetric(s: seq<nat>, cmp: (nat, nat) -> int) {
    forall i: nat, j: nat :: i < |s| && j < |s| ==> (cmp(s[i], s[j]) < 0 <==> cmp(s[j], s[i]) > 0)
  }

  /** It orders the timestamps it is given exactly if they are all the same. */
  lemma CmpTimesExactly(s: seq<nat>)
    ensures Antisymmetric(s, CmpTimes) <==> forall i: nat, j: nat :: i < |s| && j < |s| ==> s[i] == s[j]
  {
    if Antisymmetric(s, CmpTimes) {
      forall i: nat, j: nat | i < |s| && j < |s| ensures s[i] == s[j] {
        assert CmpTimes(s[i], s[j]) < 0 <==> CmpTimes(s[j], s[i]) > 0;
        assert CmpTimes(s[j], s[i]) < 0 <==> CmpTimes(s[i], s[j]) > 0;
      }
    }
  }

  /** Where the time comes from that ends up in the middle of `n`. */
  function MedianPlace(n: nat): (r: nat)
    requires n > 0
    ensures r < n
  {
    if n <= MaxThresh then n / 2 else n - 1 - n / 2
  }

  /** check_timestamp, timestamp.c:20-38: what it takes for the median of at most eleven times is
      the time at a fixed position, whatever the times are. */
  method MedianTime(times: array<nat>) returns (median: nat)
    requires 0 < times.Length <= 11
    modifies times
    ensures median == old(times[..])[MedianPlace(times.Length)]
  {
    assert Sortable(CmpTimes) && NeverLess(CmpTimes);
    SixteenEnough();
    Pow2Monotone(4, 64);
    Asort(times, CmpTimes, 64);
    median := times[times.Length / 2];
    assert times[..][times.Length / 2] == median;
  }

  lemma SixteenEnough()
    ensures Pow2(4) == 16
  {
    assert Pow2(4) == 2 * Pow2(3) && Pow2(3) == 2 * Pow2(2) && Pow2(2) == 2 * Pow2(1);
  }
}
