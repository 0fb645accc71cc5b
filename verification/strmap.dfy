/**
 The crit-bit string map (strmap.c) on tree values.  Keys are strings of non-zero bytes.
 */
module StrMap {
  import opened Wrappers
  import opened Sequences
  import opened BitShift

  type Key = seq<nat>

  predicate NulFree(k: Key) {
    forall i :: 0 <= i < |k| ==> 0 < k[i] < 256
  }

  /** A leaf holds a string and its value; a node says at which byte and bit its children differ. */
  datatype Tree<V> = Leaf(key: Key, value: V) | Node(byteNum: nat, bitNum: nat, child0: Tree<V>, child1: Tree<V>)

  /** The byte at `i`; the terminating NUL and what follows read as zero. */
  function At(k: Key, i: nat): (b: nat) {
    if i < |k| then k[i] else 0
  }

  /** (bytes[byteNum] >> bitNum) & 1, or 0 past the end. */
  function Direction(k: Key, byteNum: nat, bitNum: nat): (d: nat)
    ensures d < 2
  {
    Shift(At(k, byteNum), bitNum) % 2
  }

  // ---------------------------------------------------------------- bit positions

  /** Position (b, i) is looked at before position (b', i'): bits run from high to low. */
  predicate Before(b: nat, i: nat, b': nat, i': nat) {
    b < b' || (b == b' && i > i')
  }

  /** The two strings agree on everything before position (b, i). */
  ghost predicate Same(k: Key, k': Key, b: nat, i: nat) {
    && (forall j :: 0 <= j < b ==> At(k, j) == At(k', j))
    && Shift(At(k, b), i + 1) == Shift(At(k', b), i + 1)
  }

  lemma {:induction false} ShiftUp(x: nat, y: nat, i: nat, j: nat)
    requires i <= j && Shift(x, i) == Shift(y, i)
    ensures Shift(x, j) == Shift(y, j)
    decreases j - i
  {
    if i < j {
      ShiftUp(x, y, i + 1, j);
    }
  }

  /** Agreement reaches back, and covers the bits on the way. */
  lemma SameEarlier(k: Key, k': Key, b: nat, i: nat, b0: nat, i0: nat)
    requires Same(k, k', b, i) && Before(b0, i0, b, i)
    ensures Same(k, k', b0, i0) && Direction(k, b0, i0) == Direction(k', b0, i0)
  {
    if b0 < b {
      ShiftUp(At(k, b0), At(k', b0), 0, i0);
      ShiftUp(At(k, b0), At(k', b0), 0, i0 + 1);
    } else {
      ShiftUp(At(k, b), At(k', b), i + 1, i0);
      ShiftUp(At(k, b), At(k', b), i + 1, i0 + 1);
    }
  }

  lemma ShiftByte(x: nat)
    requires x < 256
    ensures Shift(x, 8) == 0
  {
    ShiftBound(x, 8, 0);
  }

  lemma SameTransitive(k: Key, k': Key, k'': Key, b: nat, i: nat)
    requires Same(k, k', b, i) && Same(k', k'', b, i)
    ensures Same(k, k'', b, i) && Same(k', k, b, i)
  {
  }

  // ---------------------------------------------------------------- trees

  ghost function Contents<V>(t: Tree<V>): (m: map<Key, V>) {
    match t
    case Leaf(k, v) => map[k := v]
    case Node(_, _, l, r) => Contents(l) + Contents(r)
  }

  /** The leftmost string. */
  function First<V>(t: Tree<V>): (k: Key) {
    match t
    case Leaf(k, _) => k
    case Node(_, _, l, _) => First(l)
  }

  ghost predicate Deeper<V>(t: Tree<V>, b: nat, i: nat) {
    t.Leaf? || Before(b, i, t.byteNum, t.bitNum)
  }

  /** Positions increase downwards; below a node all strings agree up to its position, where
      the left ones have 0 and the right ones 1. */
  ghost predicate Valid<V>(t: Tree<V>) {
    match t
    case Leaf(k, _) => NulFree(k)
    case Node(b, i, l, r) =>
      && i < 8 && Valid(l) && Valid(r) && Deeper(l, b, i) && Deeper(r, b, i)
      && (forall k :: k in Contents(l) ==> Same(k, First(l), b, i) && Direction(k, b, i) == 0)
      && (forall k :: k in Contents(r) ==> Same(k, First(l), b, i) && Direction(k, b, i) == 1)
  }

  lemma {:induction false} FirstIn<V>(t: Tree<V>)
    ensures First(t) in Contents(t)
  {
    if t.Node? { FirstIn(t.child0); }
  }

  lemma {:induction false} KeysNulFree<V>(t: Tree<V>, k: Key)
    requires Valid(t) && k in Contents(t)
    ensures NulFree(k)
  {
    if t.Node? {
      if k in Contents(t.child0) { KeysNulFree(t.child0, k); } else { KeysNulFree(t.child1, k); }
    }
  }

  /** Both sides of a node hold different strings. */
  lemma SidesDisjoint<V>(t: Tree<V>)
    requires Valid(t) && t.Node?
    ensures Contents(t.child0).Keys !! Contents(t.child1).Keys
  {
  }

  // ---------------------------------------------------------------- searching

  function Child<V>(t: Tree<V>, k: Key): (c: Tree<V>)
    requires t.Node?
  {
    if Direction(k, t.byteNum, t.bitNum) == 0 then t.child0 else t.child1
  }

  /** Where a search for `k` ends. */
  ghost function ClosestLeaf<V>(t: Tree<V>, k: Key): (r: Tree<V>)
    ensures r.Leaf?
  {
    if t.Leaf? then t else ClosestLeaf(Child(t, k), k)
  }

  /** closest, strmap.c:20-36. */
  method Closest<V>(t: Tree<V>, k: Key) returns (n: Tree<V>)
    ensures n == ClosestLeaf(t, k) && n.Leaf?
  {
    n := t;
    while n.Node?
      invariant ClosestLeaf(n, k) == ClosestLeaf(t, k)
      decreases n
    {
      n := Child(n, k);
    }
  }

  lemma {:induction false} ClosestIn<V>(t: Tree<V>, k: Key)
    requires Valid(t)
    ensures var c := ClosestLeaf(t, k); c.key in Contents(t) && Contents(t)[c.key] == c.value
  {
    if t.Node? {
      ClosestIn(Child(t, k), k);
      SidesDisjoint(t);
    }
  }

  /** A string in the map is its own closest member. */
  lemma {:induction false} ClosestFinds<V>(t: Tree<V>, k: Key)
    requires Valid(t) && k in Contents(t)
    ensures ClosestLeaf(t, k).key == k
  {
    if t.Node? {
      SidesDisjoint(t);
      ClosestFinds(Child(t, k), k);
    }
  }

  // ---------------------------------------------------------------- where two strings differ

  /** ilog32_nz(x ^ y) - 1: the highest bit, below bit `n`, where two bytes differ. */
  function TopDiff(x: nat, y: nat, n: nat): (i: nat)
    requires n > 0 && x != y && Shift(x, n) == Shift(y, n)
    ensures i < n && Shift(x, i) != Shift(y, i) && Shift(x, i + 1) == Shift(y, i + 1)
    decreases n
  {
    if n == 1 || Shift(x, n - 1) != Shift(y, n - 1) then n - 1 else TopDiff(x, y, n - 1)
  }

  /** The loop of strmap_add_ (strmap.c:74-80): the first byte that differs, NUL included. */
  method FirstDiff(s: Key, k: Key) returns (r: Option<nat>)
    requires NulFree(s) && NulFree(k)
    ensures r.None? <==> s == k
    ensures r.Some? ==> At(s, r.value) != At(k, r.value) && forall j :: 0 <= j < r.value ==> At(s, j) == At(k, j)
  {
    var b: nat := 0;
    while At(s, b) == At(k, b)
      invariant b <= |s| && b <= |k| && forall j :: 0 <= j < b ==> At(s, j) == At(k, j)
      decreases |k| - b
    {
      if At(k, b) == 0 {
        assert b == |s| && b == |k|;
        assert s == k by {
          forall j | 0 <= j < b ensures s[j] == k[j] {
            assert At(s, j) == At(k, j);
          }
        }
        return None;
      }
      b := b + 1;
    }
    assert s != k;
    return Some(b);
  }

  /** `k` leaves the subtree's strings at position (b, i). */
  ghost predicate Splits<V>(t: Tree<V>, k: Key, b: nat, i: nat) {
    forall x :: x in Contents(t) ==> Same(x, k, b, i) && Direction(x, b, i) != Direction(k, b, i)
  }

  // ---------------------------------------------------------------- adding

  /** The tree after strmap_add_ spliced a new node in at position (b, i). */
  function Inserted<V>(t: Tree<V>, k: Key, v: V, b: nat, i: nat): (r: Tree<V>) {
    if t.Leaf? || Before(b, i, t.byteNum, t.bitNum) then
      if Direction(k, b, i) == 0 then Node(b, i, Leaf(k, v), t) else Node(b, i, t, Leaf(k, v))
    else if Direction(k, t.byteNum, t.bitNum) == 0 then
      t.(child0 := Inserted(t.child0, k, v, b, i))
    else
      t.(child1 := Inserted(t.child1, k, v, b, i))
  }

  /** In the subtree where the new node goes, every string parts from `k` at (b, i). */
  lemma SplitsHere<V>(t: Tree<V>, k: Key, b: nat, i: nat)
    requires Valid(t) && (t.Leaf? || Before(b, i, t.byteNum, t.bitNum)) && PartsAt(t, k, b, i)
    ensures Splits(t, k, b, i)
  {
    var c := ClosestLeaf(t, k).key;
    ClosestIn(t, k);
    forall x | x in Contents(t) ensures Same(x, k, b, i) && Direction(x, b, i) != Direction(k, b, i) {
      if t.Node? {
        assert Same(x, First(t), t.byteNum, t.bitNum) && Same(c, First(t), t.byteNum, t.bitNum);
        assert Same(x, c, t.byteNum, t.bitNum);
        SameEarlier(x, c, t.byteNum, t.bitNum, b, i);
      }
    }
  }

  lemma SplicedValid<V>(t: Tree<V>, k: Key, v: V, b: nat, i: nat)
    requires Valid(t) && NulFree(k) && i < 8 && (t.Leaf? || Before(b, i, t.byteNum, t.bitNum)) && Splits(t, k, b, i)
    ensures var r := if Direction(k, b, i) == 0 then Node(b, i, Leaf(k, v), t) else Node(b, i, t, Leaf(k, v));
            Valid(r) && Contents(r) == Contents(t)[k := v] && k !in Contents(t)
  {
    FirstIn(t);
  }

  lemma MapInsert<V>(m0: map<Key, V>, m1: map<Key, V>, k: Key, v: V)
    ensures k !in m1 ==> m0[k := v] + m1 == (m0 + m1)[k := v]
    ensures m0 + m1[k := v] == (m0 + m1)[k := v]
  {
  }

  /** The closest string and `k` part exactly at (b, i). */
  ghost predicate PartsAt<V>(t: Tree<V>, k: Key, b: nat, i: nat) {
    var c := ClosestLeaf(t, k).key;
    Same(c, k, b, i) && Direction(c, b, i) != Direction(k, b, i)
  }

  /** Strings on the side that `k` takes agree with `k` at the node's bit; `k` itself is nowhere else. */
  lemma ChildKeys<V>(t: Tree<V>, k: Key)
    requires Valid(t) && t.Node?
    ensures forall x :: x in Contents(Child(t, k)) ==>
              Same(x, First(t.child0), t.byteNum, t.bitNum) && Direction(x, t.byteNum, t.bitNum) == Direction(k, t.byteNum, t.bitNum)
    ensures k in Contents(t) ==> k in Contents(Child(t, k))
  {
  }

  /** A node above the splice lies before it, and `k` agrees with its strings up to there. */
  lemma AboveSplice<V>(t: Tree<V>, k: Key, b: nat, i: nat)
    requires Valid(t) && t.Node? && !Before(b, i, t.byteNum, t.bitNum) && PartsAt(t, k, b, i)
    ensures Before(t.byteNum, t.bitNum, b, i)
    ensures Same(k, First(t.child0), t.byteNum, t.bitNum)
  {
    var c := ClosestLeaf(t, k).key;
    assert c in Contents(Child(t, k)) by { ClosestIn(Child(t, k), k); }
    ChildKeys(t, k);
    AgreesAbove(c, k, First(t.child0), t.byteNum, t.bitNum, b, i);
  }

  lemma AgreesAbove(c: Key, k: Key, f: Key, b0: nat, i0: nat, b: nat, i: nat)
    requires !Before(b, i, b0, i0) && Same(c, k, b, i) && Direction(c, b, i) != Direction(k, b, i)
    requires Same(c, f, b0, i0) && Direction(c, b0, i0) == Direction(k, b0, i0)
    ensures Before(b0, i0, b, i) && Same(k, f, b0, i0)
  {
    SameEarlier(c, k, b, i, b0, i0);
    SameTransitive(k, c, f, b0, i0);
  }

  /** Splicing keeps the shape and adds exactly one binding. */
  lemma {:induction false} InsertedValid<V>(t: Tree<V>, k: Key, v: V, b: nat, i: nat)
    requires Valid(t) && NulFree(k) && i < 8 && PartsAt(t, k, b, i)
    ensures Valid(Inserted(t, k, v, b, i))
    ensures Contents(Inserted(t, k, v, b, i)) == Contents(t)[k := v] && k !in Contents(t)
    ensures forall b0, i0 :: Before(b0, i0, b, i) && Deeper(t, b0, i0) ==> Deeper(Inserted(t, k, v, b, i), b0, i0)
  {
    if t.Leaf? || Before(b, i, t.byteNum, t.bitNum) {
      SplitsHere(t, k, b, i);
      SplicedValid(t, k, v, b, i);
    } else {
      AboveSplice(t, k, b, i);
      ChildKeys(t, k);
      InsertedValid(Child(t, k), k, v, b, i);
      InsertedBelow(t, k, v, Inserted(Child(t, k), k, v, b, i));
    }
  }

  /** The step back up from the child that received the new string. */
  lemma InsertedBelow<V>(t: Tree<V>, k: Key, v: V, d: Tree<V>)
    requires Valid(t) && t.Node? && Same(k, First(t.child0), t.byteNum, t.bitNum)
    requires Valid(d) && Contents(d) == Contents(Child(t, k))[k := v] && Deeper(d, t.byteNum, t.bitNum)
    requires k in Contents(t) ==> k in Contents(Child(t, k))
    ensures var t' := if Direction(k, t.byteNum, t.bitNum) == 0 then t.(child0 := d) else t.(child1 := d);
            Valid(t') && Contents(t') == Contents(t)[k := v]
  {
    var (pb, pi) := (t.byteNum, t.bitNum);
    MapInsert(Contents(t.child0), Contents(t.child1), k, v);
    if Direction(k, pb, pi) == 0 {
      FirstIn(d);
      var f, f' := First(t.child0), First(d);
      assert f' == k || f' in Contents(t.child0);
      forall x | x in Contents(d) ensures Same(x, f', pb, pi) && Direction(x, pb, pi) == 0 {
        assert x == k || x in Contents(t.child0);
        SameTransitive(x, f, f', pb, pi);
      }
      forall x | x in Contents(t.child1) ensures Same(x, f', pb, pi) {
        SameTransitive(x, f, f', pb, pi);
      }
    }
  }

  /** strmap_add_, strmap.c:52-122, on a non-empty map. */
  method Add<V>(t: Tree<V>, k: Key, v: V) returns (r: Option<Tree<V>>)
    requires Valid(t) && NulFree(k)
    ensures r.None? <==> k in Contents(t)
    ensures r.Some? ==> Valid(r.value) && Contents(r.value) == Contents(t)[k := v]
  {
    var n := Closest(t, k);
    ClosestIn(t, k);
    KeysNulFree(t, n.key);
    var b := FirstDiff(n.key, k);
    if b.None? {
      return None;
    }
    var x, y := At(n.key, b.value), At(k, b.value);
    ShiftByte(x);
    ShiftByte(y);
    var i := TopDiff(x, y, 8);
    BitsPart(x, y, i);
    InsertedValid(t, k, v, b.value, i);
    return Some(Inserted(t, k, v, b.value, i));
  }

  lemma BitsPart(x: nat, y: nat, i: nat)
    requires Shift(x, i) != Shift(y, i) && Shift(x, i + 1) == Shift(y, i + 1)
    ensures Shift(x, i) % 2 != Shift(y, i) % 2
  {
  }

  /** strmap_get_, strmap.c:38-50, on a non-empty map. */
  method Get<V>(t: Tree<V>, k: Key) returns (r: Option<V>)
    requires Valid(t)
    ensures r == if k in Contents(t) then Some(Contents(t)[k]) else None
  {
    var n := Closest(t, k);
    ClosestIn(t, k);
    if k == n.key {
      return Some(n.value);
    }
    if k in Contents(t) {
      ClosestFinds(t, k);
    }
    return None;
  }

  // ---------------------------------------------------------------- deleting

  /** The tree after strmap_del_ raised the other child of the parent; None when nothing is left. */
  function Removed<V>(t: Tree<V>, k: Key): (r: Option<Tree<V>>) {
    if t.Leaf? then None
    else
      var left := Direction(k, t.byteNum, t.bitNum) == 0;
      match Removed(Child(t, k), k)
      case None => Some(if left then t.child1 else t.child0)
      case Some(c) => Some(if left then t.(child0 := c) else t.(child1 := c))
  }

  lemma MapRemove<V>(m0: map<Key, V>, m1: map<Key, V>, k: Key)
    requires m0.Keys !! m1.Keys
    ensures k in m0 ==> (m0 + m1) - {k} == (m0 - {k}) + m1
    ensures k in m1 ==> (m0 + m1) - {k} == m0 + (m1 - {k})
  {
  }

  lemma {:induction false} RemovedValid<V>(t: Tree<V>, k: Key)
    requires Valid(t) && k in Contents(t)
    ensures Removed(t, k).None? <==> t.Leaf?
    ensures Removed(t, k).Some? ==>
              && Valid(Removed(t, k).value) && Contents(Removed(t, k).value) == Contents(t) - {k}
              && forall b, i :: Deeper(t, b, i) ==> Deeper(Removed(t, k).value, b, i)
  {
    if t.Node? {
      var d := Child(t, k);
      ChildKeys(t, k);
      RemovedValid(d, k);
      RemovedContents(t, k);
      if d.Node? {
        RemovedBelow(t, k, Removed(d, k).value);
      }
    }
  }

  lemma RemovedContents<V>(t: Tree<V>, k: Key)
    requires Valid(t) && t.Node? && k in Contents(Child(t, k))
    requires var r := Removed(Child(t, k), k);
             if Child(t, k).Leaf? then r.None? else r.Some? && Contents(r.value) == Contents(Child(t, k)) - {k}
    ensures Removed(t, k).Some? && Contents(Removed(t, k).value) == Contents(t) - {k}
  {
    SidesDisjoint(t);
    MapRemove(Contents(t.child0), Contents(t.child1), k);
    if Child(t, k).Leaf? {
      assert Contents(Child(t, k)) - {k} == map[];
    }
  }

  lemma RemovedBelow<V>(t: Tree<V>, k: Key, d: Tree<V>)
    requires Valid(t) && t.Node? && Valid(d) && Deeper(d, t.byteNum, t.bitNum)
    requires Contents(d) == Contents(Child(t, k)) - {k}
    ensures Valid(if Direction(k, t.byteNum, t.bitNum) == 0 then t.(child0 := d) else t.(child1 := d))
  {
    if Direction(k, t.byteNum, t.bitNum) == 0 {
      var (pb, pi) := (t.byteNum, t.bitNum);
      FirstIn(d);
      var f, f' := First(t.child0), First(d);
      forall x | x in Contents(d) || x in Contents(t.child1) ensures Same(x, f', pb, pi) {
        SameTransitive(x, f, f', pb, pi);
      }
    }
  }

  /** strmap_del_, strmap.c:124-174, on a non-empty map: the deleted value, and what is left. */
  method Del<V>(t: Tree<V>, k: Key) returns (value: Option<V>, r: Option<Tree<V>>)
    requires Valid(t)
    ensures value == if k in Contents(t) then Some(Contents(t)[k]) else None
    ensures k !in Contents(t) ==> r == Some(t)
    ensures k in Contents(t) && r.Some? ==> Valid(r.value) && Contents(r.value) == Contents(t) - {k}
    ensures r.None? ==> Contents(t).Keys == {k}
  {
    value := Get(t, k);
    if value.None? {
      return value, Some(t);
    }
    RemovedValid(t, k);
    return value, Removed(t, k);
  }

  // ---------------------------------------------------------------- iterating

  /** The order in which iterate (strmap.c:176-185) visits the strings. */
  function InOrder<V>(t: Tree<V>): (r: seq<Key>) {
    match t
    case Leaf(k, _) => [k]
    case Node(_, _, l, r) => InOrder(l) + InOrder(r)
  }

  /** 0 before 1 at the first differing bit is smaller as a byte string. */
  lemma {:induction false} BitOrder(a: Key, c: Key, b: nat, i: nat)
    requires NulFree(a) && NulFree(c) && Same(a, c, b, i) && Direction(a, b, i) == 0 && Direction(c, b, i) == 1
    ensures Lex(a, c) < 0
    decreases b
  {
    ZeroShift(i);
    assert b > 0 ==> At(a, 0) == At(c, 0);
    if b == 0 {
      ShiftOrder(At(a, 0), At(c, 0), i);
    } else if a != [] && c != [] {
      assert forall j: nat :: At(a[1..], j) == At(a, j + 1) && At(c[1..], j) == At(c, j + 1);
      BitOrder(a[1..], c[1..], b - 1, i);
    }
  }

  lemma {:induction false} ZeroShift(i: nat)
    ensures Shift(0, i) == 0
  {
    if i > 0 { ZeroShift(i - 1); }
  }

  lemma {:induction false} ShiftOrder(x: nat, y: nat, i: nat)
    requires Shift(x, i) < Shift(y, i)
    ensures x < y
  {
    if i > 0 { ShiftOrder(x, y, i - 1); }
  }

  lemma {:induction false} InOrderKeys<V>(t: Tree<V>, k: Key)
    ensures k in InOrder(t) <==> k in Contents(t)
  {
    if t.Node? {
      InOrderKeys(t.child0, k);
      InOrderKeys(t.child1, k);
    }
  }

  /** iterate visits the strings in increasing unsigned byte order. */
  lemma {:induction false} InOrderSorted<V>(t: Tree<V>)
    requires Valid(t)
    ensures forall i, j :: 0 <= i < j < |InOrder(t)| ==> Lex(InOrder(t)[i], InOrder(t)[j]) < 0
  {
    if t.Node? {
      InOrderSorted(t.child0);
      InOrderSorted(t.child1);
      var l, r := InOrder(t.child0), InOrder(t.child1);
      forall i, j | 0 <= i < |l| && 0 <= j < |r| ensures Lex(l[i], r[j]) < 0 {
        ChildrenOrdered(t, l[i], r[j]);
      }
    }
  }

  /** Strings of the first child come before strings of the second. */
  lemma ChildrenOrdered<V>(t: Tree<V>, a: Key, b: Key)
    requires Valid(t) && t.Node? && a in InOrder(t.child0) && b in InOrder(t.child1)
    ensures Lex(a, b) < 0
  {
    InOrderKeys(t.child0, a);
    InOrderKeys(t.child1, b);
    KeysNulFree(t.child0, a);
    KeysNulFree(t.child1, b);
    SameTransitive(a, First(t.child0), b, t.byteNum, t.bitNum);
    BitOrder(a, b, t.byteNum, t.bitNum);
  }

  // ---------------------------------------------------------------- prefixes

  predicate StartsWith(k: Key, p: Key) {
    |p| <= |k| && k[..|p|] == p
  }

  /** The subtree that strmap_prefix_ settles on: below all nodes that look at a byte of the prefix. */
  ghost function Below<V>(t: Tree<V>, p: Key): (r: Tree<V>) {
    if t.Node? && t.byteNum < |p| then Below(Child(t, p), p) else t
  }

  /** strmap_prefix_, strmap.c:198-231, on a non-empty map; None is the empty map. */
  method Prefix<V>(t: Tree<V>, p: Key) returns (r: Option<Tree<V>>)
    requires Valid(t) && NulFree(p)
    ensures r.Some? ==> Valid(r.value)
    ensures forall k :: k in (if r.None? then map[] else Contents(r.value)) <==> k in Contents(t) && StartsWith(k, p)
    ensures r.Some? ==> forall k :: k in Contents(r.value) ==> Contents(r.value)[k] == Contents(t)[k]
  {
    var top, n := t, t;
    while n.Node?
      invariant (n == top && Below(top, p) == Below(t, p)) || (top == Below(t, p) && (n.Node? ==> n.byteNum >= |p|))
      invariant ClosestLeaf(n, p) == ClosestLeaf(t, p)
      invariant Valid(n)
      decreases n
    {
      var c := At(p, n.byteNum);
      assert c != 0 <==> n.byteNum < |p|;
      n := Child(n, p);
      if c != 0 {
        top := n;
      }
    }
    BelowExact(t, p);
    if StartsWith(n.key, p) {
      return Some(top);
    }
    return None;
  }

  lemma StartsByBytes(k: Key, p: Key)
    requires NulFree(p)
    ensures StartsWith(k, p) <==> forall j :: 0 <= j < |p| ==> At(k, j) == p[j]
  {
    if |k| < |p| {
      assert At(k, |k|) != p[|k|];
    }
    if StartsWith(k, p) {
      assert forall j :: 0 <= j < |p| ==> k[..|p|][j] == k[j];
    }
  }

  /** All strings with the prefix are below, and those below all have it or all lack it. */
  lemma {:induction false} BelowExact<V>(t: Tree<V>, p: Key)
    requires Valid(t) && NulFree(p)
    ensures var s := Below(t, p);
            && Valid(s) && (forall k :: k in Contents(s) ==> k in Contents(t) && Contents(s)[k] == Contents(t)[k])
            && (forall k :: k in Contents(t) && StartsWith(k, p) ==> k in Contents(s))
            && (forall k :: k in Contents(s) ==> (StartsWith(k, p) <==> StartsWith(ClosestLeaf(t, p).key, p)))
  {
    if t.Node? && t.byteNum < |p| {
      BelowExact(Child(t, p), p);
      SidesDisjoint(t);
      forall k | k in Contents(t) && StartsWith(k, p) ensures k in Contents(Child(t, p)) {
        StartsByBytes(k, p);
        assert At(k, t.byteNum) == At(p, t.byteNum);
      }
    } else {
      BelowUniform(t, p);
    }
  }

  lemma BelowUniform<V>(t: Tree<V>, p: Key)
    requires Valid(t) && NulFree(p) && (t.Leaf? || t.byteNum >= |p|)
    ensures forall k :: k in Contents(t) ==> (StartsWith(k, p) <==> StartsWith(ClosestLeaf(t, p).key, p))
  {
    var c := ClosestLeaf(t, p).key;
    ClosestIn(t, p);
    StartsByBytes(c, p);
    forall k | k in Contents(t) ensures StartsWith(k, p) <==> StartsWith(c, p) {
      StartsByBytes(k, p);
      if t.Node? {
        SameTransitive(k, First(t.child0), c, t.byteNum, t.bitNum);
        assert forall j :: 0 <= j < |p| ==> At(k, j) == At(c, j);
      }
    }
  }

  // ---------------------------------------------------------------- the map object

  class Map<V> {
    var root: Option<Tree<V>>

    ghost predicate Ok()
      reads this
    {
      root.Some? ==> Valid(root.value)
    }

    ghost function Model(): (m: map<Key, V>)
      reads this
    {
      if root.None? then map[] else Contents(root.value)
    }

    constructor ()
      ensures Ok() && Model() == map[]
    {
      root := None;
    }

    method Lookup(k: Key) returns (r: Option<V>)
      requires Ok()
      ensures r == if k in Model() then Some(Model()[k]) else None
    {
      if root.None? {
        return None;
      }
      r := Get(root.value, k);
    }

    /** strmap_add_ with the empty case; false is EEXIST. */
    method Insert(k: Key, v: V) returns (ok: bool)
      requires Ok() && NulFree(k)
      modifies this
      ensures Ok() && (ok <==> k !in old(Model()))
      ensures Model() == if ok then old(Model())[k := v] else old(Model())
    {
      if root.None? {
        root := Some(Leaf(k, v));
        assert Model() == map[k := v] == map[][k := v];
        return true;
      }
      var r := Add(root.value, k, v);
      if r.None? {
        return false;
      }
      root := r;
      return true;
    }

    /** strmap_del_ with the empty case; None is ENOENT. */
    method Delete(k: Key) returns (value: Option<V>)
      requires Ok()
      modifies this
      ensures Ok() && value == if k in old(Model()) then Some(old(Model())[k]) else None
      ensures Model() == old(Model()) - {k}
    {
      if root.None? {
        return None;
      }
      var left: Option<Tree<V>>;
      value, left := Del(root.value, k);
      if value.None? {
        assert Model() - {k} == Model();
        return;
      }
      root := left;
      if root.None? {
        assert old(Model()) - {k} == map[];
      }
    }
  }
}
