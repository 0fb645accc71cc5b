/**
 Linear probing with tombstones on a table of slots, free of how a slot is stored in a
 word (htable.c).  Slots are addressed modulo the table size.
 */
module Probing {

  datatype Slot<P> = Empty | Deleted | Live(p: P)

  /** (i + 1) & (size - 1) */
  function Next(n: nat, i: nat): (r: nat)
    requires i < n
    ensures r < n
  {
    if i + 1 == n then 0 else i + 1
  }

  /** How many steps lead from `a` to `b`. */
  function Dist(n: nat, a: nat, b: nat): (d: nat)
    requires a < n && b < n
    ensures d < n
  {
    if a <= b then b - a else b + n - a
  }

  /** The slot `d` steps on from `a`. */
  function Step(n: nat, a: nat, d: nat): (r: nat)
    requires a < n && d <= n
    ensures r < n
  {
    if a + d < n then a + d else a + d - n
  }

  /** No empty slot on the way from `home` to slot `i`. */
  ghost predicate Reach<P>(s: seq<Slot<P>>, home: nat, i: nat)
    requires home < |s| && i < |s|
  {
    forall j :: 0 <= j < |s| && Dist(|s|, home, j) < Dist(|s|, home, i) ==> s[j] != Empty
  }

  /** Every live entry can be reached from its home slot. */
  ghost predicate Probed<P(!new)>(s: seq<Slot<P>>, home: P -> nat) {
    forall i :: 0 <= i < |s| && s[i].Live? ==> home(s[i].p) < |s| && Reach(s, home(s[i].p), i)
  }

  ghost predicate HasEmpty<P(!new)>(s: seq<Slot<P>>) {
    exists i :: 0 <= i < |s| && s[i] == Empty
  }

  // ---------------------------------------------------------------- what the table holds

  /** What to count: entries, tombstones, or the copies of one pointer. */
  datatype Kind<P> = AnyLive | AnyDeleted | Copies(p: P)

  ghost predicate Is<P>(x: Slot<P>, kind: Kind<P>) {
    match kind
    case AnyLive => x.Live?
    case AnyDeleted => x.Deleted?
    case Copies(p) => x == Live(p)
  }

  ghost function One<P>(x: Slot<P>, kind: Kind<P>): (n: nat) {
    if Is(x, kind) then 1 else 0
  }

  ghost function Num<P>(s: seq<Slot<P>>, kind: Kind<P>): (n: nat) {
    if s == [] then 0
    else Num(s[..|s| - 1], kind) + One(s[|s| - 1], kind)
  }

  lemma {:induction false} NumUpdate<P>(s: seq<Slot<P>>, i: nat, x: Slot<P>, kind: Kind<P>)
    requires i < |s|
    ensures Num(s[i := x], kind) + One(s[i], kind) == Num(s, kind) + One(x, kind)
  {
    var n := |s| - 1;
    if i == n {
      assert s[i := x][..n] == s[..n];
    } else {
      assert s[i := x][..n] == s[..n][i := x];
      NumUpdate(s[..n], i, x, kind);
    }
  }

  lemma {:induction false} NumPositive<P>(s: seq<Slot<P>>, kind: Kind<P>)
    ensures Num(s, kind) > 0 <==> exists i :: 0 <= i < |s| && Is(s[i], kind)
  {
    if s != [] {
      var n := |s| - 1;
      NumPositive(s[..n], kind);
      assert forall i :: 0 <= i < n ==> s[..n][i] == s[i];
    }
  }

  /** Counting: a table that is not used up has an empty slot. */
  lemma {:induction false} EmptyExists<P(!new)>(s: seq<Slot<P>>)
    requires Num(s, AnyLive) + Num(s, AnyDeleted) < |s|
    ensures HasEmpty(s)
  {
    var n := |s| - 1;
    if s[n] != Empty {
      EmptyExists(s[..n]);
      var i :| 0 <= i < n && s[..n][i] == Empty;
      assert s[i] == Empty;
    }
  }

  ghost function Blank<P>(n: nat): (s: seq<Slot<P>>) {
    seq(n, _ => Empty)
  }

  /** Two tables hold the same entries, each the same number of times. */
  ghost predicate SameEntries<P(!new)>(s: seq<Slot<P>>, s': seq<Slot<P>>) {
    && Num(s', AnyLive) == Num(s, AnyLive)
    && forall p :: Num(s', Copies(p)) == Num(s, Copies(p))
  }

  /** Storing one more entry. */
  ghost predicate OneMore<P(!new)>(s: seq<Slot<P>>, p: P, s': seq<Slot<P>>) {
    && Num(s', AnyLive) == Num(s, AnyLive) + 1
    && forall r :: Num(s', Copies(r)) == Num(s, Copies(r)) + (if r == p then 1 else 0)
  }

  lemma PlaceCounts<P(!new)>(s: seq<Slot<P>>, i: nat, p: P)
    requires i < |s| && !s[i].Live?
    ensures OneMore(s, p, s[i := Live(p)])
    ensures Num(s[i := Live(p)], AnyDeleted) <= Num(s, AnyDeleted)
  {
    NumUpdate(s, i, Live(p), AnyLive);
    NumUpdate(s, i, Live(p), AnyDeleted);
    forall r ensures Num(s[i := Live(p)], Copies(r)) == Num(s, Copies(r)) + (if r == p then 1 else 0) {
      NumUpdate(s, i, Live(p), Copies(r));
    }
  }

  lemma RemoveCounts<P(!new)>(s: seq<Slot<P>>, i: nat, x: Slot<P>)
    requires i < |s| && s[i].Live? && !x.Live?
    ensures OneMore(s[i := x], s[i].p, s)
    ensures Num(s[i := x], AnyDeleted) == Num(s, AnyDeleted) + One(x, AnyDeleted)
  {
    NumUpdate(s, i, x, AnyLive);
    NumUpdate(s, i, x, AnyDeleted);
    forall r ensures Num(s, Copies(r)) == Num(s[i := x], Copies(r)) + (if r == s[i].p then 1 else 0) {
      NumUpdate(s, i, x, Copies(r));
    }
  }

  lemma DropCounts<P(!new)>(s: seq<Slot<P>>, i: nat)
    requires i < |s| && s[i] == Deleted
    ensures SameEntries(s, s[i := Empty])
  {
    NumUpdate(s, i, Empty, AnyLive);
    forall r ensures Num(s[i := Empty], Copies(r)) == Num(s, Copies(r)) {
      NumUpdate(s, i, Empty, Copies(r));
    }
  }

  lemma BlankCounts<P(!new)>(n: nat, kind: Kind<P>)
    ensures Num(Blank<P>(n), kind) == 0
  {
    NumPositive(Blank<P>(n), kind);
  }

  lemma BlankEntries<P(!new)>(n: nat)
    ensures SameEntries([], Blank<P>(n)) && Num(Blank<P>(n), AnyDeleted) == 0
  {
    BlankCounts<P>(n, AnyLive);
    BlankCounts<P>(n, AnyDeleted);
    forall p: P ensures Num(Blank<P>(n), Copies(p)) == 0 {
      BlankCounts(n, Copies(p));
    }
  }

  lemma SnocCounts<P(!new)>(s: seq<Slot<P>>, i: nat)
    requires i < |s|
    ensures s[i].Live? ==> OneMore(s[..i], s[i].p, s[..i + 1])
    ensures !s[i].Live? ==> SameEntries(s[..i], s[..i + 1])
  {
    assert s[..i + 1][..i] == s[..i];
    assert forall kind :: Num(s[..i + 1], kind) == Num(s[..i], kind) + One(s[i], kind);
  }

  lemma {:induction false} NumPrefix<P>(s: seq<Slot<P>>, i: nat, kind: Kind<P>)
    requires i <= |s|
    ensures Num(s[..i], kind) <= Num(s, kind)
  {
    if i == |s| {
      assert s[..i] == s;
    } else {
      var n := |s| - 1;
      assert s[..n][..i] == s[..i];
      NumPrefix(s[..n], i, kind);
    }
  }

  lemma FreeExists<P(!new)>(s: seq<Slot<P>>)
    requires Num(s, AnyLive) + Num(s, AnyDeleted) < |s|
    ensures exists i :: 0 <= i < |s| && !s[i].Live?
  {
    EmptyExists(s);
    var i :| 0 <= i < |s| && s[i] == Empty;
    assert !s[i].Live?;
  }

  // ---------------------------------------------------------------- insertion and deletion

  /** ht_add stores into the first slot that holds no live entry. */
  ghost predicate FirstFree<P>(s: seq<Slot<P>>, home: nat, i: nat)
    requires home < |s|
  {
    && i < |s| && !s[i].Live?
    && forall j :: 0 <= j < |s| && Dist(|s|, home, j) < Dist(|s|, home, i) ==> s[j].Live?
  }

  lemma PlaceProbed<P(!new)>(s: seq<Slot<P>>, home: P -> nat, p: P, i: nat)
    requires Probed(s, home) && home(p) < |s| && FirstFree(s, home(p), i)
    ensures Probed(s[i := Live(p)], home)
  {
    var s' := s[i := Live(p)];
    forall k | 0 <= k < |s'| && s'[k].Live?
      ensures home(s'[k].p) < |s'| && Reach(s', home(s'[k].p), k)
    {
      if k != i {
        assert Reach(s, home(s[k].p), k);
      }
    }
  }

  lemma DeleteProbed<P(!new)>(s: seq<Slot<P>>, home: P -> nat, i: nat)
    requires Probed(s, home) && i < |s| && s[i].Live?
    ensures Probed(s[i := Deleted], home)
  {
    var s' := s[i := Deleted];
    forall k | 0 <= k < |s'| && s'[k].Live?
      ensures home(s'[k].p) < |s'| && Reach(s', home(s'[k].p), k)
    {
      assert Reach(s, home(s[k].p), k);
    }
  }

  /** A live entry lies before the first empty slot after its home. */
  lemma BeforeEmpty<P(!new)>(s: seq<Slot<P>>, home: P -> nat, i: nat, e: nat)
    requires Probed(s, home) && i < |s| && s[i].Live? && e < |s| && s[e] == Empty
    ensures home(s[i].p) < |s| && Dist(|s|, home(s[i].p), i) < Dist(|s|, home(s[i].p), e)
  {
    var h := home(s[i].p);
    assert Reach(s, h, i);
  }

  // ---------------------------------------------------------------- rehashing in place

  /** The state of rehash_table after `k` slots, counted from the empty slot `start`:
      behind the front no tombstones are left and every entry sits in an unbroken run
      from its home; ahead of the front runs are unbroken from the front on. */
  ghost predicate Swept<P(!new)>(s: seq<Slot<P>>, home: P -> nat, start: nat, k: nat)
    requires start < |s|
  {
    && k <= |s|
    && s[start] == Empty
    && (forall i :: 0 <= i < |s| && Dist(|s|, start, i) < k ==> s[i] != Deleted)
    && (forall i :: 0 <= i < |s| && s[i].Live? ==> Ahead(s, home(s[i].p), start, k, i))
  }

  /** Slot `i` lies at or after `home` as seen from `start`, with a run of used slots between. */
  ghost predicate Ahead<P>(s: seq<Slot<P>>, home: nat, start: nat, k: nat, i: nat)
    requires start < |s| && i < |s|
  {
    && home < |s|
    && 0 < Dist(|s|, start, home) <= Dist(|s|, start, i)
    && (forall j :: 0 <= j < |s| && Dist(|s|, start, home) <= Dist(|s|, start, j) < Dist(|s|, start, i)
          ==> (if Dist(|s|, start, i) < k then s[j].Live? else (Dist(|s|, start, j) < k || s[j] != Empty)))
  }

  lemma SweepStart<P(!new)>(s: seq<Slot<P>>, home: P -> nat, start: nat)
    requires Probed(s, home) && start < |s| && s[start] == Empty
    ensures Swept(s, home, start, 0)
  {
    forall i | 0 <= i < |s| && s[i].Live? ensures Ahead(s, home(s[i].p), start, 0, i) {
      var h := home(s[i].p);
      assert Reach(s, h, i);
      assert Dist(|s|, h, start) >= Dist(|s|, h, i);
    }
  }

  lemma SweepEnd<P(!new)>(s: seq<Slot<P>>, home: P -> nat, start: nat)
    requires start < |s| && Swept(s, home, start, |s|)
    ensures Probed(s, home) && Num(s, AnyDeleted) == 0
  {
    forall i | 0 <= i < |s| && s[i].Live? ensures home(s[i].p) < |s| && Reach(s, home(s[i].p), i) {
      var h := home(s[i].p);
      assert Ahead(s, h, start, |s|, i);
      forall j | 0 <= j < |s| && Dist(|s|, h, j) < Dist(|s|, h, i) ensures s[j] != Empty {
        assert Dist(|s|, start, h) <= Dist(|s|, start, j) < Dist(|s|, start, i);
      }
    }
    NumPositive(s, AnyDeleted);
  }

  /** An empty slot, or an entry already in its home slot, needs no work. */
  lemma SweepKeep<P(!new)>(s: seq<Slot<P>>, home: P -> nat, start: nat, k: nat)
    requires start < |s| && k < |s| && Swept(s, home, start, k)
    requires var h := Step(|s|, start, k); s[h] == Empty || (s[h].Live? && home(s[h].p) == h)
    ensures Swept(s, home, start, k + 1)
  {
    var h := Step(|s|, start, k);
    assert forall i :: 0 <= i < |s| ==> (Dist(|s|, start, i) == k <==> i == h);
    forall i | 0 <= i < |s| && s[i].Live? ensures Ahead(s, home(s[i].p), start, k + 1, i) {
      assert Ahead(s, home(s[i].p), start, k, i);
    }
  }

  /** A tombstone becomes empty. */
  lemma SweepDrop<P(!new)>(s: seq<Slot<P>>, home: P -> nat, start: nat, k: nat)
    requires start < |s| && k < |s| && Swept(s, home, start, k)
    requires s[Step(|s|, start, k)] == Deleted
    ensures Swept(s[Step(|s|, start, k) := Empty], home, start, k + 1)
  {
    var h := Step(|s|, start, k);
    var s' := s[h := Empty];
    assert forall i :: 0 <= i < |s| ==> (Dist(|s|, start, i) == k <==> i == h);
    forall i | 0 <= i < |s'| && s'[i].Live? ensures Ahead(s', home(s'[i].p), start, k + 1, i) {
      assert Ahead(s, home(s[i].p), start, k, i);
    }
  }

  /** An entry that is taken out and added again lands between its home and its old slot. */
  lemma MoveLands<P(!new)>(s: seq<Slot<P>>, home: nat, start: nat, k: nat, h: nat, q: nat)
    requires start < |s| && k < |s| && h == Step(|s|, start, k)
    requires home < |s| && 0 < Dist(|s|, start, home) <= k
    requires FirstFree(s[h := Empty], home, q)
    ensures Dist(|s|, start, home) <= Dist(|s|, start, q) <= k
    ensures forall j :: 0 <= j < |s| && Dist(|s|, start, home) <= Dist(|s|, start, j) < Dist(|s|, start, q) ==> s[j].Live? && j != h
  {
    var n := |s|;
    var m := s[h := Empty];
    assert m[h] == Empty && Dist(n, start, h) == k;
    assert Dist(n, home, q) <= Dist(n, home, h);
    forall j | 0 <= j < n && Dist(n, start, home) <= Dist(n, start, j) < Dist(n, start, q) ensures m[j].Live? {
      assert Dist(n, home, j) < Dist(n, home, q);
    }
  }

  lemma SweepMove<P(!new)>(s: seq<Slot<P>>, home: P -> nat, start: nat, k: nat, h: nat, q: nat)
    requires start < |s| && k < |s| && Swept(s, home, start, k)
    requires h == Step(|s|, start, k) && s[h].Live?
    requires home(s[h].p) < |s| && FirstFree(s[h := Empty], home(s[h].p), q)
    ensures Swept(s[h := Empty][q := Live(s[h].p)], home, start, k + 1)
  {
    assert Ahead(s, home(s[h].p), start, k, h);
    MoveLands(s, home(s[h].p), start, k, h, q);
    MoveAhead(s, home, start, k, h, q);
    StepDist(|s|, start, k);
  }

  lemma MoveAhead<P(!new)>(s: seq<Slot<P>>, home: P -> nat, start: nat, k: nat, h: nat, q: nat)
    requires start < |s| && k < |s| && q < |s| && h == Step(|s|, start, k) && s[h].Live?
    requires forall i :: 0 <= i < |s| && s[i].Live? ==> Ahead(s, home(s[i].p), start, k, i)
    requires home(s[h].p) < |s| && 0 < Dist(|s|, start, home(s[h].p)) <= Dist(|s|, start, q) <= k
    requires forall j :: 0 <= j < |s| && Dist(|s|, start, home(s[h].p)) <= Dist(|s|, start, j) < Dist(|s|, start, q) ==> s[j].Live? && j != h
    ensures var s' := s[h := Empty][q := Live(s[h].p)];
            forall i :: 0 <= i < |s'| && s'[i].Live? ==> Ahead(s', home(s'[i].p), start, k + 1, i)
  {
    var s' := s[h := Empty][q := Live(s[h].p)];
    forall i | 0 <= i < |s| && s'[i].Live? ensures Ahead(s', home(s'[i].p), start, k + 1, i) {
      if i != q {
        MoveKeeps(s, s', home(s[i].p), start, k, h, q, i);
      }
    }
  }

  lemma StepDist(n: nat, start: nat, k: nat)
    requires start < n && k < n
    ensures forall i :: 0 <= i < n ==> (Dist(n, start, i) == k <==> i == Step(n, start, k))
  {
  }

  lemma MoveKeeps<P(!new)>(s: seq<Slot<P>>, s': seq<Slot<P>>, home: nat, start: nat, k: nat, h: nat, q: nat, i: nat)
    requires start < |s| && k < |s| && h == Step(|s|, start, k) && q < |s| && i < |s| && i != h
    requires |s'| == |s| && s'[q].Live? && forall j :: 0 <= j < |s| && j != h && j != q ==> s'[j] == s[j]
    requires Ahead(s, home, start, k, i)
    ensures Ahead(s', home, start, k + 1, i)
  {
    assert Dist(|s|, start, h) == k && Dist(|s|, start, i) != k;
  }

  /** Taking an entry out and putting it back elsewhere keeps what the table holds. */
  lemma MoveCounts<P(!new)>(s: seq<Slot<P>>, h: nat, q: nat)
    requires h < |s| && q < |s| && s[h].Live? && !s[h := Empty][q].Live?
    ensures SameEntries(s, s[h := Empty][q := Live(s[h].p)])
  {
    RemoveCounts(s, h, Empty);
    PlaceCounts(s[h := Empty], q, s[h].p);
  }

  // ---------------------------------------------------------------- searching

  /** A run of used slots in a table with an empty slot can be followed one step further. */
  lemma RunStep<P(!new)>(s: seq<Slot<P>>, home: nat, i: nat)
    requires home < |s| && i < |s| && HasEmpty(s) && Reach(s, home, i) && s[i] != Empty
    ensures Next(|s|, i) != home && Reach(s, home, Next(|s|, i))
    ensures Dist(|s|, home, Next(|s|, i)) == Dist(|s|, home, i) + 1
    ensures forall j :: 0 <= j < |s| && Dist(|s|, home, j) == Dist(|s|, home, i) ==> j == i
  {
    var e :| 0 <= e < |s| && s[e] == Empty;
    assert Dist(|s|, home, e) >= Dist(|s|, home, i);
  }

  /** `offs` lists, without repetition, the marked slots met between `home` and `at`. */
  ghost predicate Collected(m: seq<bool>, home: nat, at: nat, offs: seq<nat>)
    requires home < |m| && at < |m|
  {
    && (forall k :: 0 <= k < |offs| ==> offs[k] < |m| && m[offs[k]] && Dist(|m|, home, offs[k]) < Dist(|m|, home, at))
    && (forall k, l :: 0 <= k < l < |offs| ==> offs[k] != offs[l])
    && (forall j :: 0 <= j < |m| && m[j] && Dist(|m|, home, j) < Dist(|m|, home, at) ==> j in offs)
  }

  lemma CollectStep(m: seq<bool>, home: nat, at: nat, next: nat, offs: seq<nat>)
    requires home < |m| && at < |m| && next < |m| && Collected(m, home, at, offs) && m[at]
    requires Dist(|m|, home, at) < Dist(|m|, home, next)
    requires forall j :: 0 <= j < |m| && Dist(|m|, home, at) < Dist(|m|, home, j) < Dist(|m|, home, next) ==> !m[j]
    ensures Collected(m, home, next, offs + [at])
  {
    var o := offs + [at];
    forall j | 0 <= j < |m| && m[j] && Dist(|m|, home, j) < Dist(|m|, home, next) ensures j in o {
      if Dist(|m|, home, j) < Dist(|m|, home, at) {
        assert j in offs;
      } else {
        assert j == at && o[|offs|] == at;
      }
    }
  }
}
