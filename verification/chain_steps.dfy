/**
 The effect of each helper of chain.c on a snapshot, and what it restores.
 */
module ChainSteps {
  import opened BlockTree
  import opened Longest
  import opened ChainInvariant

  // ---------------------------------------------------------------- order_block_pointers

  function SwapFront(xs: seq<nat>, i: nat): (r: seq<nat>)
    requires i < |xs|
  {
    xs[0 := xs[i]][i := xs[0]]
  }

  /** (i, j) is the connected pair that comes first, chains before knowns. */
  ghost predicate FirstPair(t: seq<Node>, chains: seq<nat>, knowns: seq<nat>, i: nat, j: nat)
    requires Tree(t) && InTree(t, chains) && InTree(t, knowns)
  {
    && i < |chains| && j < |knowns| && Connects(t, chains, knowns, i, j)
    && (forall k, l :: 0 <= k < |chains| && 0 <= l < |knowns| && (k < i || (k == i && l < j))
          ==> !Connects(t, chains, knowns, k, l))
  }

  ghost predicate NoPair(t: seq<Node>, chains: seq<nat>, knowns: seq<nat>)
    requires Tree(t) && InTree(t, chains) && InTree(t, knowns)
  {
    forall k, l :: 0 <= k < |chains| && 0 <= l < |knowns| ==> !Connects(t, chains, knowns, k, l)
  }

  /** order_block_pointers, chain.c:213-227, then update_preferred_chain. */
  ghost predicate Swapped(t: seq<Node>, chains: seq<nat>, knowns: seq<nat>, chains': seq<nat>, knowns': seq<nat>)
    requires Tree(t) && InTree(t, chains) && InTree(t, knowns)
  {
    || (NoPair(t, chains, knowns) && chains' == chains && knowns' == knowns)
    || (exists i, j :: FirstPair(t, chains, knowns, i, j) && chains' == SwapFront(chains, i) && knowns' == SwapFront(knowns, j))
  }

  ghost predicate Reordered(v: View, v': View)
    requires Tree(v.tree) && InTree(v.tree, v.chains) && InTree(v.tree, v.knowns)
  {
    && v' == v.(chains := v'.chains, knowns := v'.knowns, preferred := v'.preferred)
    && Swapped(v.tree, v.chains, v.knowns, v'.chains, v'.knowns)
    && PreferredOk(v')
  }

  lemma SwapFrontLists(t: seq<Node>, xs: seq<nat>, i: nat, s: set<nat>)
    requires Lists(t, xs, s) && i < |xs|
    ensures Lists(t, SwapFront(xs, i), s)
  {
    var r := SwapFront(xs, i);
    forall x: nat ensures x in r <==> x in xs {
      if x in xs {
        var k :| 0 <= k < |xs| && xs[k] == x;
        assert r[if k == 0 then i else if k == i then 0 else k] == x;
      }
    }
  }

  lemma ReorderedSettles(v: View, v': View)
    requires Shape(v) && KnownBut(v, {}) && LongestOk(v) && Reordered(v, v')
    ensures Consistent(v')
  {
    ReorderedKeeps(v, v', {});
  }

  // ---------------------------------------------------------------- update_known

  /** all_known and longest_knowns after update_known_recursive ran on `b` (chain.c:230-275). */
  function Learned(v: View, b: nat): (r: View)
    requires Tree(v.tree) && b < |v.tree| && v.knowns != [] && InTree(v.tree, v.knowns)
  {
    var fg := v.full * Good(v);
    v.(known := v.known + Elems(Walk(v.tree, v.full, Good(v), b)),
       knowns := Visits(v.tree, v.knowns, Walk(v.tree, fg, fg, b)))
  }

  /** The same, part way: `b` itself and its first `i` children have been handled. */
  ghost function LearnedUpTo(v: View, b: nat, i: nat): (r: View)
    requires Tree(v.tree) && b < |v.tree| && v.knowns != [] && InTree(v.tree, v.knowns)
    requires i <= |v.tree[b].children|
  {
    var fg := v.full * Good(v);
    v.(known := v.known + Elems(Seen(v.tree, v.full, Good(v), b, i)),
       knowns := Visits(v.tree, v.knowns, Seen(v.tree, fg, fg, b, i)))
  }

  lemma LearnedStart(v: View, b: nat)
    requires Tree(v.tree) && b < |v.tree| && v.knowns != [] && InTree(v.tree, v.knowns)
    requires v.full <= All(v.tree)
    ensures b !in v.full ==> Learned(v, b) == v
    ensures b in v.full && b in v.bad ==> Learned(v, b) == v.(known := v.known + {b})
    ensures LearnedUpTo(v, b, 0) == v.(known := v.known + {b}, knowns := Visit(v.tree, v.knowns, b))
    ensures b in v.full && b !in v.bad ==> Learned(v, b) == LearnedUpTo(v, b, |v.tree[b].children|)
  {
    var fg := v.full * Good(v);
    var n := |v.tree[b].children|;
    SeenSteps(v.tree, v.full, Good(v), b, 0);
    SeenSteps(v.tree, v.full, Good(v), b, n);
    SeenSteps(v.tree, fg, fg, b, n);
    VisitSeen(v.tree, fg, fg, b, 0, v.knowns);
    assert Elems([b]) == {b};
    if b !in v.full {
      assert v.known + Elems([]) == v.known;
    }
  }

  lemma LearnedStep(v: View, b: nat, i: nat)
    requires Tree(v.tree) && b < |v.tree| && v.knowns != [] && InTree(v.tree, v.knowns)
    requires i < |v.tree[b].children|
    ensures b < v.tree[b].children[i] < |v.tree| && v.tree[v.tree[b].children[i]].prev == b
    ensures b in LearnedUpTo(v, b, i).known
    ensures LearnedUpTo(v, b, i + 1) == Learned(LearnedUpTo(v, b, i), v.tree[b].children[i])
  {
    var fg := v.full * Good(v);
    var c := v.tree[b].children[i];
    SeenElems(v.tree, v.full, Good(v), b, i);
    VisitSeen(v.tree, fg, fg, b, i + 1, v.knowns);
    var l, w := LearnedUpTo(v, b, i), Elems(Walk(v.tree, v.full, Good(v), c));
    LearnedFrom(v, l, c, w);
    assert v.known + (Elems(Seen(v.tree, v.full, Good(v), b, i)) + w) == l.known + w;
  }

  /** What learning `c` does depends on the flags and lists only where it changes them. */
  lemma LearnedFrom(v: View, l: View, c: nat, w: set<nat>)
    requires Tree(v.tree) && c < |v.tree| && l == v.(known := l.known, knowns := l.knowns)
    requires l.knowns != [] && InTree(v.tree, l.knowns) && w == Elems(Walk(v.tree, v.full, Good(v), c))
    ensures var fg := v.full * Good(v);
      Learned(l, c) == v.(known := l.known + w, knowns := Visits(v.tree, l.knowns, Walk(v.tree, fg, fg, c)))
  {
    assert Good(l) == Good(v);
  }

  lemma ElemsAppend(s: seq<nat>, w: seq<nat>)
    ensures Elems(s + w) == Elems(s) + Elems(w)
  {
  }

  lemma SeenElems(t: seq<Node>, enter: set<nat>, descend: set<nat>, b: nat, i: nat)
    requires Tree(t) && b < |t| && i < |t[b].children|
    ensures b < t[b].children[i] < |t| && t[t[b].children[i]].prev == b
    ensures b in Elems(Seen(t, enter, descend, b, i))
    ensures Elems(Seen(t, enter, descend, b, i + 1)) ==
            Elems(Seen(t, enter, descend, b, i)) + Elems(Walk(t, enter, descend, t[b].children[i]))
  {
    SeenSteps(t, enter, descend, b, i + 1);
    ElemsAppend(Seen(t, enter, descend, b, i), Walk(t, enter, descend, t[b].children[i]));
    assert Seen(t, enter, descend, b, i)[0] == b;
  }

  lemma LearnedChange(v: View, b: nat, i: nat)
    requires Tree(v.tree) && b < |v.tree| && Tied(v.tree, v.knowns) && i <= |v.tree[b].children|
    ensures Tied(v.tree, LearnedUpTo(v, b, i).knowns)
    ensures i == 0 ==> (LearnedUpTo(v, b, i).knowns == v.knowns <==> v.tree[b].work < v.tree[v.knowns[0]].work)
    ensures i > 0 ==> (LearnedUpTo(v, b, i).knowns == v.knowns <==>
              LearnedUpTo(v, b, i - 1).knowns == v.knowns && LearnedUpTo(v, b, i).knowns == LearnedUpTo(v, b, i - 1).knowns)
  {
    var fg := v.full * Good(v);
    TiedLists(v.tree, v.knowns);
    VisitsHeaviest(v.tree, v.knowns, Elems(v.knowns), Seen(v.tree, fg, fg, b, i));
    SeenSteps(v.tree, fg, fg, b, i);
    if i == 0 {
      VisitsChange(v.tree, v.knowns, [b]);
    } else {
      ChangeAdds(v.tree, v.knowns, Seen(v.tree, fg, fg, b, i - 1), Walk(v.tree, fg, fg, v.tree[b].children[i - 1]));
    }
  }

  /** update_known on `b` (chain.c:298-319). */
  ghost predicate KnownUpdated(v: View, b: nat, v': View)
    requires Tree(v.tree) && b < |v.tree| && InTree(v.tree, v.chains)
    requires v.knowns != [] && InTree(v.tree, v.knowns)
  {
    if b != 0 && v.tree[b].prev !in v.known then v' == v
    else if Learned(v, b).knowns == v.knowns then v' == Learned(v, b)
    else Reordered(Learned(v, b), v')
  }

  lemma {:induction false} PathSplit(t: seq<Node>, s: set<nat>, b: nat, x: nat)
    requires Tree(t) && b < |t| && x < |t| && Anc(t, b, x)
    ensures Path(t, s, s, 0, x) <==> (b == 0 || (t[b].prev in s && Path(t, s, s, 0, t[b].prev))) && Path(t, s, s, b, x)
    decreases x
  {
    if x != b {
      PathSplit(t, s, b, t[x].prev);
    } else {
      assert Linked(t, b);
    }
  }

  /** For a block without complaint the three ways of walking down to it agree. */
  lemma {:induction false} PathVariants(v: View, b: nat, x: nat)
    requires Shape(v) && b < |v.tree| && x in Good(v)
    ensures Path(v.tree, v.full, Good(v), b, x) <==> Path(v.tree, v.full, v.full, b, x)
    ensures Path(v.tree, v.full * Good(v), v.full * Good(v), b, x) <==> Path(v.tree, v.full, v.full, b, x)
    decreases x
  {
    GoodIsClosed(v, x);
    if x != 0 && x != b {
      PathVariants(v, b, v.tree[x].prev);
    }
  }

  /** Which uncomplained blocks update_known_recursive marks, and lists. */
  lemma LearnedVisits(v: View, b: nat, x: nat)
    requires Shape(v) && b < |v.tree|
    ensures var fg := v.full * Good(v);
            && (x in Good(v) ==> (x in Walk(v.tree, v.full, Good(v), b) <==> Path(v.tree, v.full, v.full, b, x)))
            && (x in Walk(v.tree, fg, fg, b) <==> x in Good(v) && Path(v.tree, v.full, v.full, b, x))
  {
    var fg := v.full * Good(v);
    WalkVisits(v.tree, v.full, Good(v), b, x);
    WalkVisits(v.tree, fg, fg, b, x);
    if x in Good(v) {
      PathVariants(v, b, x);
    }
  }

  /** After the recursion the flags are right again everywhere. */
  lemma LearnedKnown(v: View, b: nat)
    requires Shape(v) && KnownBut(v, {b}) && b < |v.tree|
    requires b == 0 || v.tree[b].prev in v.known
    requires v.knowns != [] && InTree(v.tree, v.knowns)
    ensures Shape(Learned(v, b)) && KnownBut(Learned(v, b), {})
  {
    var v1 := Learned(v, b);
    forall x | x in Good(v1)
      ensures x in v1.known <==> PathFull(v1, x)
    {
      LearnedVisits(v, b, x);
      if Anc(v.tree, b, x) {
        PathSplit(v.tree, v.full, b, x);
        if b != 0 {
          assert Linked(v.tree, b);
          var p := v.tree[b].prev;
          GoodAncestor(v, b, x);
          GoodIsClosed(v, b);
          assert PathFull(v, p);
        }
      } else if Path(v.tree, v.full, v.full, b, x) {
        PathAnc(v.tree, v.full, v.full, b, x);
      }
    }
  }

  lemma {:induction false} GoodAncestor(v: View, b: nat, x: nat)
    requires Shape(v) && b < |v.tree| && x in Good(v) && Anc(v.tree, b, x)
    ensures b in Good(v)
    decreases x
  {
    if x != b {
      GoodIsClosed(v, x);
      GoodAncestor(v, b, v.tree[x].prev);
    }
  }

  /** ... and longest_knowns again lists exactly the heaviest known blocks, whether the
      update was incremental or started afresh from the genesis block. */
  lemma LearnedLists(v: View, b: nat, s: set<nat>)
    requires Shape(v) && KnownBut(v, {b}) && b < |v.tree|
    requires b == 0 || v.tree[b].prev in v.known
    requires Lists(v.tree, v.knowns, s) && s <= Good(v) * v.known
    requires b != 0 ==> s == Good(v) * v.known
    ensures Lists(v.tree, Learned(v, b).knowns, Good(v) * Learned(v, b).known)
  {
    var v1 := Learned(v, b);
    var fg := v.full * Good(v);
    var w := Walk(v.tree, fg, fg, b);
    VisitsHeaviest(v.tree, v.knowns, s, w);
    forall x: nat ensures x in s + Elems(w) <==> x in Good(v) * v1.known {
      LearnedVisits(v, b, x);
      if b == 0 && x in Good(v) * v.known {
        assert PathFull(v, x);
      }
    }
    assert s + Elems(w) == Good(v) * v1.known;
  }

  /** If the parent is not all-known, nothing at or below `b` can be. */
  lemma NothingToLearn(v: View, b: nat)
    requires Shape(v) && KnownBut(v, {b}) && 0 < b < |v.tree| && v.tree[b].prev !in v.known
    ensures KnownBut(v, {})
  {
    assert Linked(v.tree, b);
    var p := v.tree[b].prev;
    if Anc(v.tree, b, p) {
      AncOrder(v.tree, b, p);
    }
    assert p in Good(v) ==> !PathFull(v, p);
    forall x | x in Good(v) && PathFull(v, x)
      ensures !Anc(v.tree, b, x)
    {
      if Anc(v.tree, b, x) {
        PathSplit(v.tree, v.full, b, x);
        GoodAncestor(v, b, x);
        GoodIsClosed(v, b);
      }
    }
  }

  /** update_known restores the whole invariant from a state where only `b` is unsettled. */
  lemma KnownUpdatedSettles(v: View, b: nat, v': View)
    requires Shape(v) && KnownBut(v, {b}) && LongestOk(v) && b < |v.tree|
    requires KnownUpdated(v, b, v')
    ensures Shape(v') && KnownBut(v', {}) && LongestOk(v')
    ensures v'.tree == v.tree && v'.full == v.full && v'.bad == v.bad
    ensures Ordered(v) ==> Ordered(v')
    ensures Ordered(v) && PreferredOk(v) ==> Consistent(v')
  {
    if b != 0 && v.tree[b].prev !in v.known {
      NothingToLearn(v, b);
    } else {
      LearnedKnown(v, b);
      LearnedLists(v, b, Good(v) * v.known);
      var v1 := Learned(v, b);
      if v1.knowns == v.knowns {
        OrderedSame(v, v');
      } else {
        ReorderedSettles(v1, v');
      }
    }
  }

  lemma OrderedSame(v: View, v': View)
    requires Tree(v.tree) && InTree(v.tree, v.chains) && InTree(v.tree, v.knowns)
    requires v'.tree == v.tree && v'.chains == v.chains && v'.knowns == v.knowns
    ensures Ordered(v) ==> Ordered(v')
  {
  }

  /** The genesis block always finds itself again, so the pointers are always reordered. */
  lemma RootChanges(v: View)
    requires Shape(v) && v.knowns == [0]
    ensures Learned(v, 0).knowns != v.knowns
  {
    var fg := v.full * Good(v);
    var w := Walk(v.tree, fg, fg, 0);
    assert w[0] == 0;
    VisitsChange(v.tree, [0], w);
  }

  lemma RecomputedLists(v: View)
    requires Shape(v) && KnownBut(v, {0}) && v.knowns == [0] && Lists(v.tree, v.chains, Good(v))
    ensures Shape(Learned(v, 0)) && KnownBut(Learned(v, 0), {}) && LongestOk(Learned(v, 0))
  {
    ListsOne(v.tree, 0);
    LearnedKnown(v, 0);
    LearnedLists(v, 0, {0});
  }

  /** Recomputing from the genesis block restores it from any state with sound flags. */
  lemma KnownRecomputed(v: View, v': View)
    requires Shape(v) && KnownBut(v, {0}) && v.knowns == [0] && Lists(v.tree, v.chains, Good(v))
    requires KnownUpdated(v, 0, v')
    ensures Consistent(v')
  {
    RecomputedLists(v);
    RootChanges(v);
    ReorderedSettles(Learned(v, 0), v');
  }

  // ---------------------------------------------------------------- block_add

  function Added(v: View, p: nat, work: nat, full: bool): (r: View)
    requires p < |v.tree|
  {
    v.(tree := Extend(v.tree, p, work),
       full := if full then v.full + {|v.tree|} else v.full,
       bad := if p in v.bad then v.bad + {|v.tree|} else v.bad)
  }

  lemma AddedShape(v: View, p: nat, work: nat, full: bool)
    requires Shape(v) && p < |v.tree| && work > 0
    ensures Shape(Added(v, p, work, full))
    ensures Good(Added(v, p, work, full)) == if p in v.bad then Good(v) else Good(v) + {|v.tree|}
  {
    ExtendTree(v.tree, p, work);
    AddedSets(v, Added(v, p, work, full), p, full);
  }

  lemma AddedSets(v: View, v': View, p: nat, full: bool)
    requires Shape(v) && p < |v.tree|
    requires Tree(v'.tree) && ExtendsTo(v.tree, v'.tree) && v'.tree[|v.tree|].prev == p
    requires v'.full == (if full then v.full + {|v.tree|} else v.full) && v'.known == v.known
    requires v'.bad == if p in v.bad then v.bad + {|v.tree|} else v.bad
    ensures Shape(v')
    ensures Good(v') == if p in v.bad then Good(v) else Good(v) + {|v.tree|}
  {
    AllExtended(v.tree, v'.tree);
    AddedGoodSet(All(v.tree), v.bad, |v.tree|, p in v.bad);
    forall i | 0 < i < |v'.tree| && v'.tree[i].prev in v'.bad ensures i in v'.bad {
      assert Linked(v'.tree, i);
      AddedBadAt(v.tree, v'.tree, v.bad, p, i);
    }
  }

  lemma AllExtended(t: seq<Node>, t': seq<Node>)
    requires |t'| == |t| + 1
    ensures All(t') == All(t) + {|t|} && |t| !in All(t)
  {
  }

  lemma AddedGoodSet(all: set<nat>, bad: set<nat>, n: nat, below: bool)
    requires n !in all && bad <= all
    ensures below ==> (all + {n}) - (bad + {n}) == all - bad
    ensures (all + {n}) - bad == all - bad + {n}
  {
  }

  /** A block below a complaint keeps it, and so does the new one. */
  lemma AddedBadAt(t: seq<Node>, t': seq<Node>, bad: set<nat>, p: nat, i: nat)
    requires |t'| == |t| + 1 && t'[|t|].prev == p && i <= |t|
    requires i < |t| ==> t'[i].prev == t[i].prev && t[i].prev != |t| && (t[i].prev in bad ==> i in bad)
    requires p != |t|
    ensures var bad' := if p in bad then bad + {|t|} else bad;
      t'[i].prev in bad' ==> i in bad'
  {
  }

  lemma AddedPathFull(v: View, p: nat, work: nat, full: bool, x: nat)
    requires Shape(v) && p < |v.tree| && work > 0 && x < |v.tree|
    ensures Shape(Added(v, p, work, full))
    ensures PathFull(Added(v, p, work, full), x) == PathFull(v, x)
  {
    AddedShape(v, p, work, full);
    ExtendPath(v.tree, p, work, v.full, v.full, 0, x);
    PathOld(Added(v, p, work, full), v.full, |v.tree|, x);
  }

  lemma AddedKnown(v: View, p: nat, work: nat, full: bool)
    requires Shape(v) && KnownBut(v, {}) && p < |v.tree| && work > 0
    ensures Shape(Added(v, p, work, full))
    ensures KnownBut(Added(v, p, work, full), {|v.tree|})
    ensures !full || p in v.bad ==> KnownBut(Added(v, p, work, full), {})
  {
    var v' := Added(v, p, work, full);
    var n := |v.tree|;
    AddedShape(v, p, work, full);
    forall x | x in Good(v') && x != n
      ensures x in v'.known <==> PathFull(v', x)
    {
      AddedPathFull(v, p, work, full, x);
      assert x in Good(v);
    }
    assert Anc(v'.tree, n, n);
    assert n !in v'.known;
    assert !full ==> n !in v'.full;
  }

  /** A path to an older block does not meet a newer one. */
  lemma {:induction false} PathOld(v: View, full: set<nat>, n: nat, x: nat)
    requires Tree(v.tree) && x < n < |v.tree|
    requires v.full == full || v.full == full + {n}
    ensures Path(v.tree, v.full, v.full, 0, x) == Path(v.tree, full, full, 0, x)
    decreases x
  {
    if x != 0 {
      assert Linked(v.tree, x);
      PathOld(v, full, n, v.tree[x].prev);
    }
  }

  /** A new block below a complaint changes none of the answers (block.c:118-123). */
  lemma AddedBad(v: View, p: nat, work: nat, full: bool)
    requires Consistent(v) && p in v.bad && work > 0
    ensures Consistent(Added(v, p, work, full))
  {
    var v' := Added(v, p, work, full);
    AddedKnown(v, p, work, full);
    AddedShape(v, p, work, full);
    OldLists(v, p, work, v.chains, Good(v));
    OldLists(v, p, work, v.knowns, Good(v) * v.known);
    AddedBadPreferred(v, p, work, full);
    ExtendOrdered(v, v', p, work);
  }

  lemma AddedBadPreferred(v: View, p: nat, work: nat, full: bool)
    requires Shape(v) && PreferredOk(v) && p in v.bad && work > 0
    ensures Shape(Added(v, p, work, full)) && PreferredOk(Added(v, p, work, full))
  {
    var v' := Added(v, p, work, full);
    AddedShape(v, p, work, full);
    ExtendWalk(v.tree, p, work, Good(v), Good(v), v.knowns[0]);
    OldVisits(v.tree, v'.tree, [v.knowns[0]], Walk(v.tree, Good(v), Good(v), v.knowns[0]));
  }

  lemma OldLists(v: View, p: nat, work: nat, xs: seq<nat>, s: set<nat>)
    requires Tree(v.tree) && p < |v.tree| && work > 0
    requires Lists(v.tree, xs, s)
    ensures Lists(Extend(v.tree, p, work), xs, s)
  {
    var t := Extend(v.tree, p, work);
    assert forall i :: 0 <= i < |v.tree| ==> t[i].work == v.tree[i].work;
    forall x: nat ensures x in xs <==> Heaviest(t, s, x) {
      assert x in xs <==> Heaviest(v.tree, s, x);
      if Heaviest(t, s, x) {
        assert forall y :: y in s ==> v.tree[y].work <= v.tree[x].work;
      }
    }
  }

  lemma {:induction false} OldVisits(t: seq<Node>, t': seq<Node>, bests: seq<nat>, xs: seq<nat>)
    requires |t| <= |t'| && forall i :: 0 <= i < |t| ==> t'[i].work == t[i].work
    requires bests != [] && InTree(t, bests) && InTree(t, xs)
    ensures Visits(t', bests, xs) == Visits(t, bests, xs)
  {
    if xs != [] {
      OldVisits(t, t', bests, xs[..|xs| - 1]);
    }
  }

  lemma ExtendOrdered(v: View, v': View, p: nat, work: nat)
    requires Tree(v.tree) && p < |v.tree| && work > 0
    requires v.chains != [] && v.knowns != []
    requires InTree(v.tree, v.chains) && InTree(v.tree, v.knowns) && Ordered(v)
    requires v'.tree == Extend(v.tree, p, work) && v'.chains == v.chains && v'.knowns == v.knowns
    ensures Tree(v'.tree) && Ordered(v')
  {
    ExtendTree(v.tree, p, work);
    forall i, j | 0 <= i < |v.chains| && 0 <= j < |v.knowns|
      ensures Connects(v'.tree, v'.chains, v'.knowns, i, j) == Connects(v.tree, v.chains, v.knowns, i, j)
    {
      ExtendAnc(v.tree, p, work, v.knowns[j], v.chains[i]);
    }
  }

  /** The new block competes for longest chain (chain.c:386-400). */
  lemma AddedGood(v: View, p: nat, work: nat, full: bool)
    requires Consistent(v) && p in Good(v) && work > 0
    ensures var v1 := Added(v, p, work, full);
            && Shape(v1) && KnownBut(v1, {|v.tree|}) && (!full ==> KnownBut(v1, {}))
            && InTree(v1.tree, v.chains)
            && LongestOk(v1.(chains := Visit(v1.tree, v.chains, |v.tree|)))
            && Ordered(v1)
    ensures Tied(Added(v, p, work, full).tree, v.chains) && Tied(Added(v, p, work, full).tree, v.knowns)
  {
    var v1 := Added(v, p, work, full);
    var n := |v.tree|;
    AddedTied(v, p, work, v.chains, Good(v));
    AddedTied(v, p, work, v.knowns, Good(v) * v.known);
    AddedKnown(v, p, work, full);
    AddedShape(v, p, work, full);
    OldLists(v, p, work, v.chains, Good(v));
    OldLists(v, p, work, v.knowns, Good(v) * v.known);
    VisitLists(v1.tree, v.chains, Good(v), n);
    assert n !in v1.known;
    assert Good(v1) * v1.known == Good(v) * v.known;
    ExtendOrdered(v, v1, p, work);
  }

  /** The effect of chain.c:386-400 for the new block `b`. */
  ghost predicate Competed(v: View, b: nat, v': View)
    requires Tree(v.tree) && b < |v.tree|
    requires v.chains != [] && InTree(v.tree, v.chains) && InTree(v.tree, v.knowns)
  {
    if v.tree[b].work >= v.tree[v.chains[0]].work
    then Reordered(v.(chains := Visit(v.tree, v.chains, b)), v')
    else v' == v
  }

  /** The effect of update_block_ptrs_new_block (chain.c:382-416) for the new block `b`. */
  ghost predicate NewBlockCounted(v: View, b: nat, v': View)
    requires Tree(v.tree) && b < |v.tree|
    requires v.chains != [] && InTree(v.tree, v.chains) && v.knowns != [] && InTree(v.tree, v.knowns)
  {
    exists v1, v2 :: CountedVia(v, b, v1, v2, v')
  }

  ghost predicate CountedVia(v: View, b: nat, v1: View, v2: View, v': View)
    requires Tree(v.tree) && b < |v.tree|
    requires v.chains != [] && InTree(v.tree, v.chains) && v.knowns != [] && InTree(v.tree, v.knowns)
  {
    && Competed(v, b, v1) && v1.tree == v.tree && v1.full == v.full
    && InTree(v.tree, v1.chains) && v1.knowns != [] && InTree(v.tree, v1.knowns)
    && (if b in v.full then KnownUpdated(v1, b, v2) else v2 == v1)
    && v' == v2.(preferred := v'.preferred) && v'.tree == v.tree
    && PreferredOk(v')
  }

  /** The blocks added to the list are those above `from` that are not above `to`. */
  ghost predicate Moved(t: seq<Node>, before: seq<nat>, after: seq<nat>, from: nat, to: nat)
    requires Tree(t) && from < |t| && to < |t|
  {
    before <= after && forall x: nat :: x in after[|before|..] <==> x < |t| && Anc(t, x, from) && !Anc(t, x, to)
  }

  lemma NothingMoved(t: seq<Node>, before: seq<nat>, k: nat)
    requires Tree(t) && k < |t|
    ensures Moved(t, before, before, k, k)
  {
    assert before[|before|..] == [];
  }

  lemma CountedBy(v: View, b: nat, v1: View, v2: View, v': View)
    requires Tree(v.tree) && b < |v.tree|
    requires v.chains != [] && InTree(v.tree, v.chains) && v.knowns != [] && InTree(v.tree, v.knowns)
    requires Competed(v, b, v1) && v1.tree == v.tree && v1.full == v.full
    requires InTree(v.tree, v1.chains) && v1.knowns != [] && InTree(v.tree, v1.knowns)
    requires if b in v.full then KnownUpdated(v1, b, v2) else v2 == v1
    requires v' == v2.(preferred := v'.preferred) && v'.tree == v.tree && PreferredOk(v')
    ensures NewBlockCounted(v, b, v')
  {
    assert CountedVia(v, b, v1, v2, v');
  }

  /** Bringing preferred_chain up to date is the last thing missing. */
  lemma PreferredSettles(v: View, v': View)
    requires Shape(v) && KnownBut(v, {}) && LongestOk(v) && Ordered(v)
    requires v' == v.(preferred := v'.preferred) && PreferredOk(v')
    ensures Consistent(v')
  {
    OrderedSame(v, v');
    forall x | x in Good(v') ensures PathFull(v', x) <==> PathFull(v, x) {
    }
  }

  lemma AddedTied(v: View, p: nat, work: nat, xs: seq<nat>, s: set<nat>)
    requires Tree(v.tree) && p < |v.tree| && work > 0 && xs != [] && InTree(v.tree, xs) && Lists(v.tree, xs, s)
    ensures Tied(Extend(v.tree, p, work), xs)
  {
    ExtendTree(v.tree, p, work);
    forall i | 0 <= i < |xs| ensures v.tree[xs[i]].work == v.tree[xs[0]].work {
      assert xs[i] in xs && xs[0] in xs;
      assert Heaviest(v.tree, s, xs[i]) && Heaviest(v.tree, s, xs[0]);
    }
  }

  lemma AddedReady(v: View, p: nat, work: nat, full: bool)
    requires Consistent(v) && p < |v.tree| && work > 0
    ensures var v1 := Added(v, p, work, full);
            && Tree(v1.tree)
            && v1.chains != [] && InTree(v1.tree, v1.chains) && v1.knowns != [] && InTree(v1.tree, v1.knowns)
  {
    ExtendTree(v.tree, p, work);
  }

  /** The effect of block_add (block.c:79-129). */
  ghost predicate BlockAdded(v: View, p: nat, work: nat, full: bool, v': View)
    requires Consistent(v) && p < |v.tree| && work > 0
  {
    AddedReady(v, p, work, full);
    var v1 := Added(v, p, work, full);
    if p in v.bad then v' == v1 else NewBlockCounted(v1, |v.tree|, v')
  }

  // ---------------------------------------------------------------- publish_complaint

  lemma {:induction false} AncAllPath(t: seq<Node>, b: nat, x: nat)
    requires Tree(t) && b < |t| && x < |t|
    ensures Path(t, All(t), All(t), b, x) <==> Anc(t, b, x)
    decreases x
  {
    if x != 0 && x != b {
      assert Linked(t, x);
      AncAllPath(t, b, t[x].prev);
    }
  }

  /** complaint_on_all reaches exactly the descendants (complain.c:12-34). */
  lemma ComplaintReaches(t: seq<Node>, b: nat, x: nat)
    requires Tree(t) && b < |t|
    ensures x in Walk(t, All(t), All(t), b) <==> x < |t| && Anc(t, b, x)
  {
    WalkVisits(t, All(t), All(t), b, x);
    if x < |t| { AncAllPath(t, b, x); }
  }

  /** After complaint_on_all the flags are still sound, so recomputing from genesis will do. */
  lemma ComplaintKeepsSound(v: View, b: nat, dirty: set<nat>)
    requires Shape(v) && KnownBut(v, dirty) && 0 < b < |v.tree|
    ensures var v1 := v.(bad := v.bad + Elems(Walk(v.tree, All(v.tree), All(v.tree), b)));
            Shape(v1) && KnownBut(v1, {0})
  {
    var v1 := v.(bad := v.bad + Elems(Walk(v.tree, All(v.tree), All(v.tree), b)));
    var t := v.tree;
    forall x: nat ensures x in v1.bad <==> x in v.bad || (x < |t| && Anc(t, b, x)) {
      ComplaintReaches(t, b, x);
    }
    if 0 in v1.bad {
      AncOrder(t, b, 0);
    }
    forall i | 0 < i < |t| && t[i].prev in v1.bad ensures i in v1.bad {
      assert Linked(t, i);
      assert Anc(t, b, t[i].prev) ==> Anc(t, b, i);
    }
    assert Shape(v1);
    forall x | x in Good(v1) ensures Anc(t, 0, x) && (x in v1.known ==> PathFull(v1, x)) {
      GenesisPrecedes(t, x);
      assert x in Good(v) && PathFull(v, x) == PathFull(v1, x);
    }
  }

  lemma ResetChains(v: View)
    requires Shape(v)
    ensures Lists(v.tree, Visits(v.tree, [0], Walk(v.tree, Good(v), Good(v), 0)), Good(v))
  {
    var w := Walk(v.tree, Good(v), Good(v), 0);
    ListsOne(v.tree, 0);
    VisitsHeaviest(v.tree, [0], {0}, w);
    GenesisReaches(v);
  }

  lemma ResetReady(v: View)
    requires Shape(v) && v.knowns == [0] && v.chains == Visits(v.tree, [0], Walk(v.tree, Good(v), Good(v), 0))
    ensures Lists(v.tree, v.chains, Good(v)) && Tied(v.tree, v.chains) && Tied(v.tree, v.knowns)
  {
    ResetChains(v);
    ListsOne(v.tree, 0);
  }

  lemma GenesisReaches(v: View)
    requires Shape(v)
    ensures {0} + Elems(Walk(v.tree, Good(v), Good(v), 0)) == Good(v)
  {
    var w := Walk(v.tree, Good(v), Good(v), 0);
    forall x: nat ensures x in {0} + Elems(w) <==> x in Good(v) {
      GoodWalk(v, 0, x);
      if x in Good(v) { GenesisPrecedes(v.tree, x); }
    }
  }

  /** A complaint already covers every descendant. */
  lemma {:induction false} ComplaintClosed(v: View, b: nat, x: nat)
    requires Shape(v) && b in v.bad && x < |v.tree| && Anc(v.tree, b, x)
    ensures x in v.bad
    decreases x
  {
    if x != b {
      assert Linked(v.tree, x);
      ComplaintClosed(v, b, v.tree[x].prev);
    }
  }

  lemma ComplaintAlready(v: View, b: nat)
    requires Shape(v) && b in v.bad
    ensures forall x: nat :: x < |v.tree| && Anc(v.tree, b, x) ==> x in v.bad
  {
    forall x: nat | x < |v.tree| && Anc(v.tree, b, x) ensures x in v.bad {
      ComplaintClosed(v, b, x);
    }
  }

  // ---------------------------------------------------------------- put_tx_in_shard

  /** Completing `b` unsettles at most `b` and its descendants. */
  lemma FilledKnown(v: View, v': View, b: nat)
    requires Shape(v) && KnownBut(v, {}) && b < |v.tree|
    requires v' == v.(full := v'.full) && (v'.full == v.full || v'.full == v.full + {b})
    ensures Shape(v') && KnownBut(v', {b})
  {
    forall x | x in Good(v')
      ensures PathFull(v, x) ==> PathFull(v', x)
      ensures PathFull(v', x) && !PathFull(v, x) ==> Anc(v.tree, b, x)
    {
      FilledPath(v, v', b, x);
    }
  }

  lemma {:induction false} FilledPath(v: View, v': View, b: nat, x: nat)
    requires Tree(v.tree) && b < |v.tree| && x < |v.tree|
    requires v'.tree == v.tree && (v'.full == v.full || v'.full == v.full + {b})
    ensures PathFull(v, x) ==> PathFull(v', x)
    ensures PathFull(v', x) && !PathFull(v, x) ==> Anc(v.tree, b, x)
    decreases x
  {
    if x != 0 {
      assert Linked(v.tree, x);
      FilledPath(v, v', b, v.tree[x].prev);
    }
  }

  /** If `b` is still incomplete then nothing below it can be all-known. */
  lemma NotFullSettles(v: View, b: nat)
    requires Shape(v) && KnownBut(v, {b}) && b < |v.tree| && b !in v.full
    ensures KnownBut(v, {})
  {
    forall x | x in Good(v) && PathFull(v, x) ensures !Anc(v.tree, b, x) {
      if Anc(v.tree, b, x) {
        PathSplit(v.tree, v.full, b, x);
        PathAnc(v.tree, v.full, v.full, b, x);
      }
    }
  }

  lemma KnownWeaken(v: View, d: set<nat>, e: set<nat>)
    requires Shape(v) && d <= e
    ensures KnownBut(v, d) ==> KnownBut(v, e)
  {
  }

  /** Reordering also keeps a state with unsettled blocks as it was. */
  lemma ReorderedKeeps(v: View, v': View, dirty: set<nat>)
    requires Shape(v) && KnownBut(v, dirty) && LongestOk(v) && Reordered(v, v')
    ensures Shape(v') && KnownBut(v', dirty) && LongestOk(v') && Ordered(v')
  {
    if !NoPair(v.tree, v.chains, v.knowns) {
      var i, j :| FirstPair(v.tree, v.chains, v.knowns, i, j)
                && v'.chains == SwapFront(v.chains, i) && v'.knowns == SwapFront(v.knowns, j);
      SwapFrontLists(v.tree, v.chains, i, Good(v));
      SwapFrontLists(v.tree, v.knowns, j, Good(v) * v.known);
      assert Connects(v.tree, v.chains, v.knowns, i, j);
      assert Connects(v'.tree, v'.chains, v'.knowns, 0, 0);
    } else {
      forall i, j | 0 <= i < |v'.chains| && 0 <= j < |v'.knowns|
        ensures !Connects(v'.tree, v'.chains, v'.knowns, i, j)
      {
        assert !Connects(v.tree, v.chains, v.knowns, i, j);
      }
    }
  }

  /** complaint_on_all part way, after `i` children. */
  lemma ComplaintStep(t: seq<Node>, b: nat, i: nat)
    requires Tree(t) && b < |t| && i <= |t[b].children|
    ensures i == 0 ==> Seen(t, All(t), All(t), b, i) == [b] && Elems(Seen(t, All(t), All(t), b, i)) == {b}
    ensures i > 0 ==> b < t[b].children[i - 1] < |t|
    ensures i > 0 ==> Seen(t, All(t), All(t), b, i) == Seen(t, All(t), All(t), b, i - 1) + Walk(t, All(t), All(t), t[b].children[i - 1])
    ensures i > 0 ==> Elems(Seen(t, All(t), All(t), b, i)) == Elems(Seen(t, All(t), All(t), b, i - 1)) + Elems(Walk(t, All(t), All(t), t[b].children[i - 1]))
    ensures i == |t[b].children| ==> Seen(t, All(t), All(t), b, i) == Walk(t, All(t), All(t), b)
  {
    SeenSteps(t, All(t), All(t), b, i);
    if i > 0 {
      var s, w := Seen(t, All(t), All(t), b, i - 1), Walk(t, All(t), All(t), t[b].children[i - 1]);
      ElemsAppend(s, w);
    }
  }

  // ---------------------------------------------------------------- new_state

  lemma GenesisConsistent(v: View)
    requires v == View([Node(0, 0, 0, [])], {0}, {}, {0}, [0], [0], 0)
    ensures Consistent(v)
  {
    assert All(v.tree) == {0};
    assert Good(v) == {0} && Good(v) * v.known == {0};
    assert PathFull(v, 0);
    ListsOne(v.tree, 0);
    WalkSmall(v.tree, Good(v), Good(v), 0);
    VisitsChange(v.tree, [0], [0]);
    assert v.preferred == LongestBelow(v.tree, Good(v), 0);
  }
}
