/**
 The assertions of check_chains (chain.c:81-116) against the invariant that really holds,
 and the recomputation that the incremental state agrees with.
 */
module ChainCheck {
  import opened BlockTree
  import opened Longest
  import opened ChainInvariant
  import opened ChainSteps
  import opened Chain
  import opened ChainEvents

  /** Incremental maintenance agrees with starting again from the genesis block. */
  lemma IncrementalIsRecomputed(v: View)
    requires Consistent(v)
    ensures var good := Good(v);
            var fg := v.full * good;
            && Elems(v.chains) == Elems(Visits(v.tree, [0], Walk(v.tree, good, good, 0)))
            && Elems(v.knowns) == Elems(Visits(v.tree, [0], Walk(v.tree, fg, fg, 0)))
            && good * v.known == good * ({0} + Elems(Walk(v.tree, v.full, good, 0)))
  {
    ResetChains(v);
    var v0 := v.(knowns := [0], known := {0});
    FlagsFromScratch(v, v0);
    RecomputedLists(v0);
    SameKnown(v, Learned(v0, 0));
  }

  lemma FlagsFromScratch(v: View, v0: View)
    requires Shape(v) && v0 == v.(knowns := [0], known := {0})
    ensures Shape(v0) && KnownBut(v0, {0}) && Good(v0) == Good(v)
  {
    forall x | x in Good(v0) ensures Anc(v.tree, 0, x) {
      GenesisPrecedes(v.tree, x);
    }
    assert PathFull(v0, 0);
  }

  /** The flags of uncomplained blocks are determined by the tree and the shards. */
  lemma SameKnown(v: View, v': View)
    requires Shape(v) && Shape(v') && KnownBut(v, {}) && KnownBut(v', {})
    requires v'.tree == v.tree && v'.full == v.full && v'.bad == v.bad
    ensures Good(v) * v.known == Good(v) * v'.known
  {
    forall x: nat ensures x in Good(v) * v.known <==> x in Good(v) * v'.known {
      if x in Good(v) { assert x in Good(v') && PathFull(v', x) == PathFull(v, x); }
    }
  }

  /** chain.c:92-98, 101-107 and 110-116. */
  ghost predicate Asserted(v: View)
    requires Tree(v.tree) && InTree(v.tree, v.chains) && InTree(v.tree, v.knowns)
  {
    && v.chains != [] && v.knowns != [] && v.preferred < |v.tree|
    && Tied(v.tree, v.chains) && Tied(v.tree, v.knowns)
    && Anc(v.tree, v.knowns[0], v.preferred)
    && (forall x :: 0 <= x < |v.tree| && Anc(v.tree, v.knowns[0], x) && Anc(v.tree, x, v.preferred) && x != v.knowns[0]
          ==> x !in v.known)
    && (v.preferred != v.chains[0] ==> NoPair(v.tree, v.chains, v.knowns))
    && v.preferred !in v.bad
    && (forall i :: 0 <= i < |v.chains| ==> v.chains[i] !in v.bad)
    && (forall i :: 0 <= i < |v.knowns| ==> v.knowns[i] !in v.bad)
  }

  /** `c` is the first block that a walk below `k` meets with that much work. */
  ghost predicate MetFirst(t: seq<Node>, good: set<nat>, k: nat, c: nat)
    requires Tree(t) && k < |t| && c < |t|
  {
    exists i :: IsFirst(t, Walk(t, good, good, k), i, c)
  }

  ghost predicate IsFirst(t: seq<Node>, w: seq<nat>, i: nat, c: nat)
    requires InTree(t, w) && c < |t|
  {
    i < |w| && w[i] == c && forall j :: 0 <= j < i ==> t[w[j]].work < t[c].work
  }

  /** All but one of the assertions always hold. */
  lemma AssertedButTies(v: View)
    requires Consistent(v)
    ensures Asserted(v) <==> v.preferred == v.chains[0] || NoPair(v.tree, v.chains, v.knowns)
  {
    PreferredIsHeaviest(v);
    forall x | 0 <= x < |v.tree| && Anc(v.tree, v.knowns[0], x) && Anc(v.tree, x, v.preferred) && x != v.knowns[0]
      ensures x !in v.known
    {
      GoodAncestor(v, x, v.preferred);
      NothingKnownAboveKnown(v, x);
    }
    forall i | 0 <= i < |v.chains| ensures v.chains[i] !in v.bad {
      assert v.chains[i] in v.chains;
    }
    forall i | 0 <= i < |v.knowns| ensures v.knowns[i] !in v.bad {
      assert v.knowns[i] in v.knowns;
    }
  }

  /** preferred_chain, exactly: the first heaviest block met below longest_knowns[0]. */
  lemma PreferredMetFirst(v: View, c: nat)
    requires Consistent(v) && c in Good(v) && Anc(v.tree, v.knowns[0], c)
    requires v.tree[c].work == v.tree[v.preferred].work
    ensures v.preferred == c <==> MetFirst(v.tree, Good(v), v.knowns[0], c)
  {
    var t, k := v.tree, v.knowns[0];
    var w := Walk(t, Good(v), Good(v), k);
    assert k in v.knowns && Heaviest(t, Good(v) * v.known, k);
    var p := FrontIsFirst(t, k, w);
    FirstIsUnique(t, w, p, v.preferred, c);
  }

  lemma FrontIsFirst(t: seq<Node>, k: nat, w: seq<nat>) returns (p: nat)
    requires k < |t| && InTree(t, w) && w != [] && w[0] == k
    ensures IsFirst(t, w, p, Visits(t, [k], w)[0])
  {
    VisitsFront(t, [k], w);
    var f := Visits(t, [k], w)[0];
    if t[f].work == t[k].work {
      p := 0;
    } else {
      p :| 0 <= p < |w| && w[p] == f && forall j :: 0 <= j < p ==> t[w[j]].work < t[f].work;
    }
  }

  lemma FirstIsUnique(t: seq<Node>, w: seq<nat>, p: nat, a: nat, c: nat)
    requires InTree(t, w) && a < |t| && c < |t| && t[a].work == t[c].work && IsFirst(t, w, p, a)
    ensures a == c <==> exists i :: IsFirst(t, w, i, c)
  {
    forall i: nat | IsFirst(t, w, i, c) ensures i == p {
    }
  }

  /** check_chains passes exactly when no longest known leads to a longest chain, or the
      longest chain at the front is also the first one a depth-first walk meets. */
  lemma AssertedExactly(v: View)
    requires Consistent(v)
    ensures Asserted(v) <==>
            || NoPair(v.tree, v.chains, v.knowns)
            || MetFirst(v.tree, Good(v), v.knowns[0], v.chains[0])
  {
    AssertedButTies(v);
    if !NoPair(v.tree, v.chains, v.knowns) {
      var i, j :| 0 <= i < |v.chains| && 0 <= j < |v.knowns| && Connects(v.tree, v.chains, v.knowns, i, j);
      ConnectedPreferredIsLongest(v, i, j);
      assert v.chains[0] in v.chains && Heaviest(v.tree, Good(v), v.chains[0]);
      assert Heaviest(v.tree, Good(v), v.preferred);
      PreferredMetFirst(v, v.chains[0]);
    }
  }

  // ---------------------------------------------------------------- a run that trips check_chains

  /** While the genesis block is the only longest known, every chain hangs below it, so
      nothing is ever swapped. */
  lemma CompetedInOrder(v: View, b: nat, v': View)
    requires Tree(v.tree) && b < |v.tree| && v.knowns == [0]
    requires v.chains != [] && InTree(v.tree, v.chains) && Competed(v, b, v')
    ensures v' == v.(chains := Visit(v.tree, v.chains, b), preferred := v'.preferred)
  {
    var u := v.(chains := Visit(v.tree, v.chains, b));
    if v.tree[b].work >= v.tree[v.chains[0]].work {
      GenesisPrecedes(u.tree, u.chains[0]);
      assert Connects(u.tree, u.chains, u.knowns, 0, 0);
      var i, j :| FirstPair(u.tree, u.chains, u.knowns, i, j)
                && v'.chains == SwapFront(u.chains, i) && v'.knowns == SwapFront(u.knowns, j);
      assert i == 0 && j == 0;
    }
  }

  lemma AddedInOrder(v: View, p: nat, work: nat, v': View)
    requires Consistent(v) && p in Good(v) && work > 0 && BlockAdded(v, p, work, false, v')
    requires v.knowns == [0]
    ensures v.chains != [] && InTree(Extend(v.tree, p, work), v.chains)
    ensures v' == Added(v, p, work, false).(
              chains := Visit(Extend(v.tree, p, work), v.chains, |v.tree|), preferred := v'.preferred)
  {
    AddedReady(v, p, work, false);
    var v1, b := Added(v, p, work, false), |v.tree|;
    var w1, w2 :| CountedVia(v1, b, w1, w2, v');
    CompetedInOrder(v1, b, w1);
    assert b !in v1.full;
  }

  /** Two blocks of equal work, the second found first by the depth-first walk: the last
      assertion of check_chains fails in a reachable state. */
  method TieTripsCheckChains() returns (c: ChainState)
    ensures c.Valid() && !Asserted(c.V())
  {
    c := TwoCousins();
    TieFails(c.V());
  }

  method TwoCousins() returns (c: ChainState)
    ensures fresh(c) && c.Valid() && c.complaint == {} && c.longestKnowns == [0] && c.longestChains == [3, 4]
    ensures c.tree == TieTree()
  {
    c := OneCousin();
    TieGrows();
    var b4 := Grow(c, 1);
  }

  method OneCousin() returns (c: ChainState)
    ensures fresh(c) && c.Valid() && c.complaint == {} && c.longestKnowns == [0] && c.longestChains == [3]
    ensures c.tree == [Node(0, 0, 0, [1, 2]), Node(0, 1, 1, []), Node(0, 1, 1, [3]), Node(2, 2, 2, [])]
  {
    c := TwoSiblings();
    TieGrows();
    var b3 := Grow(c, 2);
  }

  method TwoSiblings() returns (c: ChainState)
    ensures fresh(c) && c.Valid() && c.complaint == {} && c.longestKnowns == [0] && c.longestChains == [1, 2]
    ensures c.tree == [Node(0, 0, 0, [1, 2]), Node(0, 1, 1, []), Node(0, 1, 1, [])]
  {
    TieGrows();
    c := new ChainState(4);
    var b1 := Grow(c, 0);
    var b2 := Grow(c, 0);
  }

  lemma TieGrows()
    ensures Extend([Node(0, 0, 0, [])], 0, 1) == [Node(0, 0, 0, [1]), Node(0, 1, 1, [])]
    ensures Extend([Node(0, 0, 0, [1]), Node(0, 1, 1, [])], 0, 1) ==
            [Node(0, 0, 0, [1, 2]), Node(0, 1, 1, []), Node(0, 1, 1, [])]
    ensures Extend([Node(0, 0, 0, [1, 2]), Node(0, 1, 1, []), Node(0, 1, 1, [])], 2, 1) ==
            [Node(0, 0, 0, [1, 2]), Node(0, 1, 1, []), Node(0, 1, 1, [3]), Node(2, 2, 2, [])]
    ensures Extend([Node(0, 0, 0, [1, 2]), Node(0, 1, 1, []), Node(0, 1, 1, [3]), Node(2, 2, 2, [])], 1, 1) == TieTree()
  {
    var none: seq<nat> := [];
    assert none + [1] == [1] && [1] + [2] == [1, 2] && none + [3] == [3] && none + [4] == [4];
  }

  lemma TieFails(v: View)
    requires Consistent(v) && v.tree == TieTree() && v.bad == {} && v.chains == [3, 4] && v.knowns == [0]
    ensures !Asserted(v)
  {
    TieNotFirst(v);
    AssertedExactly(v);
    GenesisPrecedes(v.tree, 3);
    assert Connects(v.tree, v.chains, v.knowns, 0, 0);
  }

  lemma TieNotFirst(v: View)
    requires Tree(v.tree) && v.tree == TieTree() && v.bad == {}
    ensures !MetFirst(v.tree, Good(v), 0, 3)
  {
    assert Good(v) == {0, 1, 2, 3, 4};
    TieWalk(Good(v));
    var w := Walk(v.tree, Good(v), Good(v), 0);
    assert w[2] == 4 && v.tree[4].work == v.tree[3].work;
  }

  /** A block of work 1 with one transaction that we do not have. */
  method Grow(c: ChainState, prev: nat) returns (b: nat)
    requires c.Valid() && prev < |c.tree| && c.complaint == {} && c.longestKnowns == [0]
    modifies c
    ensures c.Valid() && b == |old(c.tree)| && c.complaint == {} && c.longestKnowns == [0]
    ensures c.tree == Extend(old(c.tree), prev, 1) && old(c.longestChains) != [] && InTree(c.tree, old(c.longestChains))
    ensures c.longestChains == Visit(c.tree, old(c.longestChains), b)
  {
    ghost var v := c.V();
    ghost var kept;
    b, kept := c.AddBlock(prev, 1, [1]);
    assert !ShardAllKnown(FreshShards([1])[0]);
    AddedInOrder(v, prev, 1, c.V());
  }

  function TieTree(): (t: seq<Node>) {
    [Node(0, 0, 0, [1, 2]), Node(0, 1, 1, [4]), Node(0, 1, 1, [3]), Node(2, 2, 2, []), Node(1, 2, 2, [])]
  }

  lemma TieWalk(good: set<nat>)
    requires Tree(TieTree()) && good == {0, 1, 2, 3, 4}
    ensures Walk(TieTree(), good, good, 0) == [0, 1, 4, 2, 3]
  {
    var t := TieTree();
    WalkSmall(t, good, good, 3);
    WalkSmall(t, good, good, 4);
    WalkSmall(t, good, good, 1);
    WalkSmall(t, good, good, 2);
    WalkSmall(t, good, good, 0);
  }
}
