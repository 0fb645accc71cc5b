/**
 What check_chains (chain.c:76-153) should be able to rely on: the three cached answers
 about the block tree, stated against the tree itself.
 */
module ChainInvariant {
  import opened BlockTree
  import opened Longest

  /** A snapshot of the chain state.
      `full`: blocks with every shard known; `bad`: blocks with a complaint;
      `known`: the all_known flags. */
  datatype View = View(
    tree: seq<Node>, full: set<nat>, bad: set<nat>, known: set<nat>,
    chains: seq<nat>, knowns: seq<nat>, preferred: nat)

  function All(t: seq<Node>): (s: set<nat>) {
    set i: nat {:trigger t[i]} | 0 <= i < |t|
  }

  function Good(v: View): (s: set<nat>) {
    All(v.tree) - v.bad
  }

  ghost predicate Shape(v: View) {
    && Tree(v.tree)
    && v.full <= All(v.tree) && v.bad <= All(v.tree) && v.known <= All(v.tree)
    && 0 !in v.bad && 0 in v.full && 0 in v.known
    && (forall i :: 0 < i < |v.tree| && v.tree[i].prev in v.bad ==> i in v.bad)
  }

  /** The block and all its ancestors have every shard. */
  ghost predicate PathFull(v: View, x: nat)
    requires Tree(v.tree) && x < |v.tree|
  {
    Path(v.tree, v.full, v.full, 0, x)
  }

  /** all_known is right for every block without a complaint, except perhaps at and below
      blocks of `dirty`, where it may still be unset. */
  ghost predicate KnownBut(v: View, dirty: set<nat>)
    requires Shape(v)
  {
    forall x :: x in Good(v) ==>
      && (x in v.known ==> PathFull(v, x))
      && (PathFull(v, x) ==> x in v.known || exists d :: d in dirty && d < |v.tree| && Anc(v.tree, d, x))
  }

  ghost predicate LongestOk(v: View)
    requires Shape(v)
  {
    && Lists(v.tree, v.chains, Good(v))
    && Lists(v.tree, v.knowns, Good(v) * v.known)
  }

  /** The block update_preferred_chain settles on below `k` (chain.c:187-203). */
  function LongestBelow(t: seq<Node>, good: set<nat>, k: nat): (r: nat)
    requires Tree(t) && k < |t|
    ensures r < |t|
  {
    Visits(t, [k], Walk(t, good, good, k))[0]
  }

  ghost predicate PreferredOk(v: View)
    requires Tree(v.tree)
  {
    v.knowns != [] && v.knowns[0] < |v.tree| && v.preferred == LongestBelow(v.tree, Good(v), v.knowns[0])
  }

  ghost predicate Connects(t: seq<Node>, chains: seq<nat>, knowns: seq<nat>, i: nat, j: nat)
    requires Tree(t) && InTree(t, chains) && InTree(t, knowns)
    requires i < |chains| && j < |knowns|
  {
    Anc(t, knowns[j], chains[i])
  }

  ghost predicate Ordered(v: View)
    requires Tree(v.tree) && InTree(v.tree, v.chains) && InTree(v.tree, v.knowns)
  {
    forall i, j :: 0 <= i < |v.chains| && 0 <= j < |v.knowns| && Connects(v.tree, v.chains, v.knowns, i, j)
      ==> Connects(v.tree, v.chains, v.knowns, 0, 0)
  }

  /** The invariant of every state between two events. */
  ghost predicate Consistent(v: View) {
    && Shape(v)
    && KnownBut(v, {})
    && LongestOk(v)
    && PreferredOk(v)
    && Ordered(v)
  }

  // ---------------------------------------------------------------- consequences

  lemma GoodIsClosed(v: View, x: nat)
    requires Shape(v) && x in Good(v)
    ensures x != 0 ==> v.tree[x].prev in Good(v)
  {
    assert Linked(v.tree, x);
  }

  lemma {:induction false} GoodPath(v: View, b: nat, x: nat)
    requires Shape(v) && b < |v.tree| && x in Good(v) && Anc(v.tree, b, x)
    ensures Path(v.tree, Good(v), Good(v), b, x)
    decreases x
  {
    GoodIsClosed(v, x);
    if x != b {
      GoodPath(v, b, v.tree[x].prev);
    }
  }

  /** An uncomplained block reaches exactly its uncomplained descendants. */
  lemma GoodWalk(v: View, b: nat, x: nat)
    requires Shape(v) && b < |v.tree|
    ensures x in Walk(v.tree, Good(v), Good(v), b) <==> x in Good(v) && Anc(v.tree, b, x)
  {
    WalkVisits(v.tree, Good(v), Good(v), b, x);
    if x < |v.tree| && Path(v.tree, Good(v), Good(v), b, x) {
      PathAnc(v.tree, Good(v), Good(v), b, x);
    }
    if x in Good(v) && Anc(v.tree, b, x) {
      GoodPath(v, b, x);
    }
  }

  /** preferred_chain is a heaviest uncomplained descendant of longest_knowns[0]. */
  lemma PreferredIsHeaviest(v: View)
    requires Shape(v) && LongestOk(v) && PreferredOk(v)
    ensures v.preferred in Good(v) && Anc(v.tree, v.knowns[0], v.preferred)
    ensures forall x :: x in Good(v) && Anc(v.tree, v.knowns[0], x) ==> v.tree[x].work <= v.tree[v.preferred].work
  {
    var k := v.knowns[0];
    assert k in v.knowns && Heaviest(v.tree, Good(v) * v.known, k);
    var w := Walk(v.tree, Good(v), Good(v), k);
    TiedLists(v.tree, [k]);
    VisitsHeaviest(v.tree, [k], Elems([k]), w);
    var r := Visits(v.tree, [k], w);
    assert r[0] in r && Heaviest(v.tree, Elems([k]) + Elems(w), r[0]);
    GoodWalk(v, k, r[0]);
    forall x | x in Good(v) && Anc(v.tree, k, x) ensures v.tree[x].work <= v.tree[v.preferred].work {
      GoodWalk(v, k, x);
      assert x in Elems(w);
    }
  }

  /** Between longest_knowns[0] and preferred_chain nothing is all-known (chain.c:92-98). */
  lemma NothingKnownAboveKnown(v: View, x: nat)
    requires Consistent(v) && x < |v.tree|
    requires Anc(v.tree, v.knowns[0], x) && x != v.knowns[0] && x in Good(v)
    ensures x !in v.known
  {
    var k := v.knowns[0];
    assert k in v.knowns && Heaviest(v.tree, Good(v) * v.known, k);
    AncOrder(v.tree, k, x);
  }

  /** If any longest known block leads to any longest chain, then longest_knowns[0] leads to
      longest_chains[0], and the preferred chain is itself one of the longest chains. */
  lemma ConnectedPreferredIsLongest(v: View, i: nat, j: nat)
    requires Consistent(v) && i < |v.chains| && j < |v.knowns|
    requires Anc(v.tree, v.knowns[j], v.chains[i])
    ensures Anc(v.tree, v.knowns[0], v.chains[0])
    ensures v.preferred in v.chains
  {
    assert Connects(v.tree, v.chains, v.knowns, i, j);
    assert Connects(v.tree, v.chains, v.knowns, 0, 0);
    var c := v.chains[0];
    assert c in v.chains && Heaviest(v.tree, Good(v), c);
    PreferredIsHeaviest(v);
    assert Heaviest(v.tree, Good(v), v.preferred);
  }

  /** If no longest known block leads to a longest chain, the preferred chain has less work. */
  lemma DisconnectedPreferredIsShorter(v: View)
    requires Consistent(v)
    requires forall i, j :: 0 <= i < |v.chains| && 0 <= j < |v.knowns| ==> !Connects(v.tree, v.chains, v.knowns, i, j)
    ensures v.tree[v.preferred].work < v.tree[v.chains[0]].work
  {
    PreferredIsHeaviest(v);
    assert v.chains[0] in v.chains && Heaviest(v.tree, Good(v), v.chains[0]);
    forall i | 0 <= i < |v.chains| ensures v.chains[i] != v.preferred {
      assert !Connects(v.tree, v.chains, v.knowns, i, 0);
    }
    assert !Heaviest(v.tree, Good(v), v.preferred);
  }
}
