/**
 How a new block can move longest_knowns[0]: new_longest (chain.c:324-350) swaps another known block to the
 front if that one leads to the new block.
 */
module ChainFront {
  import opened BlockTree
  import opened Longest
  import opened ChainInvariant
  import opened ChainSteps

  /** j is the first longest known that leads to `b`. */
  ghost predicate FirstLeading(v: View, b: nat, j: nat)
    requires Tree(v.tree) && b < |v.tree| && InTree(v.tree, v.knowns)
  {
    j < |v.knowns| && Anc(v.tree, v.knowns[j], b) && forall l: nat :: l < j ==> !Anc(v.tree, v.knowns[l], b)
  }

  /** The new block has new_longest look for another front: it has more work than the longest chains, or as
      much and nothing led to those. */
  ghost predicate Overtakes(v: View, b: nat)
    requires Tree(v.tree) && b < |v.tree| && v.chains != [] && InTree(v.tree, v.chains) && InTree(v.tree, v.knowns)
  {
    || v.tree[b].work > v.tree[v.chains[0]].work
    || (v.tree[b].work == v.tree[v.chains[0]].work && NoPair(v.tree, v.chains, v.knowns))
  }

  /** k is longest_knowns[0] after the new block has competed for longest chain. */
  ghost predicate FrontAfter(v: View, b: nat, k: nat)
    requires Tree(v.tree) && b < |v.tree| && v.chains != [] && InTree(v.tree, v.chains)
    requires v.knowns != [] && InTree(v.tree, v.knowns)
  {
    && (forall j: nat :: Overtakes(v, b) && FirstLeading(v, b, j) ==> k == v.knowns[j])
    && ((!Overtakes(v, b) || forall j: nat :: !FirstLeading(v, b, j)) ==> k == v.knowns[0])
  }

  lemma FirstLeadingUnique(v: View, b: nat, i: nat, j: nat)
    requires Tree(v.tree) && b < |v.tree| && InTree(v.tree, v.knowns) && FirstLeading(v, b, i) && FirstLeading(v, b, j)
    ensures i == j
  {
  }

  /** If `b` is the only longest chain, or the one that nothing old competes with, the first pair is the first
      leading known with `b`. */
  lemma PairLeads(v: View, b: nat, chains: seq<nat>, n: nat, i: nat, j: nat)
    requires Tree(v.tree) && b < |v.tree| && InTree(v.tree, v.knowns) && InTree(v.tree, chains)
    requires |chains| == n + 1 && chains[n] == b && FirstPair(v.tree, chains, v.knowns, i, j)
    requires forall k, l :: 0 <= k < n && 0 <= l < |v.knowns| ==> !Connects(v.tree, chains, v.knowns, k, l)
    ensures FirstLeading(v, b, j)
  {
    assert i == n;
    forall l: nat | l < j ensures !Anc(v.tree, v.knowns[l], b) {
      assert !Connects(v.tree, chains, v.knowns, n, l);
    }
  }

  lemma NoneLeads(v: View, b: nat, chains: seq<nat>, n: nat)
    requires Tree(v.tree) && b < |v.tree| && InTree(v.tree, v.knowns) && InTree(v.tree, chains)
    requires n < |chains| && chains[n] == b && NoPair(v.tree, chains, v.knowns)
    ensures forall j: nat :: !FirstLeading(v, b, j)
  {
    forall j: nat ensures !FirstLeading(v, b, j) {
      assert j < |v.knowns| ==> !Connects(v.tree, chains, v.knowns, n, j);
    }
  }

  /** Where something led to the old longest chains, the first pair stays where it is. */
  lemma OldPairFirst(v: View, chains: seq<nat>, i: nat, j: nat)
    requires Tree(v.tree) && InTree(v.tree, v.chains) && InTree(v.tree, v.knowns) && Ordered(v)
    requires !NoPair(v.tree, v.chains, v.knowns) && InTree(v.tree, chains) && v.chains <= chains
    requires FirstPair(v.tree, chains, v.knowns, i, j)
    ensures i == 0 && j == 0
  {
    var k, l :| 0 <= k < |v.chains| && 0 <= l < |v.knowns| && Connects(v.tree, v.chains, v.knowns, k, l);
    assert Connects(v.tree, v.chains, v.knowns, 0, 0);
    assert Connects(v.tree, chains, v.knowns, 0, 0);
  }

  lemma FrontExactly(v: View, b: nat, v': View)
    requires Tree(v.tree) && b < |v.tree| && Tied(v.tree, v.chains) && Tied(v.tree, v.knowns)
    requires Ordered(v) && Competed(v, b, v')
    ensures v'.knowns != [] && FrontAfter(v, b, v'.knowns[0])
  {
    if v.tree[b].work >= v.tree[v.chains[0]].work {
      var u := v.(chains := Visit(v.tree, v.chains, b));
      assert Swapped(u.tree, u.chains, u.knowns, v'.chains, v'.knowns);
      FrontSwapped(v, b, u.chains, v'.chains, v'.knowns);
    }
  }

  lemma FrontSwapped(v: View, b: nat, chains: seq<nat>, chains': seq<nat>, knowns': seq<nat>)
    requires Tree(v.tree) && b < |v.tree| && Tied(v.tree, v.chains) && Tied(v.tree, v.knowns) && Ordered(v)
    requires v.tree[b].work >= v.tree[v.chains[0]].work && chains == Visit(v.tree, v.chains, b) && InTree(v.tree, chains)
    requires Swapped(v.tree, chains, v.knowns, chains', knowns')
    ensures knowns' != [] && FrontAfter(v, b, knowns'[0])
  {
    var n := |chains| - 1;
    assert chains[n] == b;
    if NoPair(v.tree, chains, v.knowns) {
      NoneLeads(v, b, chains, n);
    } else {
      var i: nat, j: nat :| FirstPair(v.tree, chains, v.knowns, i, j) && knowns' == SwapFront(v.knowns, j);
      assert knowns'[0] == v.knowns[j];
      if Overtakes(v, b) {
        OldPairsGone(v, b, chains);
        PairLeads(v, b, chains, n, i, j);
        forall k: nat | FirstLeading(v, b, k) ensures k == j {
          FirstLeadingUnique(v, b, j, k);
        }
      } else {
        OldPairFirst(v, chains, i, j);
      }
    }
  }

  lemma OldPairsGone(v: View, b: nat, chains: seq<nat>)
    requires Tree(v.tree) && b < |v.tree| && Tied(v.tree, v.chains) && InTree(v.tree, v.knowns)
    requires Overtakes(v, b) && chains == Visit(v.tree, v.chains, b) && InTree(v.tree, chains)
    ensures forall k, l :: 0 <= k < |chains| - 1 && 0 <= l < |v.knowns| ==> !Connects(v.tree, chains, v.knowns, k, l)
  {
    forall k, l | 0 <= k < |chains| - 1 && 0 <= l < |v.knowns| ensures !Connects(v.tree, chains, v.knowns, k, l) {
      assert !Connects(v.tree, v.chains, v.knowns, k, l);
    }
  }

  /** What goes back to pending when the front moves from `old` over `kept` to `now`, if only the way from
      `kept` is looked at, is all that should go back if and only if `kept` is `old`. */
  lemma ReturnedExactly(t: seq<Node>, before: seq<nat>, after: seq<nat>, old': nat, kept: nat, now: nat)
    requires Tree(t) && old' < |t| && kept < |t| && now < |t| && t[old'].work == t[kept].work
    requires Moved(t, before, after, kept, now)
    ensures Moved(t, before, after, old', now) <==> kept == old'
  {
    if kept != old' {
      var x := Telling(t, old', kept, now);
      assert x in after[|before|..] <==> Anc(t, x, kept) && !Anc(t, x, now);
    }
  }

  /** Of two blocks with the same work, one tells the ways to `now` apart. */
  lemma Telling(t: seq<Node>, a: nat, b: nat, now: nat) returns (x: nat)
    requires Tree(t) && a < |t| && b < |t| && now < |t| && t[a].work == t[b].work && a != b
    ensures x < |t| && !Anc(t, x, now) && Anc(t, x, a) != Anc(t, x, b)
  {
    SameWorkApart(t, a, b);
    NotBothAbove(t, a, b, now);
    x := if Anc(t, a, now) then b else a;
  }

  lemma NotBothAbove(t: seq<Node>, a: nat, b: nat, now: nat)
    requires Tree(t) && a < |t| && b < |t| && now < |t| && !Anc(t, a, b) && !Anc(t, b, a)
    ensures !Anc(t, a, now) || !Anc(t, b, now)
  {
    if Anc(t, a, now) && Anc(t, b, now) {
      AncLinear(t, a, b, now);
      AncLinear(t, b, a, now);
    }
  }

  lemma SameWorkApart(t: seq<Node>, a: nat, b: nat)
    requires Tree(t) && a < |t| && b < |t| && t[a].work == t[b].work
    ensures a == b || (!Anc(t, a, b) && !Anc(t, b, a))
  {
    if Anc(t, a, b) {
      AncOrder(t, a, b);
    } else if Anc(t, b, a) {
      AncOrder(t, b, a);
    }
  }
}
