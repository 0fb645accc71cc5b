/**
 The cached answers after a run, said of the events alone.
 */
module ChainHistory {
  import opened BlockTree
  import opened Longest
  import opened ChainInvariant
  import opened ChainEvents
  import opened Chain

  /** A block without a complaint. */
  ghost predicate IsGood(l: Ledger, x: nat) {
    x < |l.prevs| && x !in l.bad
  }

  /** Every shard of the block and of all blocks above it is known. */
  ghost predicate AllKnown(l: Ledger, x: nat) {
    forall a: nat :: a < |l.shards| && Under(l.prevs, a, x) ==> AllShardsKnown(l.shards[a])
  }

  ghost function Work(l: Ledger, x: nat): (w: nat) {
    WorkTo(l.prevs, l.works, x)
  }

  /** No block without a complaint has more work. */
  ghost predicate IsLongest(l: Ledger, x: nat) {
    IsGood(l, x) && forall y: nat :: IsGood(l, y) ==> Work(l, y) <= Work(l, x)
  }

  ghost predicate IsLongestKnown(l: Ledger, x: nat) {
    && IsGood(l, x) && AllKnown(l, x)
    && forall y: nat :: IsGood(l, y) && AllKnown(l, y) ==> Work(l, y) <= Work(l, x)
  }

  /** Among the blocks without a complaint below `k`, none has more work. */
  ghost predicate IsLongestUnder(l: Ledger, k: nat, x: nat) {
    && IsGood(l, x) && Under(l.prevs, k, x)
    && forall y: nat :: IsGood(l, y) && Under(l.prevs, k, y) ==> Work(l, y) <= Work(l, x)
  }

  ghost predicate Tells(l: Ledger, v: View) {
    Describes(l, v.tree) && v.bad == l.bad && |l.shards| == |v.tree| && v.full == FullBlocks(l.shards)
  }

  lemma {:induction false} PathIsAncestors(t: seq<Node>, s: set<nat>, x: nat)
    requires Tree(t) && x < |t|
    ensures Path(t, s, s, 0, x) <==> forall a: nat :: a < |t| && Anc(t, a, x) ==> a in s
    decreases x
  {
    if x != 0 {
      assert Linked(t, x);
      var p := t[x].prev;
      PathIsAncestors(t, s, p);
      assert Anc(t, x, x) && forall a: nat :: a < |t| && Anc(t, a, x) ==> a == x || Anc(t, a, p);
      forall a: nat | a < |t| && Anc(t, a, p) ensures Anc(t, a, x) {
      }
    }
  }

  lemma KnownFromEvents(l: Ledger, v: View, x: nat)
    requires Shape(v) && KnownBut(v, {}) && Tells(l, v) && x < |v.tree| && x !in v.bad
    ensures x in v.known <==> AllKnown(l, x)
  {
    assert x in Good(v);
    PathIsAncestors(v.tree, v.full, x);
    forall a: nat | a < |v.tree| ensures Anc(v.tree, a, x) <==> Under(l.prevs, a, x) {
      AncIsUnder(l, v.tree, a, x);
    }
    forall a: nat | a < |v.tree| ensures a in v.full <==> AllShardsKnown(l.shards[a]) {
    }
  }

  /** longest_chains lists exactly the uncomplained blocks with the largest sum of works from the genesis block. */
  lemma ChainsFromEvents(l: Ledger, v: View, x: nat)
    requires Consistent(v) && Tells(l, v)
    ensures x in v.chains <==> IsLongest(l, x)
  {
    forall y: nat ensures y in Good(v) <==> IsGood(l, y) {
    }
    assert x in v.chains <==> Heaviest(v.tree, Good(v), x);
  }

  /** longest_knowns, the same among those known with all blocks above them. */
  lemma KnownsFromEvents(l: Ledger, v: View, x: nat)
    requires Consistent(v) && Tells(l, v)
    ensures x in v.knowns <==> IsLongestKnown(l, x)
  {
    var s := Good(v) * v.known;
    forall y: nat ensures y in s <==> IsGood(l, y) && AllKnown(l, y) {
      if IsGood(l, y) {
        KnownFromEvents(l, v, y);
      }
    }
    assert x in v.knowns <==> Heaviest(v.tree, s, x);
  }

  /** preferred_chain is one with most work below the first of longest_knowns. */
  lemma PreferredFromEvents(l: Ledger, v: View)
    requires Consistent(v) && Tells(l, v)
    ensures v.knowns != [] && IsLongestUnder(l, v.knowns[0], v.preferred)
  {
    PreferredIsHeaviest(v);
    var k := v.knowns[0];
    AncIsUnder(l, v.tree, k, v.preferred);
    forall y: nat | IsGood(l, y) && Under(l.prevs, k, y) ensures Work(l, y) <= Work(l, v.preferred) {
      AncIsUnder(l, v.tree, k, y);
    }
  }

  /** From the start, after any events whatever. */
  method AfterEvents(genesisShards: nat, events: seq<Event>) returns (c: ChainState)
    ensures c.Valid() && c.Matches(Records(Start(genesisShards), events))
    ensures forall x: nat :: x in c.longestChains <==> IsLongest(Records(Start(genesisShards), events), x)
    ensures forall x: nat :: x in c.longestKnowns <==> IsLongestKnown(Records(Start(genesisShards), events), x)
    ensures c.longestKnowns != []
    ensures IsLongestUnder(Records(Start(genesisShards), events), c.longestKnowns[0], c.preferredChain)
  {
    c := new ChainState(genesisShards);
    ghost var l := Records(Start(genesisShards), events);
    c.Run(events, Start(genesisShards));
    forall x: nat ensures (x in c.longestChains <==> IsLongest(l, x)) && (x in c.longestKnowns <==> IsLongestKnown(l, x)) {
      ChainsFromEvents(l, c.V(), x);
      KnownsFromEvents(l, c.V(), x);
    }
    PreferredFromEvents(l, c.V());
  }
}
