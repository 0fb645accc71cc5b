/**
 The chain part of `struct state` (chain.c, block.c, complain.c): the block tree, the
 all_known and complaint marks, and the three cached answers longest_chains,
 longest_knowns and preferred_chain.
 */
module Chain {
  import opened Wrappers
  import opened Sequences
  import opened ChainEvents
  import opened BlockTree
  import opened Longest
  import opened StepTowards
  import opened ChainInvariant
  import opened ChainSteps
  import opened ChainFront

  ghost function FullBlocks(blocks: seq<seq<Shard>>): (s: set<nat>) {
    set b: nat | 0 <= b < |blocks| && AllShardsKnown(blocks[b])
  }

  /** The loop of block_all_known, block.c:148-157. */
  method BlockAllKnown(shards: seq<Shard>) returns (r: bool)
    ensures r <==> AllShardsKnown(shards)
  {
    for i := 0 to |shards|
      invariant forall k :: 0 <= k < i ==> ShardAllKnown(shards[k])
    {
      if !ShardAllKnown(shards[i]) {
        return false;
      }
    }
    return true;
  }

  lemma FullBlocksAppend(blocks: seq<seq<Shard>>, shards: seq<Shard>)
    ensures FullBlocks(blocks + [shards]) ==
            if AllShardsKnown(shards) then FullBlocks(blocks) + {|blocks|} else FullBlocks(blocks)
  {
  }

  /** `x` is one of the blocks of `bs`, or below one. */
  ghost predicate CoveredBy(t: seq<Node>, bs: seq<nat>, x: nat)
    requires Tree(t)
  {
    x < |t| && exists i :: 0 <= i < |bs| && bs[i] < |t| && Anc(t, bs[i], x)
  }

  /** The blocks that complaints send back to pending, one complaint after the other. */
  ghost function SentBack(t: seq<Node>, bad: set<nat>, complaints: seq<nat>): (r: seq<nat>)
    requires Tree(t) && forall i :: 0 <= i < |complaints| ==> complaints[i] < |t|
    decreases |complaints|
  {
    if complaints == [] then []
    else if complaints[0] in bad then SentBack(t, bad, complaints[1..])
    else
      var w := Walk(t, All(t), All(t), complaints[0]);
      w + SentBack(t, bad + Elems(w), complaints[1..])
  }

  lemma SentBackCons(t: seq<Node>, complaints: seq<nat>, before: set<nat>, marked: set<nat>, base: seq<nat>)
    requires Tree(t) && complaints != [] && forall i :: 0 <= i < |complaints| ==> complaints[i] < |t|
    requires forall x: nat :: x in marked <==> x in before || (x < |t| && Anc(t, complaints[0], x))
    requires complaints[0] in before ==> marked == before
    ensures var w := if complaints[0] in before then [] else Walk(t, All(t), All(t), complaints[0]);
      base + SentBack(t, before, complaints) == base + w + SentBack(t, marked, complaints[1..])
  {
    if complaints[0] !in before {
      var w := Walk(t, All(t), All(t), complaints[0]);
      forall x: nat ensures x in Elems(w) <==> x < |t| && Anc(t, complaints[0], x) {
        ComplaintReaches(t, complaints[0], x);
      }
      assert marked == before + Elems(w);
    }
  }

  lemma CoveredByCons(t: seq<Node>, bs: seq<nat>, before: set<nat>, marked: set<nat>, after: set<nat>)
    requires Tree(t) && bs != [] && bs[0] < |t|
    requires forall x: nat :: x in marked <==> x in before || (x < |t| && Anc(t, bs[0], x))
    requires forall x: nat :: x in after <==> x in marked || CoveredBy(t, bs[1..], x)
    ensures forall x: nat :: x in after <==> x in before || CoveredBy(t, bs, x)
  {
    forall x: nat ensures CoveredBy(t, bs, x) <==> (x < |t| && Anc(t, bs[0], x)) || CoveredBy(t, bs[1..], x) {
      if CoveredBy(t, bs[1..], x) {
        var i :| 0 <= i < |bs[1..]| && bs[1..][i] < |t| && Anc(t, bs[1..][i], x);
        assert bs[i + 1] == bs[1..][i];
      }
      if CoveredBy(t, bs, x) {
        var i :| 0 <= i < |bs| && bs[i] < |t| && Anc(t, bs[i], x);
        if i > 0 { assert bs[1..][i - 1] == bs[i]; }
      }
    }
  }

  /** The tree is the one the ledger describes. */
  ghost predicate Describes(l: Ledger, t: seq<Node>) {
    && |t| == |l.prevs| == |l.works|
    && forall i: nat :: i < |t| ==> t[i].prev == l.prevs[i] && t[i].work == WorkTo(l.prevs, l.works, i)
  }

  ghost predicate IsRecordOf(l: Ledger, t: seq<Node>, shards: seq<seq<Shard>>, bad: set<nat>) {
    Describes(l, t) && shards == l.shards && bad == l.bad
  }

  lemma {:induction false} AncIsUnder(l: Ledger, t: seq<Node>, a: nat, b: nat)
    requires Tree(t) && Describes(l, t) && a < |t| && b < |t|
    ensures Anc(t, a, b) <==> Under(l.prevs, a, b)
    decreases b
  {
    if b != 0 {
      assert Linked(t, b);
      AncIsUnder(l, t, a, t[b].prev);
    }
  }

  lemma DescribesMore(l: Ledger, t: seq<Node>, e: Event)
    requires Tree(t) && Describes(l, t) && e.NewBlock? && CanHappen(|l.prevs|, l.shards, e)
    ensures Describes(Record(l, e), Extend(t, e.prev, e.work))
  {
    var l', t' := Record(l, e), Extend(t, e.prev, e.work);
    ExtendTree(t, e.prev, e.work);
    forall i: nat | i < |t'| ensures t'[i].prev == l'.prevs[i] && t'[i].work == WorkTo(l'.prevs, l'.works, i) {
      if i < |t| {
        WorkToStays(l.prevs, l.works, l'.prevs, l'.works, i);
      } else {
        WorkToStays(l.prevs, l.works, l'.prevs, l'.works, e.prev);
      }
    }
  }

  lemma ComplaintsRecorded(l: Ledger, t: seq<Node>, before: set<nat>, complaints: seq<nat>, after: set<nat>)
    requires Tree(t) && Describes(l, t) && before == l.bad
    requires forall i :: 0 <= i < |complaints| ==> complaints[i] < |t|
    requires forall x: nat :: x in after <==> x in before || CoveredBy(t, complaints, x)
    ensures after == l.bad + AllUnder(l.prevs, complaints)
  {
    forall x: nat ensures CoveredBy(t, complaints, x) <==> x in AllUnder(l.prevs, complaints) {
      if CoveredBy(t, complaints, x) {
        var i: nat :| i < |complaints| && complaints[i] < |t| && Anc(t, complaints[i], x);
        AncIsUnder(l, t, complaints[i], x);
      }
      if x < |t| && UnderAny(l.prevs, complaints, x) {
        var i: nat :| i < |complaints| && Under(l.prevs, complaints[i], x);
        AncIsUnder(l, t, complaints[i], x);
      }
    }
  }

  /** What a new block sends back to pending: the blocks above `kept` that are not above the new
      longest_knowns[0], where `kept` is the old one, or the one that new_longest has put in its place. */
  ghost predicate SendsBack(v: View, prev: nat, work: nat, full: bool, v': View, kept: nat, before: seq<nat>, after: seq<nat>)
    requires Consistent(v) && prev < |v.tree| && work > 0 && Consistent(v')
  {
    AddedReady(v, prev, work, full);
    && (if prev in v.bad then kept == v.knowns[0] else FrontAfter(Added(v, prev, work, full), |v.tree|, kept))
    && kept < |v'.tree| && Moved(v'.tree, before, after, kept, v'.knowns[0])
  }

  /** all_known does not depend on the cached answers. */
  lemma KnownButSame(v: View, v': View, dirty: set<nat>)
    requires Shape(v) && KnownBut(v, dirty)
    requires v' == v.(chains := v'.chains, knowns := v'.knowns, preferred := v'.preferred)
    ensures Shape(v') && KnownBut(v', dirty)
  {
    forall x | x in Good(v') ensures PathFull(v', x) <==> PathFull(v, x) {
    }
  }

  lemma SwappedInTree(t: seq<Node>, chains: seq<nat>, knowns: seq<nat>, chains': seq<nat>, knowns': seq<nat>)
    requires Tree(t) && InTree(t, chains) && InTree(t, knowns) && knowns != []
    requires Swapped(t, chains, knowns, chains', knowns')
    ensures knowns' != [] && InTree(t, knowns')
  {
  }

  lemma NothingAboveGenesis(t: seq<Node>, before: seq<nat>, after: seq<nat>, now: nat)
    requires Tree(t) && now < |t| && Moved(t, before, after, 0, now)
    ensures after == before
  {
    GenesisPrecedes(t, now);
    var new' := after[|before|..];
    assert forall x: nat :: x !in new';
    HasElement(new');
    assert after == before + new';
  }

  /** With a complaint on the genesis block the recursion goes nowhere. */
  lemma NothingLearned(v: View)
    requires Tree(v.tree) && 0 in v.bad && v.knowns == [0]
    ensures Learned(v, 0).knowns == [0]
  {
    var fg := v.full * Good(v);
    assert Walk(v.tree, fg, fg, 0) == [];
  }

  /** The inner loop of find_connected_pair: a longest known that leads to chain `i`. */
  method FindKnownBelow(t: seq<Node>, chains: seq<nat>, knowns: seq<nat>, i: nat) returns (r: Option<nat>)
    requires Tree(t) && InTree(t, chains) && InTree(t, knowns) && i < |chains|
    ensures r.None? ==> forall l :: 0 <= l < |knowns| ==> !Connects(t, chains, knowns, i, l)
    ensures r.Some? ==>
              && r.value < |knowns| && Connects(t, chains, knowns, i, r.value)
              && forall l :: 0 <= l < r.value ==> !Connects(t, chains, knowns, i, l)
  {
    for j := 0 to |knowns|
      invariant forall l :: 0 <= l < j ==> !Connects(t, chains, knowns, i, l)
    {
      BlockPreceedsIsAncestry(t, knowns[j], chains[i]);
      if BlockPreceeds(t, knowns[j], chains[i]) {
        return Some(j);
      }
    }
    return None;
  }

  class ChainState {
    var tree: seq<Node>
    var shards: seq<seq<Shard>>
    var allKnown: set<nat>
    var complaint: set<nat>
    var longestChains: seq<nat>
    var longestKnowns: seq<nat>
    var preferredChain: nat
    /** Blocks whose transactions were sent back to pending, in order. */
    var stolen: seq<nat>

    ghost function V(): (v: View)
      reads this
    {
      View(tree, FullBlocks(shards), complaint, allKnown, longestChains, longestKnowns, preferredChain)
    }

    ghost predicate Valid()
      reads this
    {
      |shards| == |tree| && Consistent(V())
    }

    /** The state is what the ledger records. */
    ghost predicate Matches(l: Ledger)
      reads this
    {
      IsRecordOf(l, tree, shards, complaint)
    }

    /** Enough structure for the pointer-chasing helpers to run. */
    ghost predicate Sane()
      reads this
    {
      && |shards| == |tree| && Tree(tree)
      && Tied(tree, longestChains) && Tied(tree, longestKnowns)
    }

    /** new_state, state.c:21-69: the genesis block has no transactions and is known. */
    constructor (genesisShards: nat)
      ensures Valid() && fresh(this)
      ensures tree == [Node(0, 0, 0, [])]
      ensures Matches(Start(genesisShards))
      ensures longestChains == [0] && longestKnowns == [0] && preferredChain == 0 && complaint == {} && stolen == []
    {
      tree := [Node(0, 0, 0, [])];
      shards := [GenesisShards(genesisShards)];
      allKnown := {0};
      complaint := {};
      longestChains := [0];
      longestKnowns := [0];
      preferredChain := 0;
      stolen := [];
      new;
      assert AllShardsKnown(shards[0]);
      assert FullBlocks(shards) == {0};
      GenesisConsistent(V());
    }

    /** find_longest_descendents, chain.c:163-184. */
    method FindLongestDescendents(b: nat, bests: seq<nat>) returns (r: seq<nat>)
      requires Tree(tree) && b < |tree| && bests != [] && InTree(tree, bests)
      ensures var good := All(tree) - complaint;
              r == Visits(tree, bests, Walk(tree, good, good, b))
      decreases |tree| - b
    {
      ghost var good := All(tree) - complaint;
      if b in complaint {
        return bests;
      }
      r := Visit(tree, bests, b);
      var cs := tree[b].children;
      VisitSeen(tree, good, good, b, 0, bests);
      for i := 0 to |cs|
        invariant r == Visits(tree, bests, Seen(tree, good, good, b, i))
      {
        VisitSeen(tree, good, good, b, i + 1, bests);
        r := FindLongestDescendents(cs[i], r);
      }
      SeenSteps(tree, good, good, b, |cs|);
    }

    /** update_preferred_chain, chain.c:187-203. */
    method UpdatePreferredChain() returns (changed: bool)
      requires Tree(tree) && longestKnowns != [] && InTree(tree, longestKnowns)
      modifies this`preferredChain
      ensures PreferredOk(V())
      ensures changed <==> preferredChain != old(preferredChain)
    {
      var arr := FindLongestDescendents(longestKnowns[0], [longestKnowns[0]]);
      changed := arr[0] != preferredChain;
      preferredChain := arr[0];
    }

    /** find_connected_pair, chain.c:58-74. */
    method FindConnectedPair() returns (r: Option<(nat, nat)>)
      requires Tree(tree) && InTree(tree, longestChains) && InTree(tree, longestKnowns)
      ensures r.None? ==> NoPair(tree, longestChains, longestKnowns)
      ensures r.Some? ==> FirstPair(tree, longestChains, longestKnowns, r.value.0, r.value.1)
    {
      for i := 0 to |longestChains|
        invariant forall k, l :: 0 <= k < i && 0 <= l < |longestKnowns| ==> !Connects(tree, longestChains, longestKnowns, k, l)
      {
        var j := FindKnownBelow(tree, longestChains, longestKnowns, i);
        if j.Some? {
          return Some((i, j.value));
        }
      }
      return None;
    }

    /** order_block_pointers, chain.c:213-227. */
    method OrderBlockPointers()
      requires Sane()
      modifies this`longestChains, this`longestKnowns
      ensures Swapped(tree, old(longestChains), old(longestKnowns), longestChains, longestKnowns)
    {
      var pair := FindConnectedPair();
      if pair.Some? {
        var (i, j) := pair.value;
        if i == 0 && j == 0 {
          assert SwapFront(longestChains, 0) == longestChains && SwapFront(longestKnowns, 0) == longestKnowns;
        } else {
          longestChains := SwapFront(longestChains, i);
          longestKnowns := SwapFront(longestKnowns, j);
        }
      }
    }

    /** order_block_pointers followed by update_preferred_chain. */
    method OrderAndPrefer()
      requires Sane()
      modifies this`longestChains, this`longestKnowns, this`preferredChain
      ensures Reordered(old(V()), V())
    {
      OrderBlockPointers();
      SwappedInTree(tree, old(longestChains), old(longestKnowns), longestChains, longestKnowns);
      var _ := UpdatePreferredChain();
    }

    /** update_known_recursive, chain.c:230-275. */
    method UpdateKnownRecursive(b: nat) returns (changed: bool)
      requires Tree(tree) && |shards| == |tree| && b < |tree| && Tied(tree, longestKnowns)
      modifies this`allKnown, this`longestKnowns
      ensures V() == if b != 0 && tree[b].prev !in old(allKnown) then old(V()) else Learned(old(V()), b)
      ensures Tied(tree, longestKnowns)
      ensures changed <==> longestKnowns != old(longestKnowns)
      decreases |tree| - b, 1
    {
      ghost var v0 := V();
      if b != 0 && tree[b].prev !in allKnown {
        return false;
      }
      LearnedStart(v0, b);
      var known := BlockAllKnown(shards[b]);
      if !known {
        return false;
      }
      allKnown := allKnown + {b};
      if b in complaint {
        return false;
      }
      LearnedChange(v0, b, 0);
      changed := tree[b].work >= tree[longestKnowns[0]].work;
      longestKnowns := Visit(tree, longestKnowns, b);
      assert V() == LearnedUpTo(v0, b, 0);
      changed := UpdateKnownChildren(b, changed, v0);
    }

    /** The loop of chain.c:269-273. */
    method UpdateKnownChildren(b: nat, before: bool, ghost v0: View) returns (changed: bool)
      requires |shards| == |tree| && Tree(v0.tree) && b < |v0.tree| && Tied(v0.tree, v0.knowns)
      requires V() == LearnedUpTo(v0, b, 0)
      requires before <==> longestKnowns != v0.knowns
      modifies this`allKnown, this`longestKnowns
      ensures V() == LearnedUpTo(v0, b, |tree[b].children|)
      ensures Tied(tree, longestKnowns)
      ensures changed <==> longestKnowns != v0.knowns
      decreases |tree| - b, 0
    {
      changed := before;
      LearnedChange(v0, b, 0);
      var cs := tree[b].children;
      for i := 0 to |cs|
        invariant V() == LearnedUpTo(v0, b, i)
        invariant Tied(tree, longestKnowns)
        invariant changed <==> longestKnowns != v0.knowns
      {
        LearnedStep(v0, b, i);
        LearnedChange(v0, b, i + 1);
        var c := UpdateKnownRecursive(cs[i]);
        if c {
          changed := true;
        }
      }
    }

    /** update_known, chain.c:298-319. */
    method UpdateKnown(b: nat) returns (changed: bool)
      requires Sane() && b < |tree|
      modifies this`allKnown, this`longestChains, this`longestKnowns, this`preferredChain, this`stolen
      ensures KnownUpdated(old(V()), b, V())
      ensures longestKnowns != [] && longestKnowns[0] < |tree|
      ensures Moved(tree, old(stolen), stolen, old(longestKnowns)[0], longestKnowns[0])
    {
      var prevKnown := longestKnowns[0];
      changed := UpdateKnownRecursive(b);
      if !changed {
        NothingMoved(tree, stolen, prevKnown);
        return;
      }
      ghost var v1 := V();
      OrderAndPrefer();
      assert Reordered(v1, V());
      if longestKnowns[0] != prevKnown {
        var moved := StealPendingTxs(tree, prevKnown, longestKnowns[0]);
        stolen := stolen + moved;
        assert stolen[|old(stolen)|..] == moved;
      } else {
        NothingMoved(tree, stolen, prevKnown);
      }
    }

    /** The first half of update_block_ptrs_new_block (chain.c:386-400) for the new block `b`. */
    method CompeteForLongest(b: nat)
      requires |shards| == |tree| && b < |tree| && Shape(V()) && KnownBut(V(), {b})
      requires InTree(tree, longestChains) && longestChains != [] && Tied(tree, longestKnowns)
      requires LongestOk(V().(chains := Visit(tree, longestChains, b)))
      requires Tied(tree, longestChains) && Ordered(V())
      modifies this`longestChains, this`longestKnowns, this`preferredChain
      ensures Competed(old(V()), b, V())
      ensures var v := old(V()); V() == v.(chains := longestChains, knowns := longestKnowns, preferred := preferredChain)
      ensures LongestOk(V()) && Ordered(V())
    {
      if tree[b].work >= tree[longestChains[0]].work {
        longestChains := Visit(tree, longestChains, b);
        ghost var v := V();
        OrderAndPrefer();
        ReorderedKeeps(v, V(), {b});
      } else {
        assert Visit(tree, longestChains, b) == longestChains;
      }
    }

    /** ... and which longest known it leaves in front. */
    method CompeteForFront(b: nat) returns (ghost kept: nat)
      requires |shards| == |tree| && b < |tree| && Shape(V()) && KnownBut(V(), {b})
      requires InTree(tree, longestChains) && longestChains != [] && Tied(tree, longestKnowns)
      requires LongestOk(V().(chains := Visit(tree, longestChains, b)))
      requires Tied(tree, longestChains) && Ordered(V())
      modifies this`longestChains, this`longestKnowns, this`preferredChain
      ensures Competed(old(V()), b, V())
      ensures var v := old(V()); V() == v.(chains := longestChains, knowns := longestKnowns, preferred := preferredChain)
      ensures LongestOk(V()) && Ordered(V()) && KnownBut(V(), {b})
      ensures kept == longestKnowns[0] < |tree| && FrontAfter(old(V()), b, kept)
    {
      ghost var v := V();
      CompeteForLongest(b);
      FrontExactly(v, b, V());
      KnownButSame(v, V(), {b});
      kept := longestKnowns[0];
    }

    /** update_block_ptrs_new_block, chain.c:382-416. */
    method UpdateBlockPtrsNewBlock(b: nat) returns (ghost kept: nat)
      requires |shards| == |tree| && b < |tree| && Shape(V()) && KnownBut(V(), {b})
      requires InTree(tree, longestChains) && longestChains != [] && Tied(tree, longestKnowns)
      requires LongestOk(V().(chains := Visit(tree, longestChains, b)))
      requires Tied(tree, longestChains) && Ordered(V())
      modifies this`allKnown, this`longestChains, this`longestKnowns, this`preferredChain, this`stolen
      ensures Valid()
      ensures NewBlockCounted(old(V()), b, V())
      ensures kept < |tree| && FrontAfter(old(V()), b, kept)
      ensures Moved(tree, old(stolen), stolen, kept, longestKnowns[0])
    {
      ghost var v0 := V();
      kept := CompeteForFront(b);
      ghost var v1 := V();
      ghost var v2 := KnowNewBlock(b);
      CountedBy(v0, b, v1, v2, V());
    }

    /** chain.c:410-415 */
    method KnowNewBlock(b: nat) returns (ghost v2: View)
      requires |shards| == |tree| && b < |tree| && Shape(V()) && KnownBut(V(), {b}) && LongestOk(V()) && Ordered(V())
      modifies this`allKnown, this`longestChains, this`longestKnowns, this`preferredChain, this`stolen
      ensures Valid() && V() == v2.(preferred := preferredChain)
      ensures if b in FullBlocks(shards) then KnownUpdated(old(V()), b, v2) else v2 == old(V())
      ensures Moved(tree, old(stolen), stolen, old(longestKnowns)[0], longestKnowns[0])
    {
      UpdateKnownIfFull(b);
      v2 := V();
      var _ := UpdatePreferredChain();
      PreferredSettles(v2, V());
    }

    /** chain.c:410-412 and chain.c:424-426. */
    method UpdateKnownIfFull(b: nat)
      requires |shards| == |tree| && b < |tree| && Shape(V()) && KnownBut(V(), {b}) && LongestOk(V()) && Ordered(V())
      modifies this`allKnown, this`longestChains, this`longestKnowns, this`preferredChain, this`stolen
      ensures if b in FullBlocks(shards) then KnownUpdated(old(V()), b, V()) else V() == old(V())
      ensures Shape(V()) && KnownBut(V(), {}) && LongestOk(V()) && Ordered(V())
      ensures old(PreferredOk(V())) ==> PreferredOk(V())
      ensures Moved(tree, old(stolen), stolen, old(longestKnowns)[0], longestKnowns[0])
    {
      ghost var v := V();
      NothingMoved(tree, stolen, longestKnowns[0]);
      var known := BlockAllKnown(shards[b]);
      if known {
        var _ := UpdateKnown(b);
        KnownUpdatedSettles(v, b, V());
      } else {
        NotFullSettles(v, b);
      }
    }

    /** block_add, block.c:79-129. */
    method AddBlock(prev: nat, work: nat, sizes: seq<nat>) returns (b: nat, ghost kept: nat)
      requires Valid() && prev < |tree| && work > 0
      modifies this
      ensures Valid()
      ensures b == |old(tree)| && tree == Extend(old(tree), prev, work)
      ensures shards == old(shards) + [FreshShards(sizes)]
      ensures complaint == if prev in old(complaint) then old(complaint) + {b} else old(complaint)
      ensures BlockAdded(old(V()), prev, work, AllShardsKnown(FreshShards(sizes)), V())
      ensures SendsBack(old(V()), prev, work, AllShardsKnown(FreshShards(sizes)), V(), kept, old(stolen), stolen)
    {
      ghost var v0 := V();
      ghost var full := AllShardsKnown(FreshShards(sizes));
      b := LinkBlock(prev, work, sizes);
      kept := CountBlock(b, v0, prev, work, full);
    }

    /** block.c:118-125, after the new block has been linked in. */
    method CountBlock(b: nat, ghost v0: View, ghost prev: nat, ghost work: nat, ghost full: bool) returns (ghost kept: nat)
      requires Consistent(v0) && prev < |v0.tree| && work > 0 && b == |v0.tree|
      requires |shards| == |tree| && V() == Added(v0, prev, work, full)
      modifies this`allKnown, this`longestChains, this`longestKnowns, this`preferredChain, this`stolen
      ensures Valid() && BlockAdded(v0, prev, work, full, V())
      ensures SendsBack(v0, prev, work, full, V(), kept, old(stolen), stolen)
    {
      if b in complaint {
        AddedBad(v0, prev, work, full);
        kept := longestKnowns[0];
        NothingMoved(tree, stolen, kept);
      } else {
        kept := CountGoodBlock(b, v0, prev, work, full);
      }
    }

    method CountGoodBlock(b: nat, ghost v0: View, ghost prev: nat, ghost work: nat, ghost full: bool) returns (ghost kept: nat)
      requires Consistent(v0) && prev < |v0.tree| && work > 0 && b == |v0.tree|
      requires |shards| == |tree| && V() == Added(v0, prev, work, full) && b !in complaint
      modifies this`allKnown, this`longestChains, this`longestKnowns, this`preferredChain, this`stolen
      ensures Valid() && BlockAdded(v0, prev, work, full, V())
      ensures SendsBack(v0, prev, work, full, V(), kept, old(stolen), stolen)
    {
      AddedGood(v0, prev, work, full);
      kept := UpdateBlockPtrsNewBlock(b);
    }

    /** The list work of block_add, block.c:94-118. */
    method LinkBlock(prev: nat, work: nat, sizes: seq<nat>) returns (b: nat)
      requires |shards| == |tree| && prev < |tree|
      requires |tree| !in complaint
      modifies this`tree, this`shards, this`complaint
      ensures b == |old(tree)| && |shards| == |tree| == b + 1
      ensures shards == old(shards) + [FreshShards(sizes)]
      ensures complaint == if prev in old(complaint) then old(complaint) + {b} else old(complaint)
      ensures V() == Added(old(V()), prev, work, AllShardsKnown(FreshShards(sizes)))
    {
      b := |tree|;
      tree := Extend(tree, prev, work);
      shards := shards + [FreshShards(sizes)];
      FullBlocksAppend(old(shards), FreshShards(sizes));
      if prev in complaint {
        complaint := complaint + {b};
      }
    }

    /** One more transaction of shard `s` is known; nothing has been told about it yet. */
    method CountTx(b: nat, s: nat)
      requires Valid() && b < |tree| && s < |shards[b]| && shards[b][s].txcount < shards[b][s].size
      modifies this`shards
      ensures shards == old(shards)[b := old(shards)[b][s := Shard(old(shards)[b][s].size, old(shards)[b][s].txcount + 1)]]
      ensures Unsettled(b)
    {
      var sh := shards[b][s];
      ghost var v0 := V();
      shards := shards[b := shards[b][s := Shard(sh.size, sh.txcount + 1)]];
      FullAfter(old(shards), b, s);
      FilledKnown(v0, V(), b);
      OrderedSame(v0, V());
    }

    /** All is well, except that `b` and its descendants may have become all-known unnoticed. */
    ghost predicate Unsettled(b: nat)
      reads this
    {
      && |shards| == |tree| && b < |tree|
      && Shape(V()) && KnownBut(V(), {b}) && LongestOk(V()) && PreferredOk(V()) && Ordered(V())
    }

    /** put_tx_in_shard as far as the chain sees it (check_block.c:232-246): one more
        transaction is known; checking what it resolves may raise complaints; if the
        shard is now complete, update_block_ptrs_new_shard (chain.c:420-427) runs. */
    method PutTx(b: nat, s: nat, complaints: seq<nat>) returns (ghost kept: nat)
      requires Valid() && b < |tree| && s < |shards[b]| && shards[b][s].txcount < shards[b][s].size
      requires forall i :: 0 <= i < |complaints| ==> 0 < complaints[i] < |tree|
      modifies this
      ensures Valid()
      ensures tree == old(tree)
      ensures shards == old(shards)[b := old(shards)[b][s := Shard(old(shards)[b][s].size, old(shards)[b][s].txcount + 1)]]
      ensures forall x: nat :: x in complaint <==> x in old(complaint) || CoveredBy(tree, complaints, x)
      ensures var complained := old(stolen) + SentBack(tree, old(complaint), complaints);
        kept < |tree| && (complaints == [] ==> kept == old(longestKnowns)[0]) && Moved(tree, complained, stolen, kept, longestKnowns[0])
    {
      CountTx(b, s);
      PublishComplaints(complaints, b);
      kept := longestKnowns[0];
      NothingMoved(tree, stolen, kept);
      if ShardAllKnown(shards[b][s]) {
        UpdateBlockPtrsNewShard(b);
      } else {
        NotFullSettles(V(), b);
      }
    }

    /** The complaints that check_resolved_txs (check_block.c:176-197) may end in. */
    method PublishComplaints(complaints: seq<nat>, ghost unsettled: nat)
      requires Unsettled(unsettled)
      requires forall i :: 0 <= i < |complaints| ==> 0 < complaints[i] < |tree|
      modifies this
      ensures tree == old(tree) && shards == old(shards) && Unsettled(unsettled)
      ensures forall x: nat :: x in complaint <==> x in old(complaint) || CoveredBy(tree, complaints, x)
      ensures stolen == old(stolen) + SentBack(tree, old(complaint), complaints)
      ensures complaints == [] ==> longestKnowns == old(longestKnowns)
      decreases |complaints|
    {
      if complaints != [] {
        PublishComplaint(complaints[0], unsettled);
        ghost var marked := complaint;
        SentBackCons(tree, complaints, old(complaint), marked, old(stolen));
        PublishComplaints(complaints[1..], unsettled);
        CoveredByCons(tree, complaints, old(complaint), marked, complaint);
      }
    }

    /** update_block_ptrs_new_shard, chain.c:420-427. */
    method UpdateBlockPtrsNewShard(b: nat)
      requires Unsettled(b)
      modifies this`allKnown, this`longestChains, this`longestKnowns, this`preferredChain, this`stolen
      ensures Valid()
      ensures Moved(tree, old(stolen), stolen, old(longestKnowns)[0], longestKnowns[0])
    {
      UpdateKnownIfFull(b);
    }

    /** complaint_on_all, complain.c:12-34: the mark, and block_to_pending. */
    method ComplaintOnAll(b: nat)
      requires Tree(tree) && b < |tree|
      modifies this`complaint, this`stolen
      ensures complaint == old(complaint) + Elems(Walk(tree, All(tree), All(tree), b))
      ensures stolen == old(stolen) + Walk(tree, All(tree), All(tree), b)
      decreases |tree| - b, 1
    {
      complaint := complaint + {b};
      stolen := stolen + [b];
      ComplaintStep(tree, b, 0);
      for i := 0 to |tree[b].children|
        invariant SeenMarked(tree, b, i, old(complaint), old(stolen), complaint, stolen)
      {
        ComplaintOnChild(b, i, old(complaint), old(stolen));
      }
      ComplaintStep(tree, b, |tree[b].children|);
    }

    method ComplaintOnChild(b: nat, i: nat, ghost complaint0: set<nat>, ghost stolen0: seq<nat>)
      requires Tree(tree) && b < |tree| && i < |tree[b].children| && SeenMarked(tree, b, i, complaint0, stolen0, complaint, stolen)
      modifies this`complaint, this`stolen
      ensures SeenMarked(tree, b, i + 1, complaint0, stolen0, complaint, stolen)
      decreases |tree| - b, 0
    {
      ghost var before, listed := complaint, stolen;
      ComplaintStep(tree, b, i + 1);
      ComplaintOnAll(tree[b].children[i]);
      ComplaintMore(tree, b, i, complaint0, stolen0, before, listed, complaint, stolen);
    }

    /** publish_complaint (complain.c:36-60) and update_block_ptrs_invalidated (chain.c:438-450).
        It may be called while `unsettled` has not been brought up to date yet.  After a complaint
        on the genesis block nothing good is left, and all pointers are back at the genesis block. */
    method PublishComplaint(b: nat, ghost unsettled: nat)
      requires Unsettled(unsettled) && b < |tree|
      modifies this
      ensures tree == old(tree) && shards == old(shards)
      ensures forall x: nat :: x in complaint <==> x in old(complaint) || (x < |tree| && Anc(tree, b, x))
      ensures b > 0 ==> if b in old(complaint) then V() == old(V()) else Valid()
      ensures b > 0 ==> Unsettled(unsettled)
      ensures b == 0 ==> AtGenesis()
      ensures stolen == old(stolen) + if b in old(complaint) then [] else Walk(tree, All(tree), All(tree), b)
    {
      if b in complaint {
        ComplaintAlready(V(), b);
        return;
      }
      ghost var v0 := V();
      ComplaintOnAll(b);
      forall x: nat ensures x in complaint <==> x in old(complaint) || (x < |tree| && Anc(tree, b, x)) {
        ComplaintReaches(tree, b, x);
      }
      if b > 0 {
        ComplaintKeepsSound(v0, b, {unsettled});
      }
      UpdateBlockPtrsInvalidated();
      if b > 0 {
        KnownWeaken(V(), {}, {unsettled});
      }
    }

    ghost predicate AtGenesis()
      reads this
    {
      longestChains == [0] && longestKnowns == [0] && preferredChain == 0
    }

    /** update_block_ptrs_invalidated, chain.c:438-450. */
    method UpdateBlockPtrsInvalidated()
      requires |shards| == |tree| && Tree(tree)
      requires 0 !in complaint ==> Shape(V()) && KnownBut(V(), {0})
      modifies this`allKnown, this`longestChains, this`longestKnowns, this`preferredChain, this`stolen
      ensures if 0 in complaint then AtGenesis() else Valid()
      ensures stolen == old(stolen)
    {
      ResetPointers();
      ghost var v1 := V();
      var _ := UpdateKnown(0);
      NothingAboveGenesis(tree, old(stolen), stolen, longestKnowns[0]);
      if 0 !in complaint {
        KnownRecomputed(v1, V());
      } else {
        NothingLearned(v1);
      }
    }

    /** chain.c:440-446 */
    method ResetPointers()
      requires |shards| == |tree| && Tree(tree)
      requires 0 !in complaint ==> Shape(V()) && KnownBut(V(), {0})
      modifies this`longestChains, this`longestKnowns, this`preferredChain
      ensures Sane() && longestKnowns == [0]
      ensures if 0 in complaint then AtGenesis()
              else Shape(V()) && KnownBut(V(), {0}) && Lists(tree, longestChains, Good(V()))
    {
      ghost var v0 := V();
      longestChains := [0];
      longestKnowns := [0];
      preferredChain := 0;
      longestChains := FindLongestDescendents(0, longestChains);
      ghost var v1 := V();
      assert v1 == v0.(chains := longestChains, knowns := [0], preferred := 0);
      if 0 !in complaint {
        ResetReady(v1);
        KnownButSame(v0, v1, {0});
      }
    }

    /** A complaint that arrives on its own. */
    method Complain(b: nat)
      requires Valid() && 0 < b < |tree|
      modifies this
      ensures Valid() && tree == old(tree) && shards == old(shards)
      ensures forall x: nat :: x in complaint <==> x in old(complaint) || (x < |tree| && Anc(tree, b, x))
    {
      KnownWeaken(V(), {}, {0});
      PublishComplaint(b, 0);
    }

    /** One event, if it can happen at all. */
    method Apply(e: Event, ghost l: Ledger)
      requires Valid() && Matches(l)
      modifies this
      ensures Valid() && Matches(Record(l, e))
    {
      if CanHappen(|tree|, shards, e) {
        match e
        case NewBlock(prev, work, sizes) => ApplyBlock(prev, work, sizes, l);
        case NewTx(b, s, complaints) => ApplyTx(b, s, complaints, l);
        case Complaint(b) => ApplyComplaint(b, l);
      }
    }

    method ApplyBlock(prev: nat, work: nat, sizes: seq<nat>, ghost l: Ledger)
      requires Valid() && Matches(l) && CanHappen(|tree|, shards, NewBlock(prev, work, sizes))
      modifies this
      ensures Valid() && Matches(Record(l, NewBlock(prev, work, sizes)))
    {
      DescribesMore(l, tree, NewBlock(prev, work, sizes));
      var _, _ := AddBlock(prev, work, sizes);
    }

    method ApplyTx(b: nat, s: nat, complaints: seq<nat>, ghost l: Ledger)
      requires Valid() && Matches(l) && CanHappen(|tree|, shards, NewTx(b, s, complaints))
      modifies this
      ensures Valid() && Matches(Record(l, NewTx(b, s, complaints)))
    {
      CountAndMark(b, s, complaints);
      TxRecorded(l, tree, b, s, complaints, shards, complaint);
    }

    method CountAndMark(b: nat, s: nat, complaints: seq<nat>)
      requires Valid() && CanHappen(|tree|, shards, NewTx(b, s, complaints))
      modifies this
      ensures Valid() && tree == old(tree)
      ensures shards == old(shards)[b := old(shards)[b][s := Shard(old(shards)[b][s].size, old(shards)[b][s].txcount + 1)]]
      ensures forall x: nat :: x in complaint <==> x in old(complaint) || CoveredBy(tree, complaints, x)
    {
      var _ := PutTx(b, s, complaints);
    }

    method ApplyComplaint(b: nat, ghost l: Ledger)
      requires Valid() && Matches(l) && CanHappen(|tree|, shards, Complaint(b))
      modifies this
      ensures Valid() && Matches(Record(l, Complaint(b)))
    {
      Complain(b);
      CoveredByOne(tree, b);
      ComplaintsRecorded(l, tree, old(complaint), [b], complaint);
    }

    /** Any run of events.  What the state is about is what the events say. */
    method Run(events: seq<Event>, ghost l: Ledger)
      requires Valid() && Matches(l)
      modifies this
      ensures Valid() && Matches(Records(l, events))
    {
      for i := 0 to |events|
        invariant Valid() && Matches(Records(l, events[..i]))
      {
        Apply(events[i], Records(l, events[..i]));
        assert events[..i + 1][..i] == events[..i];
      }
      assert events[..|events|] == events;
    }
  }

  /** `b` and everything below its first `i` children has been dealt with. */
  ghost predicate SeenMarked(t: seq<Node>, b: nat, i: nat, before: set<nat>, listed: seq<nat>, after: set<nat>, listed': seq<nat>) {
    && Tree(t) && b < |t| && i <= |t[b].children|
    && after == before + Elems(Seen(t, All(t), All(t), b, i)) && listed' == listed + Seen(t, All(t), All(t), b, i)
  }

  lemma ComplaintMore(t: seq<Node>, b: nat, i: nat, before: set<nat>, listed: seq<nat>, c: set<nat>, s: seq<nat>, c': set<nat>, s': seq<nat>)
    requires SeenMarked(t, b, i, before, listed, c, s) && i < |t[b].children| && t[b].children[i] < |t|
    requires c' == c + Elems(Walk(t, All(t), All(t), t[b].children[i])) && s' == s + Walk(t, All(t), All(t), t[b].children[i])
    ensures SeenMarked(t, b, i + 1, before, listed, c', s')
  {
    ComplaintStep(t, b, i + 1);
    var seen, walk := Seen(t, All(t), All(t), b, i), Walk(t, All(t), All(t), t[b].children[i]);
    Regroup(before, Elems(seen), Elems(walk), listed, seen, walk);
  }

  lemma Regroup(a: set<nat>, b: set<nat>, c: set<nat>, x: seq<nat>, y: seq<nat>, z: seq<nat>)
    ensures (a + b) + c == a + (b + c) && (x + y) + z == x + (y + z)
  {
  }

  /** One more transaction can complete only its own block. */
  lemma FullAfter(shards: seq<seq<Shard>>, b: nat, s: nat)
    requires b < |shards| && s < |shards[b]| && shards[b][s].txcount < shards[b][s].size
    ensures var after := FullBlocks(shards[b := shards[b][s := Shard(shards[b][s].size, shards[b][s].txcount + 1)]]);
      after == FullBlocks(shards) || after == FullBlocks(shards) + {b}
  {
    assert !ShardAllKnown(shards[b][s]);
  }

  lemma TxRecorded(l: Ledger, t: seq<Node>, b: nat, s: nat, complaints: seq<nat>, shards: seq<seq<Shard>>, after: set<nat>)
    requires Tree(t) && Describes(l, t) && CanHappen(|l.prevs|, l.shards, NewTx(b, s, complaints))
    requires forall x: nat :: x in after <==> x in l.bad || CoveredBy(t, complaints, x)
    requires shards == l.shards[b := l.shards[b][s := Shard(l.shards[b][s].size, l.shards[b][s].txcount + 1)]]
    ensures IsRecordOf(Record(l, NewTx(b, s, complaints)), t, shards, after)
  {
    ComplaintsRecorded(l, t, l.bad, complaints, after);
  }

  lemma CoveredByOne(t: seq<Node>, b: nat)
    requires Tree(t) && b < |t|
    ensures forall x: nat :: CoveredBy(t, [b], x) <==> x < |t| && Anc(t, b, x)
  {
    forall x: nat | x < |t| && Anc(t, b, x) ensures CoveredBy(t, [b], x) {
      assert [b][0] == b;
    }
  }
}
