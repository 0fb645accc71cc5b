/**
 A run in which longest_knowns[0] moves and nothing goes back to pending.
 */
module ChainSilent {
  import opened Sequences
  import opened BlockTree
  import opened Longest
  import opened ChainInvariant
  import opened ChainSteps
  import opened ChainFront
  import opened ChainEvents
  import opened Chain
  import opened ChainHistory

  /** Two blocks of equal work below the genesis block, each with one transaction, which is known. */
  ghost function Twins(): (l: Ledger) {
    Ledger([0, 0, 0], [0, 1, 1], [GenesisShards(4), [Shard(1, 1)], [Shard(1, 1)]], {})
  }

  /** A third below one of them, whose transaction is not known. */
  ghost function Third(p: nat): (l: Ledger) {
    Ledger([0, 0, 0, p], [0, 1, 1, 1], [GenesisShards(4), [Shard(1, 1)], [Shard(1, 1)], [Shard(1, 0)]], {})
  }

  lemma FreshOne()
    ensures FreshShards([1]) == [Shard(1, 0)]
  {
  }

  ghost function One(txs: nat): (l: Ledger) {
    Ledger([0, 0], [0, 1], [GenesisShards(4), [Shard(1, txs)]], {})
  }

  ghost function Two(txs: nat): (l: Ledger) {
    Ledger([0, 0, 0], [0, 1, 1], [GenesisShards(4), [Shard(1, 1)], [Shard(1, txs)]], {})
  }

  lemma BlocksRecorded()
    ensures Record(Start(4), NewBlock(0, 1, [1])) == One(0)
    ensures Record(One(1), NewBlock(0, 1, [1])) == Two(0)
  {
    FreshOne();
  }

  lemma TxsRecorded()
    ensures Record(One(0), NewTx(1, 0, [])) == One(1)
    ensures Record(Two(0), NewTx(2, 0, [])) == Twins()
  {
    assert AllUnder(One(0).prevs, []) == {} && AllUnder(Two(0).prevs, []) == {};
    assert [Shard(1, 0)][0 := Shard(1, 1)] == [Shard(1, 1)];
    assert One(0).shards[1 := [Shard(1, 1)]] == One(1).shards;
    assert Two(0).shards[2 := [Shard(1, 1)]] == Twins().shards;
  }

  lemma TwinsRecorded()
    ensures Records(Start(4), [NewBlock(0, 1, [1]), NewTx(1, 0, []), NewBlock(0, 1, [1]), NewTx(2, 0, [])]) == Twins()
  {
    var e1, e2, e3, e4 := NewBlock(0, 1, [1]), NewTx(1, 0, []), NewBlock(0, 1, [1]), NewTx(2, 0, []);
    BlocksRecorded();
    TxsRecorded();
    RecordsSnoc(Start(4), [], e1);
    RecordsSnoc(Start(4), [e1], e2);
    RecordsSnoc(Start(4), [e1, e2], e3);
    RecordsSnoc(Start(4), [e1, e2, e3], e4);
    assert [] + [e1] == [e1] && [e1] + [e2] == [e1, e2] && [e1, e2] + [e3] == [e1, e2, e3];
    assert [e1, e2, e3] + [e4] == [e1, e2, e3, e4];
  }

  lemma RecordsSnoc(l: Ledger, events: seq<Event>, e: Event)
    ensures Records(l, events + [e]) == Record(Records(l, events), e)
  {
    assert (events + [e])[..|events|] == events;
  }

  lemma ThirdRecorded(p: nat)
    requires p == 1 || p == 2
    ensures Record(Twins(), NewBlock(p, 1, [1])) == Third(p)
  {
    FreshOne();
  }

  lemma TwinsBest(x: nat)
    ensures IsLongest(Twins(), x) <==> x == 1 || x == 2
    ensures IsLongestKnown(Twins(), x) <==> x == 1 || x == 2
  {
    var l := Twins();
    assert Work(l, 0) == 0 && Work(l, 1) == 1 && Work(l, 2) == 1;
    forall y: nat ensures IsGood(l, y) <==> y < 3 {
    }
    assert AllKnown(l, 0) && AllKnown(l, 1) && AllKnown(l, 2);
  }

  lemma ThirdBest(p: nat, x: nat)
    requires p == 1 || p == 2
    ensures IsLongest(Third(p), x) <==> x == 3
    ensures IsLongestKnown(Third(p), x) <==> x == 1 || x == 2
  {
    var l := Third(p);
    assert Work(l, 0) == 0 && Work(l, 1) == 1 && Work(l, 2) == 1 && Work(l, 3) == Work(l, p) + 1 == 2;
    forall y: nat ensures IsGood(l, y) <==> y < 4 {
    }
    assert AllKnown(l, 0) && AllKnown(l, 1) && AllKnown(l, 2);
    assert Under(l.prevs, 3, 3) && !ShardAllKnown(l.shards[3][0]) && !AllShardsKnown(l.shards[3]);
  }

  lemma TwinsLists(v: View)
    requires Consistent(v) && Tells(Twins(), v)
    ensures |v.tree| == 3 && v.tree[1].work == 1 && v.tree[2].work == 1
    ensures forall x: nat :: x in v.chains <==> x == 1 || x == 2
    ensures forall x: nat :: x in v.knowns <==> x == 1 || x == 2
  {
    forall x: nat ensures (x in v.chains <==> x == 1 || x == 2) && (x in v.knowns <==> x == 1 || x == 2) {
      TwinsBest(x);
      ChainsFromEvents(Twins(), v, x);
      KnownsFromEvents(Twins(), v, x);
    }
    assert WorkTo(Twins().prevs, Twins().works, 1) == 1 && WorkTo(Twins().prevs, Twins().works, 2) == 1;
  }

  /** Only `p` of the twins leads to the third block. */
  lemma OnlyOneLeads(t: seq<Node>, p: nat, a: nat)
    requires Tree(t) && Describes(Third(p), t) && (p == 1 || p == 2) && (a == 1 || a == 2)
    ensures |t| == 4 && (Anc(t, a, 3) <==> a == p) && t[1].work == t[2].work == 1 && t[3].work == 2
  {
    var l := Third(p);
    AncIsUnder(l, t, a, 3);
    assert Under(l.prevs, a, 3) <==> a == 3 || Under(l.prevs, a, p);
    assert Under(l.prevs, a, p) <==> a == p || Under(l.prevs, a, 0);
    assert WorkTo(l.prevs, l.works, 1) == 1 && WorkTo(l.prevs, l.works, 2) == 1;
    assert WorkTo(l.prevs, l.works, 3) == WorkTo(l.prevs, l.works, p) + 1;
  }

  lemma {:induction false} SomeFirstLeading(v: View, b: nat, j: nat) returns (k: nat)
    requires Tree(v.tree) && b < |v.tree| && InTree(v.tree, v.knowns) && j < |v.knowns| && Anc(v.tree, v.knowns[j], b)
    ensures FirstLeading(v, b, k)
    decreases j
  {
    if l: nat :| l < j && Anc(v.tree, v.knowns[l], b) {
      k := SomeFirstLeading(v, b, l);
    } else {
      k := j;
    }
  }

  /** So new_longest puts it in front. */
  lemma ThirdFront(v: View, p: nat, kept: nat)
    requires Tree(v.tree) && Describes(Third(p), v.tree) && (p == 1 || p == 2)
    requires v.chains != [] && InTree(v.tree, v.chains) && v.knowns != [] && InTree(v.tree, v.knowns)
    requires forall x: nat :: x in v.chains <==> x == 1 || x == 2
    requires forall x: nat :: x in v.knowns <==> x == 1 || x == 2
    requires FrontAfter(v, 3, kept)
    ensures kept == p
  {
    OnlyOneLeads(v.tree, p, 1);
    OnlyOneLeads(v.tree, p, 2);
    assert p in v.knowns && v.chains[0] in v.chains;
    var j: nat :| j < |v.knowns| && v.knowns[j] == p;
    var k := SomeFirstLeading(v, 3, j);
    assert v.knowns[k] in v.knowns;
  }

  /** And it stays there: it leads to the only longest chain. */
  lemma FrontIs(v: View, p: nat)
    requires Consistent(v) && (p == 1 || p == 2) && Tells(Third(p), v)
    ensures v.knowns != [] && v.knowns[0] == p
  {
    forall x: nat ensures (x in v.chains <==> x == 3) && (x in v.knowns <==> x == 1 || x == 2) {
      ThirdBest(p, x);
      ChainsFromEvents(Third(p), v, x);
      KnownsFromEvents(Third(p), v, x);
    }
    OnlyOneLeads(v.tree, p, 1);
    OnlyOneLeads(v.tree, p, 2);
    assert p in v.knowns && v.chains[0] in v.chains && v.knowns[0] in v.knowns;
    var j: nat :| j < |v.knowns| && v.knowns[j] == p;
    ConnectedPreferredIsLongest(v, 0, j);
  }

  lemma NothingNew(t: seq<Node>, before: seq<nat>, after: seq<nat>, k: nat)
    requires Tree(t) && k < |t| && Moved(t, before, after, k, k)
    ensures after == before
  {
    var added := after[|before|..];
    HasElement(added);
    assert after == before + added;
  }

  /** The third block below the twin that is not in front. */
  method ThirdArrives(c: ChainState, p: nat)
    requires c.Valid() && c.Matches(Twins()) && (p == 1 || p == 2)
    modifies c
    ensures c.Valid() && c.longestKnowns != [] && c.longestKnowns[0] == p && c.stolen == old(c.stolen)
  {
    ghost var v := c.V();
    TwinsLists(v);
    ThirdRecorded(p);
    FreshOne();
    DescribesMore(Twins(), c.tree, NewBlock(p, 1, [1]));
    ghost var b, kept;
    b, kept := c.AddBlock(p, 1, [1]);
    assert !AllShardsKnown([Shard(1, 0)]) by { assert !ShardAllKnown([Shard(1, 0)][0]); }
    ThirdSettles(v, p, c.V(), kept, old(c.stolen), c.stolen);
  }

  lemma ThirdSettles(v: View, p: nat, v': View, kept: nat, before: seq<nat>, after: seq<nat>)
    requires Consistent(v) && Tells(Twins(), v) && (p == 1 || p == 2) && |v.tree| == 3
    requires forall x: nat :: x in v.chains <==> x == 1 || x == 2
    requires forall x: nat :: x in v.knowns <==> x == 1 || x == 2
    requires Consistent(v') && Tells(Third(p), v') && v'.tree == Extend(v.tree, p, 1)
    requires SendsBack(v, p, 1, false, v', kept, before, after)
    ensures v'.knowns != [] && v'.knowns[0] == p && after == before
  {
    AddedReady(v, p, 1, false);
    ThirdFront(Added(v, p, 1, false), p, kept);
    FrontIs(v', p);
    NothingNew(v'.tree, before, after, p);
  }

  /** From the start: the front was one twin and is now the other, and nothing was sent back in between. */
  method FrontMovesSilently() returns (c: ChainState, ghost front: nat, ghost sent: seq<nat>)
    ensures c.Valid() && c.longestKnowns != [] && (front == 1 || front == 2) && c.longestKnowns[0] == 3 - front
    ensures c.stolen == sent
  {
    c := new ChainState(4);
    TwinsRecorded();
    c.Run([NewBlock(0, 1, [1]), NewTx(1, 0, []), NewBlock(0, 1, [1]), NewTx(2, 0, [])], Start(4));
    TwinsLists(c.V());
    assert c.longestKnowns[0] in c.longestKnowns;
    front, sent := c.longestKnowns[0], c.stolen;
    ThirdArrives(c, 3 - c.longestKnowns[0]);
  }
}
