/**
 The ledger read off the history: which events became blocks, which complaints count, and how
 many transactions of a shard have been heard of.
 */
module ChainRecord {
  import opened ChainEvents

  /** The ledger after the first `i` events. */
  ghost function After(genesisShards: nat, events: seq<Event>, i: nat): (l: Ledger)
    requires i <= |events|
  {
    Records(Start(genesisShards), events[..i])
  }

  ghost function Height(genesisShards: nat, events: seq<Event>, i: nat): (n: nat)
    requires i <= |events|
  {
    |After(genesisShards, events, i).prevs|
  }

  lemma AfterNext(genesisShards: nat, events: seq<Event>, i: nat)
    requires i < |events|
    ensures After(genesisShards, events, i + 1) == Record(After(genesisShards, events, i), events[i])
  {
    assert events[..i + 1][..i] == events[..i];
  }

  /** One entry for each block; parents come first. */
  ghost predicate Shaped(l: Ledger) {
    && |l.prevs| == |l.works| == |l.shards| > 0
    && (forall b :: 0 < b < |l.prevs| ==> l.prevs[b] < b)
    && (forall x :: x in l.bad ==> x < |l.prevs|)
    && (forall b, s :: 0 <= b < |l.shards| && 0 <= s < |l.shards[b]| ==> l.shards[b][s].txcount <= l.shards[b][s].size)
  }

  lemma {:induction false} AfterShaped(genesisShards: nat, events: seq<Event>, i: nat)
    requires i <= |events|
    ensures Shaped(After(genesisShards, events, i))
  {
    if i > 0 {
      AfterShaped(genesisShards, events, i - 1);
      AfterNext(genesisShards, events, i - 1);
    }
  }

  // ---------------------------------------------------------------- blocks

  /** Event `i` is a block below one that is there. */
  ghost predicate BecomesBlock(genesisShards: nat, events: seq<Event>, i: nat) {
    i < |events| && events[i].NewBlock? && events[i].work > 0 && events[i].prev < Height(genesisShards, events, i)
  }

  /** Every such event, and no other, adds a block: the next number, with that parent, that work and empty shards
      of those sizes. */
  lemma BlockArrives(genesisShards: nat, events: seq<Event>, i: nat)
    requires i < |events|
    ensures var l, l' := After(genesisShards, events, i), After(genesisShards, events, i + 1);
      if BecomesBlock(genesisShards, events, i) then
        && l'.prevs == l.prevs + [events[i].prev] && l'.works == l.works + [events[i].work]
        && l'.shards == l.shards + [FreshShards(events[i].sizes)]
      else l'.prevs == l.prevs && l'.works == l.works
  {
    AfterNext(genesisShards, events, i);
  }

  lemma {:induction false} BlocksStay(genesisShards: nat, events: seq<Event>, i: nat, j: nat)
    requires i <= j <= |events|
    ensures After(genesisShards, events, i).prevs <= After(genesisShards, events, j).prevs
    ensures After(genesisShards, events, i).works <= After(genesisShards, events, j).works
    decreases j
  {
    if i < j {
      BlocksStay(genesisShards, events, i, j - 1);
      BlockArrives(genesisShards, events, j - 1);
    }
  }

  /** The block of event `i` has the number of blocks before it, and keeps its parent and its work. */
  lemma BlockKept(genesisShards: nat, events: seq<Event>, i: nat)
    requires BecomesBlock(genesisShards, events, i)
    ensures var l, b := After(genesisShards, events, |events|), Height(genesisShards, events, i);
      b < |l.prevs| && b < |l.works| && l.prevs[b] == events[i].prev && l.works[b] == events[i].work
  {
    BlockArrives(genesisShards, events, i);
    BlocksStay(genesisShards, events, i + 1, |events|);
    AfterShaped(genesisShards, events, i);
  }

  /** Every block but the genesis block comes from an event. */
  lemma {:induction false} BlockCame(genesisShards: nat, events: seq<Event>, n: nat, b: nat) returns (i: nat)
    requires n <= |events| && 0 < b < Height(genesisShards, events, n)
    ensures i < n && BecomesBlock(genesisShards, events, i) && Height(genesisShards, events, i) == b
    decreases n
  {
    BlockArrives(genesisShards, events, n - 1);
    if b < Height(genesisShards, events, n - 1) {
      i := BlockCame(genesisShards, events, n - 1, b);
    } else {
      i := n - 1;
    }
  }

  // ---------------------------------------------------------------- complaints

  ghost predicate InRange(complaints: seq<nat>, n: nat) {
    forall k :: 0 <= k < |complaints| ==> 0 < complaints[k] < n
  }

  /** Event `i` is a transaction that was missing. */
  ghost predicate BecomesTx(genesisShards: nat, events: seq<Event>, i: nat) {
    && i < |events| && events[i].NewTx?
    && var l := After(genesisShards, events, i);
       && events[i].block < |l.shards| && events[i].shard < |l.shards[events[i].block]|
       && l.shards[events[i].block][events[i].shard].txcount < l.shards[events[i].block][events[i].shard].size
       && InRange(events[i].complaints, |l.prevs|)
  }

  /** Event `i` complains about block `c`, either outright or because of what a transaction shows. */
  ghost predicate Complains(genesisShards: nat, events: seq<Event>, i: nat, c: nat) {
    && i < |events| && 0 < c < Height(genesisShards, events, i)
    && (events[i] == Complaint(c) || (BecomesTx(genesisShards, events, i) && c in events[i].complaints))
  }

  ghost predicate Accused(genesisShards: nat, events: seq<Event>, n: nat, x: nat)
    requires n <= |events|
  {
    exists i: nat, c: nat :: i < n && Complains(genesisShards, events, i, c) && Under(After(genesisShards, events, n).prevs, c, x)
  }

  /** What one event adds to the complaints. */
  lemma ComplaintsGrow(genesisShards: nat, events: seq<Event>, i: nat, x: nat)
    requires i < |events| && x < Height(genesisShards, events, i)
    ensures var l, l' := After(genesisShards, events, i), After(genesisShards, events, i + 1);
      x in l'.bad <==> x in l.bad || exists c: nat :: Complains(genesisShards, events, i, c) && Under(l.prevs, c, x)
  {
    AfterNext(genesisShards, events, i);
    AfterShaped(genesisShards, events, i);
    var l := After(genesisShards, events, i);
    match events[i]
    case NewBlock(_, _, _) =>
    case Complaint(b) =>
      assert CanHappen(|l.prevs|, l.shards, events[i]) <==> Complains(genesisShards, events, i, b);
      assert UnderAny(l.prevs, [b], x) <==> Under(l.prevs, [b][0], x);
    case NewTx(b, s, complaints) =>
      assert CanHappen(|l.prevs|, l.shards, events[i]) <==> BecomesTx(genesisShards, events, i);
      if BecomesTx(genesisShards, events, i) {
        NamedAbove(l.prevs, complaints, x);
      }
  }

  lemma NamedAbove(prevs: seq<nat>, bs: seq<nat>, x: nat)
    ensures UnderAny(prevs, bs, x) <==> exists c :: c in bs && Under(prevs, c, x)
  {
    if c :| c in bs && Under(prevs, c, x) {
      var k :| 0 <= k < |bs| && bs[k] == c;
      assert Under(prevs, bs[k], x);
    }
  }

  /** A block has a complaint exactly if some event complains about it or about a block above it, be it before or
      after the block came. */
  lemma {:induction false} BadExactly(genesisShards: nat, events: seq<Event>, n: nat, x: nat)
    requires n <= |events| && x < Height(genesisShards, events, n)
    ensures x in After(genesisShards, events, n).bad <==> Accused(genesisShards, events, n, x)
    decreases n
  {
    if n > 0 {
      var l, l' := After(genesisShards, events, n - 1), After(genesisShards, events, n);
      AfterShaped(genesisShards, events, n - 1);
      BlockArrives(genesisShards, events, n - 1);
      if x < |l.prevs| {
        BadExactly(genesisShards, events, n - 1, x);
        ComplaintsGrow(genesisShards, events, n - 1, x);
        AccusedMore(genesisShards, events, n - 1, x);
      } else {
        BadExactly(genesisShards, events, n - 1, events[n - 1].prev);
        NewBlockBad(genesisShards, events, n - 1);
      }
    }
  }

  lemma AccusedMore(genesisShards: nat, events: seq<Event>, n: nat, x: nat)
    requires n < |events| && x < Height(genesisShards, events, n)
    ensures Accused(genesisShards, events, n + 1, x) <==>
            Accused(genesisShards, events, n, x)
            || exists c: nat :: Complains(genesisShards, events, n, c) && Under(After(genesisShards, events, n).prevs, c, x)
  {
    var prevs, prevs' := After(genesisShards, events, n).prevs, After(genesisShards, events, n + 1).prevs;
    BlocksStay(genesisShards, events, n, n + 1);
    forall c: nat ensures Under(prevs', c, x) <==> Under(prevs, c, x) {
      UnderStays(prevs, prevs', c, x);
    }
  }

  /** A new block is bad if its parent is. */
  lemma NewBlockBad(genesisShards: nat, events: seq<Event>, n: nat)
    requires BecomesBlock(genesisShards, events, n)
    requires events[n].prev in After(genesisShards, events, n).bad <==> Accused(genesisShards, events, n, events[n].prev)
    ensures var x := Height(genesisShards, events, n);
      x in After(genesisShards, events, n + 1).bad <==> Accused(genesisShards, events, n + 1, x)
  {
    var l, l', p := After(genesisShards, events, n), After(genesisShards, events, n + 1), events[n].prev;
    AfterNext(genesisShards, events, n);
    AfterShaped(genesisShards, events, n);
    assert |l.prevs| in l'.bad <==> p in l.bad;
    forall i: nat, c: nat | i < n + 1 && Complains(genesisShards, events, i, c)
      ensures i < n && (Under(l'.prevs, c, |l.prevs|) <==> Under(l.prevs, c, p))
    {
      BlocksStay(genesisShards, events, i, n);
      UnderStays(l.prevs, l'.prevs, c, p);
    }
  }

  // ---------------------------------------------------------------- transactions

  /** How many of the first `n` events are transactions of shard `s` of block `b`, which was there. */
  ghost function Heard(genesisShards: nat, events: seq<Event>, n: nat, b: nat, s: nat): (k: nat)
    requires n <= |events|
  {
    if n == 0 then 0
    else
      var e := events[n - 1];
      Heard(genesisShards, events, n - 1, b, s) +
      if e.NewTx? && e.block == b && e.shard == s && b < Height(genesisShards, events, n - 1)
         && InRange(e.complaints, Height(genesisShards, events, n - 1)) then 1 else 0
  }

  /** A shard's count goes up with every transaction heard of, until all are known. */
  lemma {:induction false} CountExactly(genesisShards: nat, events: seq<Event>, n: nat, b: nat, s: nat)
    requires n <= |events|
    ensures var l, k := After(genesisShards, events, n), Heard(genesisShards, events, n, b, s);
      && (b >= |l.shards| ==> k == 0)
      && (b < |l.shards| && s < |l.shards[b]| ==>
            l.shards[b][s].txcount == if k < l.shards[b][s].size then k else l.shards[b][s].size)
    decreases n
  {
    if n > 0 {
      CountExactly(genesisShards, events, n - 1, b, s);
      AfterShaped(genesisShards, events, n - 1);
      AfterNext(genesisShards, events, n - 1);
    }
  }
}
