/**
 What happens to the chain state, and what it amounts to: who hangs below whom, how much work
 each block was given, what is known of its shards, what has been complained about.  None of it
 speaks of the tree or of the cached answers.
 */
module ChainEvents {

  /** How many transactions a shard holds, and how many of them we have. */
  datatype Shard = Shard(size: nat, txcount: nat)

  predicate ShardAllKnown(s: Shard) {
    s.txcount == s.size
  }

  ghost predicate AllShardsKnown(shards: seq<Shard>) {
    forall i :: 0 <= i < |shards| ==> ShardAllKnown(shards[i])
  }

  /** The shards of a new block: nothing is known yet. */
  function FreshShards(sizes: seq<nat>): (r: seq<Shard>)
    ensures |r| == |sizes| && forall i :: 0 <= i < |sizes| ==> r[i] == Shard(sizes[i], 0)
  {
    seq(|sizes|, i requires 0 <= i < |sizes| => Shard(sizes[i], 0))
  }

  /** The shards of the genesis block: there is nothing to know. */
  function GenesisShards(n: nat): (r: seq<Shard>)
    ensures |r| == n && forall i :: 0 <= i < n ==> r[i] == Shard(0, 0)
  {
    seq(n, _ => Shard(0, 0))
  }

  datatype Event =
    | NewBlock(prev: nat, work: nat, sizes: seq<nat>)
    | NewTx(block: nat, shard: nat, complaints: seq<nat>)
    | Complaint(block: nat)

  /** By block: the block it hangs below, its own work, its shards; and the blocks with a complaint. */
  datatype Ledger = Ledger(prevs: seq<nat>, works: seq<nat>, shards: seq<seq<Shard>>, bad: set<nat>)

  /** `b` is `a` or hangs, over any number of blocks, below `a`. */
  ghost predicate Under(prevs: seq<nat>, a: nat, b: nat)
    decreases b
  {
    a == b || (0 < b < |prevs| && prevs[b] < b && Under(prevs, a, prevs[b]))
  }

  /** The works from the genesis block, which counts nothing, down to `b`. */
  ghost function WorkTo(prevs: seq<nat>, works: seq<nat>, b: nat): (w: nat)
    decreases b
  {
    if 0 < b < |prevs| && b < |works| && prevs[b] < b then WorkTo(prevs, works, prevs[b]) + works[b] else 0
  }

  ghost predicate UnderAny(prevs: seq<nat>, bs: seq<nat>, x: nat) {
    exists i: nat :: i < |bs| && Under(prevs, bs[i], x)
  }

  ghost function AllUnder(prevs: seq<nat>, bs: seq<nat>): (s: set<nat>) {
    set x: nat | x < |prevs| && UnderAny(prevs, bs, x)
  }

  /** With n blocks.  A transaction can be new only in a shard that still misses one; the genesis block is
      beyond complaint. */
  predicate CanHappen(n: nat, shards: seq<seq<Shard>>, e: Event) {
    match e
    case NewBlock(prev, work, _) => prev < n && work > 0
    case NewTx(b, s, complaints) =>
      && b < n && b < |shards| && s < |shards[b]| && shards[b][s].txcount < shards[b][s].size
      && forall i :: 0 <= i < |complaints| ==> 0 < complaints[i] < n
    case Complaint(b) => 0 < b < n
  }

  ghost function Record(l: Ledger, e: Event): (r: Ledger) {
    if !CanHappen(|l.prevs|, l.shards, e) then l
    else
      match e
      case NewBlock(prev, work, sizes) =>
        Ledger(l.prevs + [prev], l.works + [work],
               l.shards + [FreshShards(sizes)],
               if prev in l.bad then l.bad + {|l.prevs|} else l.bad)
      case NewTx(b, s, complaints) =>
        var sh := l.shards[b][s];
        l.(shards := l.shards[b := l.shards[b][s := Shard(sh.size, sh.txcount + 1)]],
           bad := l.bad + AllUnder(l.prevs, complaints))
      case Complaint(b) => l.(bad := l.bad + AllUnder(l.prevs, [b]))
  }

  /** The ledger of a node that has only the genesis block. */
  ghost function Start(genesisShards: nat): (l: Ledger) {
    Ledger([0], [0], [GenesisShards(genesisShards)], {})
  }

  ghost function Records(l: Ledger, events: seq<Event>): (r: Ledger) {
    if events == [] then l else Record(Records(l, events[..|events| - 1]), events[|events| - 1])
  }

  /** Blocks that come later do not change what lies below an earlier one. */
  lemma {:induction false} UnderStays(prevs: seq<nat>, prevs': seq<nat>, a: nat, b: nat)
    requires prevs <= prevs' && b < |prevs|
    ensures Under(prevs', a, b) <==> Under(prevs, a, b)
    decreases b
  {
    if 0 < b && prevs[b] < b {
      UnderStays(prevs, prevs', a, prevs[b]);
    }
  }

  lemma {:induction false} WorkToStays(prevs: seq<nat>, works: seq<nat>, prevs': seq<nat>, works': seq<nat>, b: nat)
    requires |prevs| == |works| && prevs <= prevs' && works <= works' && b < |prevs|
    ensures WorkTo(prevs', works', b) == WorkTo(prevs, works, b)
    decreases b
  {
    if 0 < b && prevs[b] < b {
      WorkToStays(prevs, works, prevs', works', prevs[b]);
    }
  }
}
