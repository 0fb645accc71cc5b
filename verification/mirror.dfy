/**
 The daemon and its miner kept in step (pending.c:104-140, generating.c:119-215,
 generating.c:302-310, pettycoin-generate.c:284-296).
 */
module Mirror {
  import opened Wrappers
  import BlockShard
  import opened TxOrder
  import opened Merkle
  import opened Pending
  import opened Miner

  /** struct pending_tx */
  datatype PendingTx = PendingTx(tx: Tx, refs: seq<nat>)

  function HashOf(p: PendingTx): (h: TxRefHash) {
    TxRefHash(OfTx(p.tx), OfRefs(p.refs))
  }

  function Txs(ps: seq<PendingTx>): (r: seq<Tx>)
    ensures |r| == |ps|
  {
    seq(|ps|, i requires 0 <= i < |ps| => ps[i].tx)
  }

  function Hashes(ps: seq<PendingTx>): (r: seq<TxRefHash>)
    ensures |r| == |ps|
  {
    seq(|ps|, i requires 0 <= i < |ps| => HashOf(ps[i]))
  }

  function AllHashes(pend: seq<seq<PendingTx>>): (r: seq<seq<TxRefHash>>)
    ensures |r| == |pend|
  {
    seq(|pend|, s requires 0 <= s < |pend| => Hashes(pend[s]))
  }

  /** The pending transactions as the slots of a filled shard. */
  function AsEntries(ps: seq<PendingTx>): (es: seq<BlockShard.Entry>)
    ensures |es| == |ps| && forall i :: 0 <= i < |ps| ==> es[i] == BlockShard.Known(ps[i].tx, ps[i].refs)
  {
    seq(|ps|, i requires 0 <= i < |ps| => BlockShard.Known(ps[i].tx, ps[i].refs))
  }

  /** The miner's hashes of them are those of that shard. */
  lemma HashesArePairs(ps: seq<PendingTx>)
    ensures Hashes(ps) == BlockShard.Pairs(AsEntries(ps))
  {
  }

  ghost predicate Orderly(pend: seq<seq<PendingTx>>) {
    forall s :: 0 <= s < |pend| ==> |pend[s]| <= ShardLimit && StrictlySorted(Txs(pend[s]))
  }

  lemma InsertMaps(ps: seq<PendingTx>, pos: nat, p: PendingTx)
    requires pos <= |ps|
    ensures Txs(InsertAt(ps, pos, p)) == InsertAt(Txs(ps), pos, p.tx)
    ensures Hashes(InsertAt(ps, pos, p)) == InsertAt(Hashes(ps), pos, HashOf(p))
  {
  }

  lemma UpdateMaps(pend: seq<seq<PendingTx>>, s: nat, ps: seq<PendingTx>)
    requires s < |pend|
    ensures AllHashes(pend[s := ps]) == AllHashes(pend)[s := Hashes(ps)]
  {
  }

  /** The update that add_update queues for pend[shard][txoff] (generating.c:184-202). */
  function UpdateFor(pend: seq<seq<PendingTx>>, shard: nat, txoff: nat): (u: Update)
    requires shard < |pend| && txoff < |pend[shard]|
  {
    Update(shard, txoff, HashOf(pend[shard][txoff]))
  }

  /** A positional insert on one side and its update on the other have the same effect. */
  lemma InsertMirrors(pend: seq<seq<PendingTx>>, s: nat, pos: nat, p: PendingTx)
    requires s < |pend| && pos <= |pend[s]| < ShardLimit
    ensures var u := Update(s, pos, HashOf(p));
            && Acceptable(AllHashes(pend), u)
            && Applied(AllHashes(pend), u) == AllHashes(pend[s := InsertAt(pend[s], pos, p)])
  {
    InsertMaps(pend[s], pos, p);
    UpdateMaps(pend, s, InsertAt(pend[s], pos, p));
  }

  /** What init_updates has covered: all of the shards before `s`, and `i` entries of shard `s`. */
  function Covered(pend: seq<seq<PendingTx>>, s: nat, i: nat): (r: seq<seq<PendingTx>>)
    requires s <= |pend| && (s < |pend| ==> i <= |pend[s]|)
    ensures |r| == |pend|
  {
    seq(|pend|, k requires 0 <= k < |pend| => if k < s then pend[k] else if k == s then pend[k][..i] else [])
  }

  lemma CoveredStep(pend: seq<seq<PendingTx>>, s: nat, i: nat)
    requires s < |pend| && i < |pend[s]| <= ShardLimit
    ensures Covered(pend, s, i)[s := InsertAt(Covered(pend, s, i)[s], i, pend[s][i])] == Covered(pend, s, i + 1)
  {
    assert InsertAt(pend[s][..i], i, pend[s][i]) == pend[s][..i + 1];
  }

  lemma CoveredEdges(pend: seq<seq<PendingTx>>, s: nat)
    requires s < |pend|
    ensures Covered(pend, s, |pend[s]|) == Covered(pend, s + 1, 0)
  {
    assert pend[s][..|pend[s]|] == pend[s];
  }

  lemma NothingCovered(pend: seq<seq<PendingTx>>, th: seq<seq<TxRefHash>>)
    requires |th| == |pend| && forall s :: 0 <= s < |th| ==> th[s] == []
    ensures th == AllHashes(Covered(pend, 0, 0))
  {
    forall s | 0 <= s < |pend| ensures AllHashes(Covered(pend, 0, 0))[s] == [] {
      assert Covered(pend, 0, 0)[s] == [];
    }
  }

  /** The transaction is at its place in the order, and the miner will be told which. */
  ghost predicate InsertedAt(pend: seq<seq<PendingTx>>, updates: seq<Update>, shard: nat, p: PendingTx, pos: nat,
                             pend': seq<seq<PendingTx>>, updates': seq<Update>)
  {
    && shard < |pend| && Fits(Txs(pend[shard]), p.tx, pos)
    && pend' == pend[shard := InsertAt(pend[shard], pos, p)]
    && updates' == updates + [Update(shard, pos, HashOf(p))]
  }

  /** What the two processes can do. */
  datatype Action = Insert(shard: nat, tx: Tx, refs: Option<seq<nat>>) | Send | Read | Hash(beats: Digest -> bool, now: nat)

  class Generating {
    var pend: seq<seq<PendingTx>>
    /** Queued updates, oldest first. */
    var updates: seq<Update>
    /** Written to the miner's stdin, not yet read. */
    var pipe: seq<Update>
    const miner: WorkingBlock

    ghost predicate Valid()
      reads this, miner
    {
      && miner.Valid()
      && Orderly(pend)
      && Replayable(miner.transHashes, pipe + updates)
      && Replay(miner.transHashes, pipe + updates) == AllHashes(pend)
    }

    /** exec_generator: a new miner, and init_updates (generating.c:204-215). */
    constructor (pend: seq<seq<PendingTx>>, hdr: Header, tailer: Tailer, prevTxhashes: seq<nat>)
      requires Orderly(pend) && IsBytes(hdr.nonce2) && hdr.numShards == |pend|
      ensures Valid() && this.pend == pend && fresh(miner)
    {
      this.pend := pend;
      pipe := [];
      updates := [];
      miner := new WorkingBlock(hdr, tailer, prevTxhashes);
      new;
      NothingCovered(pend, miner.transHashes);
      InitUpdates();
      assert pipe + updates == updates;
    }

    /** init_updates, generating.c:204-215. */
    method InitUpdates()
      requires Orderly(pend) && updates == [] && miner.transHashes == AllHashes(Covered(pend, 0, 0))
      modifies this`updates
      ensures Replayable(miner.transHashes, updates) && Replay(miner.transHashes, updates) == AllHashes(pend)
    {
      for s := 0 to |pend|
        invariant Replayable(miner.transHashes, updates) && Replay(miner.transHashes, updates) == AllHashes(Covered(pend, s, 0))
      {
        InitShard(s);
      }
      assert Covered(pend, |pend|, 0) == pend;
    }

    /** The inner loop of init_updates. */
    method InitShard(s: nat)
      requires Orderly(pend) && s < |pend|
      requires Replayable(miner.transHashes, updates) && Replay(miner.transHashes, updates) == AllHashes(Covered(pend, s, 0))
      modifies this`updates
      ensures Replayable(miner.transHashes, updates) && Replay(miner.transHashes, updates) == AllHashes(Covered(pend, s + 1, 0))
    {
      ghost var th := miner.transHashes;
      for i := 0 to |pend[s]|
        invariant Replayable(th, updates) && Replay(th, updates) == AllHashes(Covered(pend, s, i))
      {
        InsertMirrors(Covered(pend, s, i), s, i, pend[s][i]);
        CoveredStep(pend, s, i);
        ReplaySnoc(th, updates, UpdateFor(pend, s, i));
        updates := updates + [UpdateFor(pend, s, i)];
      }
      CoveredEdges(pend, s);
    }

    /** insert_pending_tx (pending.c:104-140) and tell_generator_new_pending: the caller has
        checked that `tx` is not pending; `refs` is what create_refs returned. */
    method InsertPendingTx(shard: nat, tx: Tx, refs: Option<seq<nat>>) returns (inserted: bool)
      requires Valid() && shard < |pend| && tx !in Txs(pend[shard])
      modifies this`pend, this`updates
      ensures Valid() && pipe == old(pipe)
      ensures inserted <==> refs.Some? && |old(pend)[shard]| < ShardLimit
      ensures !inserted ==> pend == old(pend) && updates == old(updates)
      ensures |pend| == |old(pend)| && forall s :: 0 <= s < |pend| && s != shard ==> pend[s] == old(pend)[s]
      ensures inserted ==> multiset(pend[shard]) == multiset(old(pend)[shard]) + multiset{PendingTx(tx, refs.value)}
      ensures inserted ==> exists pos: nat :: InsertedAt(old(pend), old(updates), shard, PendingTx(tx, refs.value), pos, pend, updates)
    {
      if |pend[shard]| == ShardLimit || refs.None? {
        return false;
      }
      var found, pos := FindPendingInArr(Txs(pend[shard]), tx);
      var p := PendingTx(tx, refs.value);
      InsertKeepsOrder(pend, shard, pos, p);
      InsertMirrors(pend, shard, pos, p);
      var u := Update(shard, pos, HashOf(p));
      ReplaySnoc(miner.transHashes, pipe + updates, u);
      assert pipe + updates + [u] == pipe + (updates + [u]);
      assert pend[shard] == pend[shard][..pos] + pend[shard][pos..];
      pend := pend[shard := InsertAt(pend[shard], pos, p)];
      updates := updates + [u];
      assert InsertedAt(old(pend), old(updates), shard, p, pos, pend, updates);
      return true;
    }

    /** do_send_tx and tx_sent (generating.c:119-147): the oldest update goes down the pipe. */
    method SendUpdate()
      requires Valid()
      modifies this`updates, this`pipe
      ensures Valid() && pend == old(pend)
      ensures pipe + updates == old(pipe) + old(updates)
      ensures if old(updates) == [] then pipe == old(pipe) && updates == []
              else pipe == old(pipe) + [old(updates)[0]] && updates == old(updates)[1..]
    {
      if updates != [] {
        assert pipe + updates == (pipe + [updates[0]]) + updates[1..];
        pipe, updates := pipe + [updates[0]], updates[1..];
      }
    }

    /** One turn of read_txs (pettycoin-generate.c:289-293): none of add_tx's assertions can fail. */
    method ReadUpdate()
      requires Valid()
      modifies this`pipe, miner
      ensures Valid() && pend == old(pend) && updates == old(updates)
      ensures if old(pipe) == [] then pipe == [] && miner.transHashes == old(miner.transHashes)
              else
                && pipe == old(pipe)[1..] && Acceptable(old(miner.transHashes), old(pipe)[0])
                && miner.transHashes == Applied(old(miner.transHashes), old(pipe)[0])
      ensures miner.hdr == old(miner.hdr) && miner.tailer == old(miner.tailer) && miner.sha == old(miner.sha)
    {
      if pipe != [] {
        assert (pipe + updates)[0] == pipe[0] && (pipe + updates)[1..] == pipe[1..] + updates;
        var u := pipe[0];
        pipe := pipe[1..];
        miner.AddTx(u);
      }
    }

    /** The miner hashes: what it finds is the hash of the block it would write. */
    method Mine(beats: Digest -> bool, now: nat) returns (solved: bool)
      requires Valid()
      modifies miner
      ensures Valid() && solved == beats(miner.sha)
      ensures solved ==> miner.sha == HashBlock(miner.hdr, miner.shardNums, miner.merkles, miner.prevTxhashes, miner.tailer)
      ensures miner.transHashes == old(miner.transHashes)
      ensures miner.sha == BlockDigest(old(miner.hdr), miner.transHashes, miner.prevTxhashes, old(miner.tailer))
      ensures Try(miner.hdr, miner.tailer) ==
              if solved then old(Try(miner.hdr, miner.tailer)) else NextTry(old(Try(miner.hdr, miner.tailer)), now)
    {
      CachesAre(miner.transHashes, miner.shardNums, miner.merkles);
      solved := miner.SolveBlock(beats, now);
    }

    ghost function Now(): (s: Snapshot)
      reads this, miner
    {
      Snapshot(pend, updates, pipe, miner.transHashes, miner.hdr, miner.tailer, miner.sha)
    }

    /** One action; a transaction that is already pending is not inserted again. */
    method Act(a: Action)
      requires Valid()
      modifies this, miner
      ensures Valid() && Effect(old(Now()), a, miner.prevTxhashes, Now())
    {
      match a {
        case Insert(shard, tx, refs) =>
          if shard < |pend| && tx !in Txs(pend[shard]) {
            var _ := InsertPendingTx(shard, tx, refs);
          }
        case Send => SendUpdate();
        case Read => ReadUpdate();
        case Hash(beats, now) => var _ := Mine(beats, now);
      }
    }

    /** Any interleaving of both processes, with the states it goes through. */
    method Run(actions: seq<Action>) returns (ghost trace: seq<Snapshot>)
      requires Valid()
      modifies this, miner
      ensures Valid()
      ensures |trace| == |actions| + 1 && trace[0] == old(Now()) && trace[|actions|] == Now()
      ensures forall i: nat :: i < |actions| ==> Effect(trace[i], actions[i], miner.prevTxhashes, trace[i + 1])
    {
      trace := [Now()];
      for i := 0 to |actions|
        invariant Valid()
        invariant |trace| == i + 1 && trace[0] == old(Now()) && trace[i] == Now()
        invariant forall k: nat :: k < i ==> Effect(trace[k], actions[k], miner.prevTxhashes, trace[k + 1])
      {
        ghost var before := trace;
        Act(actions[i]);
        trace := trace + [Now()];
        forall k: nat | k < i + 1 ensures Effect(trace[k], actions[k], miner.prevTxhashes, trace[k + 1]) {
          assert k < i ==> Effect(before[k], actions[k], miner.prevTxhashes, before[k + 1]);
        }
      }
    }

    /** Delivering what is still on its way makes the miner work on exactly the hashes of the
        daemon's pending transactions. */
    method CatchUp()
      requires Valid()
      modifies this`pipe, this`updates, miner
      ensures Valid() && pend == old(pend) && miner.transHashes == AllHashes(pend)
      ensures |miner.merkles| == |pend|
      ensures forall s :: 0 <= s < |pend| ==> miner.merkles[s] == MerkleRoot(BlockShard.Pairs(AsEntries(pend[s])))
    {
      while updates != []
        invariant Valid() && pend == old(pend)
        decreases |updates|
      {
        SendUpdate();
      }
      while pipe != []
        invariant Valid() && pend == old(pend) && updates == []
        decreases |pipe|
      {
        ReadUpdate();
      }
      forall s | 0 <= s < |pend| ensures miner.merkles[s] == MerkleRoot(BlockShard.Pairs(AsEntries(pend[s]))) {
        assert miner.transHashes[s] == Hashes(pend[s]);
        HashesArePairs(pend[s]);
      }
    }
  }

  /** The state of both processes. */
  datatype Snapshot = Snapshot(pend: seq<seq<PendingTx>>, updates: seq<Update>, pipe: seq<Update>,
                               transHashes: seq<seq<TxRefHash>>, hdr: Header, tailer: Tailer, sha: Digest)

  function Sizes(th: seq<seq<TxRefHash>>): (r: seq<nat>) {
    seq(|th|, s requires 0 <= s < |th| => |th[s]|)
  }

  function Roots(th: seq<seq<TxRefHash>>): (r: seq<Sha>) {
    seq(|th|, s requires 0 <= s < |th| => MerkleRoot(th[s]))
  }

  /** The digest of the block with these transactions. */
  function BlockDigest(hdr: Header, th: seq<seq<TxRefHash>>, prevTxhashes: seq<nat>, tailer: Tailer): (d: Digest) {
    HashBlock(hdr, Sizes(th), Roots(th), prevTxhashes, tailer)
  }

  /** Blocks with the same digest are the same: header, transactions with their references, previous
      hashes and tailer. */
  lemma DigestBinds(hdr: Header, hdr': Header, pend: seq<seq<PendingTx>>, pend': seq<seq<PendingTx>>,
                    prevs: seq<nat>, prevs': seq<nat>, tailer: Tailer, tailer': Tailer)
    requires Orderly(pend) && Orderly(pend')
    requires BlockDigest(hdr, AllHashes(pend), prevs, tailer) == BlockDigest(hdr', AllHashes(pend'), prevs', tailer')
    ensures hdr == hdr' && pend == pend' && prevs == prevs' && tailer == tailer'
  {
    var th, th' := AllHashes(pend), AllHashes(pend');
    HashBlockInjective(hdr, hdr', Sizes(th), Sizes(th'), Roots(th), Roots(th'), prevs, prevs', tailer, tailer');
    assert |pend| == |Roots(th)| == |Roots(th')| == |pend'|;
    forall s | 0 <= s < |pend| ensures pend[s] == pend'[s] {
      assert Roots(th)[s] == Roots(th')[s];
      ShardBinds(pend[s], pend'[s]);
    }
  }

  lemma ShardBinds(ps: seq<PendingTx>, ps': seq<PendingTx>)
    requires |ps| <= ShardLimit && |ps'| <= ShardLimit && MerkleRoot(Hashes(ps)) == MerkleRoot(Hashes(ps'))
    ensures ps == ps'
  {
    HashesArePairs(ps);
    HashesArePairs(ps');
    var es, es' := AsEntries(ps), AsEntries(ps');
    BlockShard.KnownBinds(es, es');
    forall i | 0 <= i < |ps| ensures ps[i] == ps'[i] {
      assert es[i] == es'[i];
    }
  }

  lemma CachesAre(th: seq<seq<TxRefHash>>, nums: seq<nat>, merkles: seq<Sha>)
    requires |nums| == |th| == |merkles|
    requires forall s :: 0 <= s < |th| ==> nums[s] == |th[s]| && merkles[s] == MerkleRoot(th[s])
    ensures nums == Sizes(th) && merkles == Roots(th)
  {
  }

  /** What an action does. */
  ghost predicate Effect(s: Snapshot, a: Action, prevTxhashes: seq<nat>, s': Snapshot) {
    match a
    case Insert(shard, tx, refs) =>
      if shard < |s.pend| && tx !in Txs(s.pend[shard]) && refs.Some? && |s.pend[shard]| < ShardLimit then
        && s' == s.(pend := s'.pend, updates := s'.updates)
        && exists pos: nat :: InsertedAt(s.pend, s.updates, shard, PendingTx(tx, refs.value), pos, s'.pend, s'.updates)
      else s' == s
    case Send =>
      s' == if s.updates == [] then s else s.(pipe := s.pipe + [s.updates[0]], updates := s.updates[1..])
    case Read =>
      if s.pipe == [] then s' == s
      else Acceptable(s.transHashes, s.pipe[0]) && s' == s.(pipe := s.pipe[1..], transHashes := Applied(s.transHashes, s.pipe[0]))
    case Hash(beats, now) =>
      var sha := BlockDigest(s.hdr, s.transHashes, prevTxhashes, s.tailer);
      var try' := if beats(sha) then Try(s.hdr, s.tailer) else NextTry(Try(s.hdr, s.tailer), now);
      s' == s.(hdr := try'.hdr, tailer := try'.tailer, sha := sha)
  }

  lemma InsertKeepsOrder(pend: seq<seq<PendingTx>>, shard: nat, pos: nat, p: PendingTx)
    requires Orderly(pend) && shard < |pend| && |pend[shard]| < ShardLimit && Fits(Txs(pend[shard]), p.tx, pos)
    ensures Orderly(pend[shard := InsertAt(pend[shard], pos, p)])
  {
    InsertMaps(pend[shard], pos, p);
    InsertKeepsSorted(Txs(pend[shard]), p.tx, pos);
  }
}
