/**
 Filling a shard of a block (check_block.c, block_shard.c, recv_block.c, recv_tx.c):
 transactions and hashes arrive in any order, each with evidence that the block's merkle
 root commits to it.
 */
module BlockShard {
  import opened Wrappers
  import opened BitShift
  import opened TxOrder
  import opened Merkle

  /** union txp_or_hash with its bitmap and its NULL. */
  datatype Entry = Unknown | Hash(h: TxRefHash) | Known(tx: Tx, refs: seq<nat>)

  /** hash_tx_and_refs */
  function HashTxAndRefs(tx: Tx, refs: seq<nat>): (h: TxRefHash) {
    TxRefHash(OfTx(tx), OfRefs(refs))
  }

  /** txrefhash_in_shard, block_shard.c:45-59. */
  function PairOf(e: Entry): (r: Option<TxRefHash>) {
    match e
    case Unknown => None
    case Hash(h) => Some(h)
    case Known(tx, refs) => Some(HashTxAndRefs(tx, refs))
  }

  /** The root commits to the pair `h` at offset `off`. */
  ghost predicate Committed(root: Sha, off: nat, h: TxRefHash) {
    exists merkles: seq<Sha> :: |merkles| == Levels && Climb(LeafHash(h), off, merkles) == root
  }

  /** Whatever the root, it commits to at most one pair at each offset. */
  lemma CommittedOnce(root: Sha, off: nat, h: TxRefHash, h': TxRefHash)
    requires Committed(root, off, h) && Committed(root, off, h')
    ensures h == h'
  {
    var m: seq<Sha> :| |m| == Levels && Climb(LeafHash(h), off, m) == root;
    var m': seq<Sha> :| |m'| == Levels && Climb(LeafHash(h'), off, m') == root;
    ClimbBinds(LeafHash(h), LeafHash(h'), off, m, m');
  }

  lemma LevelsAre256()
    ensures Pow2(Levels) == 256
  {
  }

  lemma GenuineCommits(hs: seq<TxRefHash>, off: nat)
    requires off < |hs| <= 255
    ensures Committed(MerkleRoot(hs), off, hs[off])
  {
    LevelsAre256();
    TruePathFolds(hs, off, Levels);
  }

  lemma GenuineCommitsOnly(hs: seq<TxRefHash>, off: nat, h: TxRefHash)
    requires off <= 255 && Committed(MerkleRoot(hs), off, h)
    ensures off < |hs| && hs[off] == h
  {
    LevelsAre256();
    var m: seq<Sha> :| |m| == Levels && Climb(LeafHash(h), off, m) == MerkleRoot(hs);
    AcceptedIsLeaf(hs, off, h, m);
  }

  // ---------------------------------------------------------------- shards as values

  ghost function CountHashes(es: seq<Entry>): (n: nat) {
    if es == [] then 0 else CountHashes(es[..|es| - 1]) + (if es[|es| - 1].Hash? then 1 else 0)
  }

  ghost function CountTxs(es: seq<Entry>): (n: nat) {
    if es == [] then 0 else CountTxs(es[..|es| - 1]) + (if es[|es| - 1].Known? then 1 else 0)
  }

  lemma {:induction false} CountUpdate(es: seq<Entry>, i: nat, e: Entry)
    requires i < |es|
    ensures CountHashes(es[i := e]) + (if es[i].Hash? then 1 else 0) == CountHashes(es) + (if e.Hash? then 1 else 0)
    ensures CountTxs(es[i := e]) + (if es[i].Known? then 1 else 0) == CountTxs(es) + (if e.Known? then 1 else 0)
  {
    var n := |es| - 1;
    if i == n {
      assert es[i := e][..n] == es[..n];
    } else {
      assert es[i := e][..n] == es[..n][i := e];
      CountUpdate(es[..n], i, e);
    }
  }

  lemma {:induction false} CountAll(es: seq<Entry>)
    ensures CountTxs(es) + CountHashes(es) <= |es|
    ensures CountTxs(es) + CountHashes(es) == |es| <==> forall i :: 0 <= i < |es| ==> es[i] != Unknown
    ensures CountTxs(es) == |es| <==> forall i :: 0 <= i < |es| ==> es[i].Known?
    ensures CountTxs(es) == 0 <==> forall i :: 0 <= i < |es| ==> !es[i].Known?
    ensures CountHashes(es) == 0 <==> forall i :: 0 <= i < |es| ==> !es[i].Hash?
  {
    if es != [] {
      var n := |es| - 1;
      CountAll(es[..n]);
      assert forall i :: 0 <= i < n ==> es[..n][i] == es[i];
    }
  }

  /** Every filled slot holds what the root commits to. */
  ghost predicate AllCommitted(root: Sha, es: seq<Entry>) {
    forall i :: 0 <= i < |es| && es[i] != Unknown ==> Committed(root, i, PairOf(es[i]).value)
  }

  /** The transactions we have are in strictly increasing order. */
  ghost predicate Sorted(es: seq<Entry>) {
    forall i, j :: 0 <= i < j < |es| && es[i].Known? && es[j].Known? ==> TxCmp(es[i].tx, es[j].tx) < 0
  }

  /** Slots only move Unknown -> Hash -> Tx, and never change the pair they stand for. */
  ghost predicate Advanced(es: seq<Entry>, es': seq<Entry>) {
    && |es'| == |es|
    && forall i :: 0 <= i < |es| ==>
         && (es[i] != Unknown ==> PairOf(es'[i]) == PairOf(es[i]))
         && (es[i].Known? ==> es'[i] == es[i])
  }

  function Pairs(es: seq<Entry>): (hs: seq<TxRefHash>)
    requires forall i :: 0 <= i < |es| ==> es[i] != Unknown
    ensures |hs| == |es|
  {
    seq(|es|, i requires 0 <= i < |es| => PairOf(es[i]).value)
  }

  /** A completely filled shard hashes to the block's root exactly when that root was made
      from some list of that many pairs (block_shard.c:122-127). */
  lemma FilledReproducesRoot(root: Sha, es: seq<Entry>)
    requires |es| <= 255 && AllCommitted(root, es) && forall i :: 0 <= i < |es| ==> es[i] != Unknown
    ensures MerkleRoot(Pairs(es)) == root <==> exists hs: seq<TxRefHash> :: |hs| == |es| && MerkleRoot(hs) == root
  {
    forall hs: seq<TxRefHash> | |hs| == |es| && MerkleRoot(hs) == root ensures hs == Pairs(es) {
      forall i | 0 <= i < |es| ensures hs[i] == Pairs(es)[i] {
        GenuineCommitsOnly(hs, i, PairOf(es[i]).value);
      }
    }
    assert |Pairs(es)| == |es|;
  }

  /** The root of a shard that is known in full gives away every transaction and its references. */
  lemma KnownBinds(es: seq<Entry>, es': seq<Entry>)
    requires |es| <= 255 && |es'| <= 255
    requires (forall i :: 0 <= i < |es| ==> es[i].Known?) && (forall i :: 0 <= i < |es'| ==> es'[i].Known?)
    requires MerkleRoot(Pairs(es)) == MerkleRoot(Pairs(es'))
    ensures es == es'
  {
    LevelsAre256();
    RootBinds(Pairs(es), Pairs(es'), Levels);
    forall i | 0 <= i < |es| ensures es[i] == es'[i] {
      assert Pairs(es)[i] == Pairs(es')[i];
    }
  }

  // ---------------------------------------------------------------- canned proofs

  /** shard->proof: NULL, or for each slot NULL or a proof. */
  type Proofs = Option<seq<Option<seq<Sha>>>>

  /** The proof kept for slot `i`, if any. */
  function ProofAt(proof: Proofs, i: nat): (r: Option<seq<Sha>>) {
    if proof.Some? && i < |proof.value| then proof.value[i] else None
  }

  ghost predicate Proves(root: Sha, off: nat, h: TxRefHash, merkles: seq<Sha>) {
    |merkles| == Levels && Climb(LeafHash(h), off, merkles) == root
  }

  /** A proof is kept for what slot `i` holds, and it is right. */
  ghost predicate ProvenAt(root: Sha, es: seq<Entry>, proof: Proofs, i: nat)
    requires i < |es|
  {
    es[i] != Unknown && ProofAt(proof, i).Some? && Proves(root, i, PairOf(es[i]).value, ProofAt(proof, i).value)
  }

  ghost predicate Incomplete(es: seq<Entry>) {
    exists i: nat :: i < |es| && es[i] == Unknown
  }

  ghost predicate NothingFilled(es: seq<Entry>) {
    forall i: nat :: i < |es| ==> es[i] == Unknown
  }

  /** Transactions have their proofs as long as any proofs are kept, and those are kept
      while slots are missing: block_shard.c:82-83 and 105-110. */
  ghost predicate KnownProven(root: Sha, es: seq<Entry>, proof: Proofs) {
    && (proof.Some? ==> forall i: nat :: i < |es| && es[i].Known? ==> ProvenAt(root, es, proof, i))
    && (Incomplete(es) && proof.None? ==> forall i: nat :: i < |es| ==> !es[i].Known?)
  }

  /** While slots are missing, every filled slot and no other has its proof, and there are
      none only before the first arrival. */
  ghost predicate Canned(root: Sha, es: seq<Entry>, proof: Proofs) {
    Incomplete(es) ==>
      && (forall i: nat :: i < |es| ==> if es[i] == Unknown then ProofAt(proof, i).None? else ProvenAt(root, es, proof, i))
      && (proof.None? <==> NothingFilled(es))
  }

  lemma CountersExactly(es: seq<Entry>)
    ensures CountTxs(es) + CountHashes(es) == |es| <==> !Incomplete(es)
    ensures CountTxs(es) == |es| <==> forall i :: 0 <= i < |es| ==> es[i].Known?
  {
    CountAll(es);
  }

  // ---------------------------------------------------------------- the shard object

  class Shard {
    const size: nat
    /** block->merkles[shardnum] */
    const root: Sha
    var txcount: nat
    var hashcount: nat
    var entries: seq<Entry>
    /** The array of canned proofs, NULL when we can make our own. */
    var proof: Proofs

    /** What holds at every step, also while an arrival is being stored. */
    ghost predicate Sound()
      reads this
    {
      && size <= 255 && |entries| == size
      && txcount == CountTxs(entries) && hashcount == CountHashes(entries)
      && AllCommitted(root, entries)
      && Sorted(entries)
      && (proof.Some? ==> |proof.value| == size)
      && KnownProven(root, entries, proof)
    }

    /** What holds between arrivals. */
    ghost predicate Valid()
      reads this
    {
      Sound() && Canned(root, entries, proof)
    }

    /** new_block_shard, block_shard.c:31-41. */
    constructor (size: nat, root: Sha)
      requires size <= 255
      ensures Valid() && this.size == size && this.root == root
      ensures entries == seq(size, _ => Unknown) && proof == None
    {
      this.size := size;
      this.root := root;
      txcount, hashcount := 0, 0;
      entries := seq(size, _ => Unknown);
      proof := None;
      new;
      CountAll(entries);
    }

    predicate ShardAllHashes()
      reads this
    {
      txcount + hashcount == size
    }

    predicate ShardAllKnown()
      reads this
    {
      txcount == size
    }

    /** The counters tell exactly whether slots are missing (block_shard.c:61-70). */
    lemma CountersExact()
      requires Sound()
      ensures ShardAllHashes() <==> !Incomplete(entries)
      ensures ShardAllKnown() <==> forall i :: 0 <= i < size ==> entries[i].Known?
    {
      CountersExactly(entries);
    }

    /** Proofs are kept only as long as hashes are missing (block_shard.h:36), as
        check_block_shard asserts it (block_shard.c:80-81). */
    predicate ProofsDropped()
      reads this
    {
      ShardAllHashes() ==> proof.None?
    }

    /** All of check_block_shard's assertions about proofs, block_shard.c:80-83 and 105-110. */
    ghost predicate ProofAssertions()
      reads this
      requires |entries| == size
    {
      && ProofsDropped()
      && (!ShardAllHashes() && txcount != 0 ==> proof.Some?)
      && (proof.Some? ==> forall i: nat :: i < size && entries[i].Known? ==> ProvenAt(root, entries, proof, i))
    }

    /** At every step only the first of them can fail. */
    lemma OnlyStaleProofsFail()
      requires Sound()
      ensures ProofAssertions() <==> ProofsDropped()
    {
      CountersExact();
      CountAll(entries);
    }

    /** create_proof, proof.c:10-40, for a slot we can prove: its assertion, that without a canned
        proof all hashes are there, never fails. */
    method CreateProofFor(off: nat) returns (merkles: seq<Sha>)
      requires Valid() && off < size && entries[off] != Unknown
      ensures if ProofAt(proof, off).Some? then merkles == ProofAt(proof, off).value
              else !Incomplete(entries) && |merkles| == Levels && IsCreated(Pairs(entries), off, merkles)
      ensures Incomplete(entries) ==> Proves(root, off, PairOf(entries[off]).value, merkles)
    {
      if proof.Some? && proof.value[off].Some? {
        return proof.value[off].value;
      }
      CountersExact();
      assert ShardAllHashes();
      merkles := CreateProof(Pairs(entries), off);
    }

    /** check_proof_byhash, proof.c:63-83. */
    method CheckProofByHash(off: nat, h: TxRefHash, merkles: seq<Sha>) returns (ok: bool)
      requires |merkles| == Levels
      ensures ok <==> off < size && Proves(root, off, h, merkles)
    {
      if off >= size {
        return false;
      }
      var merkle := ProofMerklesTo(h, off, merkles);
      return merkle == root;
    }

    /** check_tx_ordering, check_block.c:99-136. */
    method CheckTxOrdering(off: nat, tx: Tx) returns (ok: bool, bad: nat)
      requires Sound() && off < size
      ensures ok <==> Sorted(entries[off := Known(tx, [])])
      ensures !ok ==> bad < size && bad != off && entries[bad].Known? &&
                      (if bad < off then TxCmp(entries[bad].tx, tx) >= 0 else TxCmp(tx, entries[bad].tx) >= 0)
    {
      CountAll(entries);
      if txcount == 0 {
        return true, 0;
      }
      var before := NearestBefore(off);
      if before.Some? && TxCmp(entries[before.value].tx, tx) >= 0 {
        Misplaced(entries, off, tx, before.value);
        return false, before.value;
      }
      var after := NearestAfter(off);
      if after.Some? && TxCmp(tx, entries[after.value].tx) >= 0 {
        Misplaced(entries, off, tx, after.value);
        return false, after.value;
      }
      NeighboursSuffice(entries, off, tx, before, after);
      return true, 0;
    }

    /** The loop of check_block.c:114-123. */
    method NearestBefore(off: nat) returns (r: Option<nat>)
      requires Sound() && off < size
      ensures IsBefore(entries, off, r)
    {
      var i := off - 1;
      while i >= 0
        invariant -1 <= i < off
        invariant forall k :: i < k < off ==> !entries[k].Known?
      {
        if entries[i].Known? {
          return Some(i);
        }
        i := i - 1;
      }
      return None;
    }

    /** The loop of check_block.c:126-135. */
    method NearestAfter(off: nat) returns (r: Option<nat>)
      requires Sound() && off < size
      ensures IsAfter(entries, off, r)
    {
      for i := off + 1 to size
        invariant forall k :: off < k < i ==> !entries[k].Known?
      {
        if entries[i].Known? {
          return Some(i);
        }
      }
      return None;
    }

    /** put_proof_in_shard, check_block.c:291-311: the first proof for a slot is kept. */
    method PutProof(off: nat, merkles: seq<Sha>)
      requires Sound() && off < size
      modifies this`proof
      ensures Sound()
      ensures !Incomplete(entries) ==> proof == old(proof)
      ensures Incomplete(entries) ==>
                ProofAt(proof, off) == (if ProofAt(old(proof), off).Some? then ProofAt(old(proof), off) else Some(merkles))
      ensures forall i: nat :: i < size && i != off ==> ProofAt(proof, i) == ProofAt(old(proof), i)
    {
      CountersExact();
      if ShardAllHashes() {
        return;
      }
      if proof.None? {
        proof := Some(seq(size, _ => None));
      }
      if proof.value[off].Some? {
        return;
      }
      proof := Some(proof.value[off := Some(merkles)]);
    }

    /** put_tx_in_shard, check_block.c:199-255: the two assertions of the source are the
        asserts below.  The caller has put the proof in first, unless all hashes are there. */
    method PutTx(off: nat, tx: Tx, refs: seq<nat>)
      requires Sound() && off < size && Committed(root, off, HashTxAndRefs(tx, refs))
      requires Sorted(entries[off := Known(tx, [])])
      requires Incomplete(entries) ==>
                 ProofAt(proof, off).Some? && Proves(root, off, HashTxAndRefs(tx, refs), ProofAt(proof, off).value)
      modifies this
      ensures Sound() && Advanced(old(entries), entries)
      ensures entries == old(entries)[off := Known(tx, refs)]
      ensures !old(entries)[off].Known? ==> proof == (if Incomplete(entries) then old(proof) else None) && ProofsDropped()
      ensures old(entries)[off].Known? ==> proof == old(proof)
    {
      PutKeeps(root, entries, off, tx, refs);
      if entries[off].Known? {
        assert entries[off].tx == tx && entries[off].refs == refs;
        return;
      }
      assert entries[off].Hash? ==> entries[off].h == HashTxAndRefs(tx, refs);
      FilledProven(root, entries, proof, off, Known(tx, refs));
      Fill(off, Known(tx, refs));
      CountersExactly(entries);
      if ShardAllHashes() {
        proof := None;
      }
    }

    /** check_block.c:224-232: the slot and the counters. */
    method Fill(off: nat, e: Entry)
      requires |entries| == size && off < size && !entries[off].Known? && e.Known?
      requires txcount == CountTxs(entries) && hashcount == CountHashes(entries)
      modifies this`entries, this`txcount, this`hashcount
      ensures entries == old(entries)[off := e]
      ensures txcount == CountTxs(entries) && hashcount == CountHashes(entries)
    {
      CountUpdate(entries, off, e);
      if entries[off].Hash? {
        hashcount := hashcount - 1;
      }
      entries := entries[off := e];
      txcount := txcount + 1;
    }

    /** put_txhash_in_shard, check_block.c:257-289.  The canned proofs stay, even when this
        was the last missing hash. */
    method PutTxHash(off: nat, h: TxRefHash) returns (added: bool)
      requires Sound() && off < size && Committed(root, off, h)
      modifies this`entries, this`hashcount
      ensures Sound() && Advanced(old(entries), entries)
      ensures added <==> old(entries)[off] == Unknown
      ensures entries == if added then old(entries)[off := Hash(h)] else old(entries)
      ensures PairOf(entries[off]) == Some(h)
      ensures ProofsDropped() <==> Incomplete(entries) || proof.None?
    {
      if entries[off] != Unknown {
        CommittedOnce(root, off, PairOf(entries[off]).value, h);
        assert PairOf(entries[off]).value == h;
        CountersExact();
        return false;
      }
      CountUpdate(entries, off, Hash(h));
      FilledProven(root, entries, proof, off, Hash(h));
      HashKeeps(root, entries, off, h);
      entries := entries[off := Hash(h)];
      hashcount := hashcount + 1;
      CountersExact();
      return true;
    }

    /** A transaction with its proof (recv_tx.c:96-130): stored if proven, found good by
        check_tx_inputs_and_refs, and in order. */
    method RecvTx(off: nat, tx: Tx, refs: seq<nat>, merkles: seq<Sha>, inputsOk: bool)
      requires Valid() && |merkles| == Levels
      modifies this
      ensures Valid() && Advanced(old(entries), entries)
      ensures entries == if inputsOk && TxStored(old(entries), root, off, tx, refs, merkles) then old(entries)[off := Known(tx, refs)] else old(entries)
      ensures if entries == old(entries) then ProofsDropped() == old(ProofsDropped()) else ProofsDropped()
    {
      var ok := CheckProofByHash(off, HashTxAndRefs(tx, refs), merkles);
      if !ok || !inputsOk {
        return;
      }
      var ordered, _ := CheckTxOrdering(off, tx);
      if ordered {
        StoreProven(off, tx, refs, merkles);
      }
    }

    /** recv_tx.c:125-130 */
    method StoreProven(off: nat, tx: Tx, refs: seq<nat>, merkles: seq<Sha>)
      requires Valid() && off < size && Proves(root, off, HashTxAndRefs(tx, refs), merkles)
      requires Sorted(entries[off := Known(tx, [])])
      modifies this
      ensures Valid() && Advanced(old(entries), entries)
      ensures entries == old(entries)[off := Known(tx, refs)]
      ensures if entries == old(entries) then ProofsDropped() == old(ProofsDropped()) else ProofsDropped()
    {
      var h := HashTxAndRefs(tx, refs);
      assert Committed(root, off, h);
      PutKeeps(root, entries, off, tx, refs);
      PutProof(off, merkles);
      ghost var between := proof;
      PutTx(off, tx, refs);
      StillMissing(old(entries), off, Known(tx, refs));
      CannedAfter(root, old(entries), old(proof), off, Known(tx, refs), between);
    }

    /** A hash pair with its proof (peer.c:780-797): stored if proven and new.  The assertion on
        proofs then holds exactly if a slot is still missing or this was the only one. */
    method RecvTxHash(off: nat, h: TxRefHash, merkles: seq<Sha>)
      requires Valid() && |merkles| == Levels
      modifies this
      ensures Valid() && Advanced(old(entries), entries)
      ensures entries == if HashStored(old(entries), root, off, h, merkles) then old(entries)[off := Hash(h)] else old(entries)
      ensures !HashStored(old(entries), root, off, h, merkles) ==> ProofsDropped() == old(ProofsDropped())
      ensures HashStored(old(entries), root, off, h, merkles) ==>
                (ProofsDropped() <==> size == 1 || exists i: nat :: i < size && i != off && old(entries)[i] == Unknown)
    {
      var ok := CheckProofByHash(off, h, merkles);
      if !ok {
        return;
      }
      assert Committed(root, off, h);
      var added := PutTxHash(off, h);
      if added {
        LastHash(old(entries), off, h);
        assert ProofAt(old(proof), off).None?;
        PutProof(off, merkles);
        CannedAfter(root, old(entries), old(proof), off, Hash(h), proof);
        CountersExact();
      }
    }

    /** All hash pairs of the shard at once (recv_block.c:345-364).  On a shard with slots missing
        the assertion on proofs then holds exactly if nothing was there before. */
    method RecvShard(hashes: seq<TxRefHash>)
      requires Valid()
      modifies this`entries, this`hashcount
      ensures Valid() && Advanced(old(entries), entries)
      ensures if |hashes| == size && MerkleRoot(hashes) == root then Completed(old(entries), entries, hashes) else entries == old(entries)
      ensures entries == old(entries) ==> ProofsDropped() == old(ProofsDropped())
      ensures |hashes| == size && MerkleRoot(hashes) == root && Incomplete(old(entries)) ==>
                (ProofsDropped() <==> NothingFilled(old(entries)))
    {
      if |hashes| != size || MerkleRoot(hashes) != root {
        return;
      }
      forall i | 0 <= i < size ensures Committed(root, i, hashes[i]) {
        GenuineCommits(hashes, i);
      }
      PutTxHashes(hashes);
      CountersExact();
    }

    /** The loop of recv_block.c:363-364. */
    method PutTxHashes(hashes: seq<TxRefHash>)
      requires Sound() && |hashes| == size && forall i :: 0 <= i < size ==> Committed(root, i, hashes[i])
      modifies this`entries, this`hashcount
      ensures Sound() && Advanced(old(entries), entries)
      ensures Completed(old(entries), entries, hashes)
      ensures entries == old(entries) ==> hashcount == old(hashcount)
    {
      for i := 0 to size
        invariant Sound() && Advanced(old(entries), entries)
        invariant forall k: nat :: k < i ==> entries[k] == if old(entries)[k] == Unknown then Hash(hashes[k]) else old(entries)[k]
        invariant forall k: nat :: k < i ==> PairOf(entries[k]) == Some(hashes[k])
        invariant forall k: nat :: i <= k < size ==> entries[k] == old(entries)[k]
      {
        PutOneHash(i, hashes[i], old(entries));
      }
    }

    method PutOneHash(off: nat, h: TxRefHash, ghost first: seq<Entry>)
      requires Sound() && off < size && Committed(root, off, h) && Advanced(first, entries)
      modifies this`entries, this`hashcount
      ensures Sound() && Advanced(first, entries)
      ensures entries == if old(entries)[off] == Unknown then old(entries)[off := Hash(h)] else old(entries)
      ensures PairOf(entries[off]) == Some(h)
    {
      var _ := PutTxHash(off, h);
      AdvancedTransitive(first, old(entries), entries);
    }

    /** A transaction we have elsewhere turns out to match a hash (recv_block.c:216-247):
        stored if in order. */
    method TryResolve(off: nat, tx: Tx, refs: seq<nat>)
      requires Valid()
      modifies this
      ensures Valid() && Advanced(old(entries), entries)
      ensures entries == if Resolves(old(entries), off, tx, refs) then old(entries)[off := Known(tx, refs)] else old(entries)
      ensures if Resolves(old(entries), off, tx, refs) then ProofsDropped() else ProofsDropped() == old(ProofsDropped())
    {
      if off < size && entries[off].Hash? && entries[off].h == HashTxAndRefs(tx, refs) {
        var ordered, _ := CheckTxOrdering(off, tx);
        if ordered {
          assert PairOf(entries[off]).value == HashTxAndRefs(tx, refs);
          PutTx(off, tx, refs);
          StillMissing(old(entries), off, Known(tx, refs));
          CannedAfter(root, old(entries), old(proof), off, Known(tx, refs), old(proof));
        }
      }
    }

    /** One arrival.  The assertion on proofs fails afterwards exactly when hashes filled the last
        slots of a shard that held something, or it failed before and nothing was stored. */
    method Receive(a: Arrival)
      requires Valid() && a.WellFormed()
      modifies this
      ensures Valid() && Advanced(old(entries), entries)
      ensures entries == Received(old(entries), root, a)
      ensures ProofsDropped() <==>
        if entries == old(entries) then old(ProofsDropped())
        else a.ProvenTx? || a.Resolved? || Incomplete(entries) || NothingFilled(old(entries))
    {
      match a
      case ProvenTx(off, tx, refs, merkles, inputsOk) => RecvTx(off, tx, refs, merkles, inputsOk);
      case ProvenHash(off, h, merkles) =>
        RecvTxHash(off, h, merkles);
        if HashStored(old(entries), root, off, h, merkles) {
          LastHash(old(entries), off, h);
        }
      case WholeShard(hashes) =>
        RecvShard(hashes);
        CompletedChanges(old(entries), entries, hashes);
        if Completed(old(entries), entries, hashes) {
          assert entries == Filled(old(entries), hashes);
        }
      case Resolved(off, tx, refs) => TryResolve(off, tx, refs);
    }

    /** Any interleaving of arrivals. */
    method Run(arrivals: seq<Arrival>)
      requires Valid()
      requires forall i :: 0 <= i < |arrivals| ==> arrivals[i].WellFormed()
      modifies this
      ensures Valid() && Advanced(old(entries), entries)
      ensures entries == AllReceived(old(entries), root, arrivals)
      ensures old(ProofsDropped()) && (forall i :: 0 <= i < |arrivals| ==> arrivals[i].ProvenTx? || arrivals[i].Resolved?) ==>
                ProofsDropped()
    {
      for i := 0 to |arrivals|
        invariant Valid() && Advanced(old(entries), entries)
        invariant entries == AllReceived(old(entries), root, arrivals[..i])
        invariant old(ProofsDropped()) && (forall k :: 0 <= k < i ==> arrivals[k].ProvenTx? || arrivals[k].Resolved?) ==>
                    ProofsDropped()
      {
        ghost var before := entries;
        Receive(arrivals[i]);
        AdvancedTransitive(old(entries), before, entries);
        assert arrivals[..i + 1][..i] == arrivals[..i];
      }
      assert arrivals[..|arrivals|] == arrivals;
    }
  }

  /** One transaction arrives with its proof, then the whole shard's hashes: check_block_shard's
      assertion fails. */
  method StaleProofs(tx: Tx, refs: seq<nat>, other: TxRefHash) returns (s: Shard)
    ensures s.Valid() && !s.ProofsDropped()
  {
    var hs := [HashTxAndRefs(tx, refs), other];
    s := new Shard(2, MerkleRoot(hs));
    LevelsAre256();
    var merkles := CreateProof(hs, 0);
    CreatedProofChecks(hs, 0, merkles);
    SortedAlone(s.entries, 0, tx);
    assert s.entries[1] == Unknown;
    s.RecvTx(0, tx, refs, merkles, true);
    assert s.entries[1] == Unknown && s.entries[0] != Unknown;
    s.RecvShard(hs);
  }

  lemma SortedAlone(es: seq<Entry>, off: nat, tx: Tx)
    requires off < |es| && forall i :: 0 <= i < |es| ==> !es[i].Known?
    ensures Sorted(es[off := Known(tx, [])])
  {
  }

  /** Filling every missing slot of `es` from `hashes` gives `es'`. */
  ghost predicate Completed(es: seq<Entry>, es': seq<Entry>, hashes: seq<TxRefHash>) {
    && |es'| == |es| == |hashes|
    && forall i: nat :: i < |es| ==>
         es'[i] == (if es[i] == Unknown then Hash(hashes[i]) else es[i]) && PairOf(es'[i]) == Some(hashes[i])
  }

  lemma CompletedChanges(es: seq<Entry>, es': seq<Entry>, hashes: seq<TxRefHash>)
    ensures Completed(es, es', hashes) ==> !Incomplete(es') && (es' == es <==> !Incomplete(es))
  {
    if Completed(es, es', hashes) && Incomplete(es) {
      var i: nat :| i < |es| && es[i] == Unknown;
      assert es'[i] != es[i];
    }
  }

  ghost predicate HashStored(es: seq<Entry>, root: Sha, off: nat, h: TxRefHash, merkles: seq<Sha>) {
    off < |es| && es[off] == Unknown && Proves(root, off, h, merkles)
  }

  ghost predicate Resolves(es: seq<Entry>, off: nat, tx: Tx, refs: seq<nat>) {
    off < |es| && es[off] == Hash(HashTxAndRefs(tx, refs)) && Sorted(es[off := Known(tx, [])])
  }

  /** What one more hash leaves missing. */
  lemma LastHash(es: seq<Entry>, off: nat, h: TxRefHash)
    requires off < |es| && es[off] == Unknown
    ensures Incomplete(es) && es[off := Hash(h)] != es
    ensures Incomplete(es[off := Hash(h)]) <==> exists i: nat :: i < |es| && i != off && es[i] == Unknown
    ensures !Incomplete(es[off := Hash(h)]) ==> (NothingFilled(es) <==> |es| == 1)
  {
    var es' := es[off := Hash(h)];
    assert es'[off] != es[off];
    if i: nat :| i < |es| && i != off && es[i] == Unknown {
      assert es'[i] == Unknown;
    }
    if !Incomplete(es') && |es| > 1 {
      var k: nat := if off == 0 then 1 else 0;
      assert es'[k] != Unknown;
    }
  }

  /** The proof is good and the transaction fits in order. */
  ghost predicate TxStored(es: seq<Entry>, root: Sha, off: nat, tx: Tx, refs: seq<nat>, merkles: seq<Sha>) {
    off < |es| && Proves(root, off, HashTxAndRefs(tx, refs), merkles) && Sorted(es[off := Known(tx, [])])
  }

  /** Filling a slot keeps the transactions proven, if a new transaction has its proof. */
  lemma FilledProven(root: Sha, es: seq<Entry>, proof: Proofs, off: nat, e: Entry)
    requires off < |es| && !es[off].Known? && e != Unknown && KnownProven(root, es, proof)
    requires e.Known? && Incomplete(es) ==>
               ProofAt(proof, off).Some? && Proves(root, off, PairOf(e).value, ProofAt(proof, off).value)
    ensures !e.Known? || Incomplete(es) ==> KnownProven(root, es[off := e], proof)
    ensures KnownProven(root, es[off := e], None) || Incomplete(es[off := e])
    ensures Incomplete(es[off := e]) ==> Incomplete(es)
  {
    var es' := es[off := e];
    if Incomplete(es') {
      var i: nat :| i < |es'| && es'[i] == Unknown;
      assert es[i] == Unknown;
    }
    forall i: nat | i < |es'| && es'[i].Known? && proof.Some? && (!e.Known? || Incomplete(es)) ensures ProvenAt(root, es', proof, i) {
      if i != off {
        assert ProvenAt(root, es, proof, i);
      }
    }
  }

  lemma StillMissing(es: seq<Entry>, off: nat, e: Entry)
    requires off < |es| && e != Unknown
    ensures Incomplete(es[off := e]) ==> Incomplete(es)
  {
    var es' := es[off := e];
    if i: nat :| i < |es'| && es'[i] == Unknown {
      assert es[i] == Unknown;
    }
  }

  /** Filling one slot, with its proof, keeps every filled slot proven. */
  lemma CannedAfter(root: Sha, es: seq<Entry>, proof: Proofs, off: nat, e: Entry, proof': Proofs)
    requires off < |es| && e != Unknown && Canned(root, es, proof)
    requires Incomplete(es[off := e]) ==>
      && ProofAt(proof', off).Some? && Proves(root, off, PairOf(e).value, ProofAt(proof', off).value)
      && forall i: nat :: i < |es| && i != off ==> ProofAt(proof', i) == ProofAt(proof, i)
    ensures Canned(root, es[off := e], proof')
  {
    var es' := es[off := e];
    if Incomplete(es') {
      var k: nat :| k < |es'| && es'[k] == Unknown;
      assert es[k] == Unknown;
      forall i: nat | i < |es'|
        ensures if es'[i] == Unknown then ProofAt(proof', i).None? else ProvenAt(root, es', proof', i)
      {
        if i != off {
          assert es[i] == Unknown || ProvenAt(root, es, proof, i);
        }
      }
      assert es'[off] != Unknown;
    }
  }

  /** What can reach a shard. */
  datatype Arrival =
    | ProvenTx(off: nat, tx: Tx, refs: seq<nat>, merkles: seq<Sha>, inputsOk: bool)
    | ProvenHash(off: nat, h: TxRefHash, merkles: seq<Sha>)
    | WholeShard(hashes: seq<TxRefHash>)
    | Resolved(off: nat, tx: Tx, refs: seq<nat>)
  {
    /** A proof has one hash for each level. */
    predicate WellFormed() {
      ProvenTx? || ProvenHash? ==> |merkles| == Levels
    }
  }

  ghost function Filled(es: seq<Entry>, hashes: seq<TxRefHash>): (r: seq<Entry>)
    requires |hashes| == |es|
    ensures |r| == |es|
  {
    seq(|es|, i requires 0 <= i < |es| => if es[i] == Unknown then Hash(hashes[i]) else es[i])
  }

  /** What an arrival makes of the slots. */
  ghost function Received(es: seq<Entry>, root: Sha, a: Arrival): (r: seq<Entry>) {
    match a
    case ProvenTx(off, tx, refs, merkles, inputsOk) =>
      if inputsOk && TxStored(es, root, off, tx, refs, merkles) then es[off := Known(tx, refs)] else es
    case ProvenHash(off, h, merkles) => if HashStored(es, root, off, h, merkles) then es[off := Hash(h)] else es
    case WholeShard(hashes) => if |hashes| == |es| && MerkleRoot(hashes) == root then Filled(es, hashes) else es
    case Resolved(off, tx, refs) => if Resolves(es, off, tx, refs) then es[off := Known(tx, refs)] else es
  }

  ghost function AllReceived(es: seq<Entry>, root: Sha, arrivals: seq<Arrival>): (r: seq<Entry>) {
    if arrivals == [] then es
    else Received(AllReceived(es, root, arrivals[..|arrivals| - 1]), root, arrivals[|arrivals| - 1])
  }

  lemma AdvancedTransitive(a: seq<Entry>, b: seq<Entry>, c: seq<Entry>)
    requires Advanced(a, b) && Advanced(b, c)
    ensures Advanced(a, c)
  {
  }

  /** Storing a committed transaction in order keeps the shard as it should be. */
  lemma PutKeeps(root: Sha, es: seq<Entry>, off: nat, tx: Tx, refs: seq<nat>)
    requires off < |es| && AllCommitted(root, es) && Committed(root, off, HashTxAndRefs(tx, refs))
    requires Sorted(es[off := Known(tx, [])])
    ensures var es' := es[off := Known(tx, refs)];
            AllCommitted(root, es') && Sorted(es') && Advanced(es, es')
    ensures es[off].Hash? ==> es[off].h == HashTxAndRefs(tx, refs)
    ensures es[off].Known? ==> es[off] == Known(tx, refs)
  {
    if es[off] != Unknown {
      CommittedOnce(root, off, PairOf(es[off]).value, HashTxAndRefs(tx, refs));
    }
    var plain, es' := es[off := Known(tx, [])], es[off := Known(tx, refs)];
    assert forall i :: 0 <= i < |es| ==> plain[i].Known? == es'[i].Known? && (es'[i].Known? ==> plain[i].tx == es'[i].tx);
  }

  lemma HashKeeps(root: Sha, es: seq<Entry>, off: nat, h: TxRefHash)
    requires off < |es| && es[off] == Unknown && AllCommitted(root, es) && Committed(root, off, h) && Sorted(es)
    ensures var es' := es[off := Hash(h)]; AllCommitted(root, es') && Sorted(es') && Advanced(es, es')
  {
  }

  ghost predicate IsBefore(es: seq<Entry>, off: nat, r: Option<nat>)
    requires off < |es|
  {
    match r
    case None => forall k :: 0 <= k < off ==> !es[k].Known?
    case Some(i) => i < off && es[i].Known? && forall k :: i < k < off ==> !es[k].Known?
  }

  ghost predicate IsAfter(es: seq<Entry>, off: nat, r: Option<nat>)
    requires off < |es|
  {
    match r
    case None => forall k :: off < k < |es| ==> !es[k].Known?
    case Some(i) => off < i < |es| && es[i].Known? && forall k :: off < k < i ==> !es[k].Known?
  }

  lemma Misplaced(es: seq<Entry>, off: nat, tx: Tx, i: nat)
    requires off < |es| && i < |es| && i != off && es[i].Known?
    requires if i < off then TxCmp(es[i].tx, tx) >= 0 else TxCmp(tx, es[i].tx) >= 0
    ensures !Sorted(es[off := Known(tx, [])])
  {
    var es' := es[off := Known(tx, [])];
    assert es'[off].tx == tx && es'[i] == es[i];
  }

  /** Looking at the nearest known neighbours on both sides is enough. */
  lemma NeighboursSuffice(es: seq<Entry>, off: nat, tx: Tx, before: Option<nat>, after: Option<nat>)
    requires off < |es| && Sorted(es) && IsBefore(es, off, before) && IsAfter(es, off, after)
    requires before.Some? ==> TxCmp(es[before.value].tx, tx) < 0
    requires after.Some? ==> TxCmp(tx, es[after.value].tx) < 0
    ensures Sorted(es[off := Known(tx, [])])
  {
    var es' := es[off := Known(tx, [])];
    forall i, j | 0 <= i < j < |es'| && es'[i].Known? && es'[j].Known?
      ensures TxCmp(es'[i].tx, es'[j].tx) < 0
    {
      if j == off && i != before.value {
        TxCmpTransitive(es[i].tx, es[before.value].tx, tx);
      } else if i == off && j != after.value {
        TxCmpTransitive(tx, es[after.value].tx, es[j].tx);
      }
    }
  }
}
