/**
 The miner process (pettycoin-generate.c) and its mirror of the daemon's pending
 transactions (pending.c, generating.c): updates are queued, piped and replayed in another
 process, which mines on a cached hash context.
 */
module Miner {
  import opened Merkle
  import opened Pending

  // ---------------------------------------------------------------- hashing a block

  datatype Header = Header(nonce2: seq<nat>, prevBlock: nat, numShards: nat, depth: nat, feesTo: nat)
  datatype Tailer = Tailer(timestamp: nat, nonce1: nat, difficulty: nat)

  /** What is fed into a SHA context; contexts with different feeds give different digests. */
  datatype Item = Byte(b: nat) | OfMerkle(m: Sha) | OfDigest(d: Digest) | OfHeader(h: Header) | OfCount(n: nat) | OfTailer(t: Tailer)
  datatype Digest = Double(fed: seq<Item>)

  function Bytes(bs: seq<nat>): (r: seq<Item>) {
    seq(|bs|, i requires 0 <= i < |bs| => Byte(bs[i]))
  }

  function Merkles(ms: seq<Sha>): (r: seq<Item>) {
    seq(|ms|, i requires 0 <= i < |ms| => OfMerkle(ms[i]))
  }

  function Counts(ns: seq<nat>): (r: seq<Item>) {
    seq(|ns|, i requires 0 <= i < |ns| => OfCount(ns[i]))
  }

  /** hash_block, hash_block.c:7-38: from scratch. */
  function HashBlock(hdr: Header, shardNums: seq<nat>, merkles: seq<Sha>, prevTxhashes: seq<nat>, tailer: Tailer): (d: Digest) {
    var hashOfPrev := Double(Bytes(prevTxhashes));
    var hashOfMerkles := Double(Merkles(merkles));
    Double([OfDigest(hashOfPrev)] + [OfDigest(hashOfMerkles)] + [OfHeader(hdr)] + Counts(shardNums) + [OfTailer(tailer)])
  }

  /** A digest commits to everything that goes into it. */
  lemma HashBlockInjective(hdr: Header, hdr': Header, nums: seq<nat>, nums': seq<nat>, merkles: seq<Sha>, merkles': seq<Sha>,
                           prevs: seq<nat>, prevs': seq<nat>, tailer: Tailer, tailer': Tailer)
    requires HashBlock(hdr, nums, merkles, prevs, tailer) == HashBlock(hdr', nums', merkles', prevs', tailer')
    ensures hdr == hdr' && nums == nums' && merkles == merkles' && prevs == prevs' && tailer == tailer'
  {
    var fed, fed' := HashBlock(hdr, nums, merkles, prevs, tailer).fed, HashBlock(hdr', nums', merkles', prevs', tailer').fed;
    var n := |nums|;
    assert |fed| == n + 4 && |fed'| == |nums'| + 4;
    assert fed[0] == fed'[0] && fed[1] == fed'[1] && fed[2] == fed'[2] && fed[n + 3] == fed'[n + 3];
    BytesInjective(prevs, prevs');
    MerklesInjective(merkles, merkles');
    assert fed[3..n + 3] == Counts(nums) && fed'[3..n + 3] == Counts(nums');
    CountsInjective(nums, nums');
  }

  lemma BytesInjective(a: seq<nat>, b: seq<nat>)
    requires Bytes(a) == Bytes(b)
    ensures a == b
  {
    forall i | 0 <= i < |a| ensures a[i] == b[i] {
      assert Bytes(a)[i] == Bytes(b)[i];
    }
  }

  lemma MerklesInjective(a: seq<Sha>, b: seq<Sha>)
    requires Merkles(a) == Merkles(b)
    ensures a == b
  {
    forall i | 0 <= i < |a| ensures a[i] == b[i] {
      assert Merkles(a)[i] == Merkles(b)[i];
    }
  }

  lemma CountsInjective(a: seq<nat>, b: seq<nat>)
    requires Counts(a) == Counts(b)
    ensures a == b
  {
    forall i | 0 <= i < |a| ensures a[i] == b[i] {
      assert Counts(a)[i] == Counts(b)[i];
    }
  }

  // ---------------------------------------------------------------- updates

  /** struct gen_update */
  datatype Update = Update(shard: nat, txoff: nat, hashes: TxRefHash)

  const ShardLimit: nat := 255

  /** The assertions of add_tx (pettycoin-generate.c:180-182). */
  predicate Acceptable(th: seq<seq<TxRefHash>>, u: Update) {
    u.shard < |th| && |th[u.shard]| < ShardLimit && u.txoff <= |th[u.shard]|
  }

  function Applied(th: seq<seq<TxRefHash>>, u: Update): (r: seq<seq<TxRefHash>>)
    requires Acceptable(th, u)
  {
    th[u.shard := InsertAt(th[u.shard], u.txoff, u.hashes)]
  }

  /** Replaying a queue never trips an assertion of add_tx. */
  ghost predicate Replayable(th: seq<seq<TxRefHash>>, us: seq<Update>)
    decreases |us|
  {
    us == [] || (Acceptable(th, us[0]) && Replayable(Applied(th, us[0]), us[1..]))
  }

  ghost function Replay(th: seq<seq<TxRefHash>>, us: seq<Update>): (r: seq<seq<TxRefHash>>)
    requires Replayable(th, us)
    decreases |us|
  {
    if us == [] then th else Replay(Applied(th, us[0]), us[1..])
  }

  lemma {:induction false} ReplaySnoc(th: seq<seq<TxRefHash>>, us: seq<Update>, u: Update)
    requires Replayable(th, us) && Acceptable(Replay(th, us), u)
    ensures Replayable(th, us + [u]) && Replay(th, us + [u]) == Applied(Replay(th, us), u)
    decreases |us|
  {
    if us == [] {
      assert us + [u] == [u] && [u][1..] == [];
    } else {
      assert (us + [u])[1..] == us[1..] + [u];
      ReplaySnoc(Applied(th, us[0]), us[1..], u);
    }
  }

  // ---------------------------------------------------------------- the miner

  /** nonce2 as a number, least significant byte first. */
  ghost function Value(bs: seq<nat>): (v: nat) {
    if bs == [] then 0 else bs[0] + 256 * Value(bs[1..])
  }

  ghost function Span(n: nat): (v: nat) {
    if n == 0 then 1 else 256 * Span(n - 1)
  }

  ghost predicate IsBytes(bs: seq<nat>) {
    forall i :: 0 <= i < |bs| ==> bs[i] < 256
  }

  /** increment_nonce2 as a function: add one, carry while a byte wraps. */
  ghost function Incremented(bs: seq<nat>): (r: seq<nat>) {
    if bs == [] then [] else if bs[0] == 255 then [0] + Incremented(bs[1..]) else [bs[0] + 1] + bs[1..]
  }

  /** increment_nonce2 counts up by one and wraps only after every value was used. */
  lemma {:induction false} IncrementedCounts(bs: seq<nat>)
    requires IsBytes(bs)
    ensures IsBytes(Incremented(bs)) && |Incremented(bs)| == |bs|
    ensures Value(Incremented(bs)) == if Value(bs) + 1 == Span(|bs|) then 0 else Value(bs) + 1
    ensures Value(bs) < Span(|bs|)
  {
    if bs != [] {
      IncrementedCounts(bs[1..]);
      if bs[0] == 255 {
        assert Incremented(bs)[1..] == Incremented(bs[1..]);
      } else {
        assert Incremented(bs)[1..] == bs[1..];
      }
    }
  }

  // ---------------------------------------------------------------- one try after another

  /** What solve_block changes from one try to the next. */
  datatype Try = Try(hdr: Header, tailer: Tailer)

  const Nonce1Span: nat := 0x1_0000_0000

  /** After a failed try: nonce1 counts up, at every 65536th try the clock is read, and when nonce1 wraps
      nonce2 counts up. */
  ghost function NextTry(t: Try, now: nat): (r: Try) {
    var nonce1 := (t.tailer.nonce1 + 1) % Nonce1Span;
    var timestamp := if nonce1 % 0x1_0000 == 0 then now else t.tailer.timestamp;
    Try(if nonce1 == 0 then t.hdr.(nonce2 := Incremented(t.hdr.nonce2)) else t.hdr,
        t.tailer.(nonce1 := nonce1, timestamp := timestamp))
  }

  /** After as many failed tries as there are clock readings. */
  ghost function Tries(t: Try, clocks: seq<nat>): (r: Try) {
    if clocks == [] then t else NextTry(Tries(t, clocks[..|clocks| - 1]), clocks[|clocks| - 1])
  }

  ghost predicate Nonces(t: Try) {
    IsBytes(t.hdr.nonce2) && t.tailer.nonce1 < Nonce1Span
  }

  /** Both nonces as one number, and how many there are. */
  ghost function Number(t: Try): (n: nat) {
    Value(t.hdr.nonce2) * Nonce1Span + t.tailer.nonce1
  }

  ghost function Numbers(t: Try): (n: nat) {
    Span(|t.hdr.nonce2|) * Nonce1Span
  }

  lemma NextCounts(t: Try, now: nat)
    requires Nonces(t)
    ensures Nonces(NextTry(t, now)) && Numbers(NextTry(t, now)) == Numbers(t)
    ensures Number(t) < Numbers(t)
    ensures Number(NextTry(t, now)) == if Number(t) + 1 == Numbers(t) then 0 else Number(t) + 1
  {
    IncrementedCounts(t.hdr.nonce2);
  }

  lemma {:induction false} TriesCount(t: Try, clocks: seq<nat>)
    requires Nonces(t) && |clocks| < Numbers(t)
    ensures var r := Tries(t, clocks);
      && Nonces(r) && Numbers(r) == Numbers(t)
      && Number(r) == Number(t) + |clocks| - if Number(t) + |clocks| < Numbers(t) then 0 else Numbers(t)
  {
    NextCounts(t, 0);
    if clocks != [] {
      var front := clocks[..|clocks| - 1];
      TriesCount(t, front);
      NextCounts(Tries(t, front), clocks[|clocks| - 1]);
    }
  }

  /** The timestamp is the clock's when nonce1 last passed a multiple of 65536: never older than that many tries. */
  lemma {:induction false} TimestampAge(t: Try, clocks: seq<nat>)
    ensures var r := Tries(t, clocks);
      var age := r.tailer.nonce1 % 0x1_0000;
      r.tailer.timestamp == if age < |clocks| then clocks[|clocks| - 1 - age] else t.tailer.timestamp
  {
    if clocks != [] {
      var front := clocks[..|clocks| - 1];
      TimestampAge(t, front);
      LowHalf(Tries(t, front).tailer.nonce1);
    }
  }

  lemma LowHalf(n: nat)
    ensures (n + 1) % Nonce1Span % 0x1_0000 == if n % 0x1_0000 == 0xFFFF then 0 else n % 0x1_0000 + 1
  {
  }

  /** No block is hashed twice before every pair of nonces has been tried, whatever the clock says. */
  lemma NeverTwice(t: Try, clocks: seq<nat>, shardNums: seq<nat>, merkles: seq<Sha>, prevTxhashes: seq<nat>)
    requires Nonces(t) && 0 < |clocks| < Numbers(t)
    ensures var r := Tries(t, clocks);
      HashBlock(r.hdr, shardNums, merkles, prevTxhashes, r.tailer) != HashBlock(t.hdr, shardNums, merkles, prevTxhashes, t.tailer)
  {
    var r := Tries(t, clocks);
    TriesCount(t, clocks);
    NextCounts(t, 0);
    assert r != t;
    if HashBlock(r.hdr, shardNums, merkles, prevTxhashes, r.tailer) == HashBlock(t.hdr, shardNums, merkles, prevTxhashes, t.tailer) {
      HashBlockInjective(r.hdr, t.hdr, shardNums, shardNums, merkles, merkles, prevTxhashes, prevTxhashes, r.tailer, t.tailer);
    }
  }

  /** increment_nonce2, pettycoin-generate.c:212-221. */
  method IncrementNonce2(nonce2: seq<nat>) returns (r: seq<nat>)
    requires IsBytes(nonce2)
    ensures r == Incremented(nonce2)
  {
    r := nonce2;
    var i: nat := 0;
    assert nonce2[0..] == nonce2 && [] + Incremented(nonce2) == Incremented(nonce2);
    while i < |nonce2|
      invariant i <= |nonce2| && Carried(nonce2, r, i)
    {
      r := r[i := (r[i] + 1) % 256];
      CarryStep(nonce2, r, i);
      if r[i] != 0 {
        return;
      }
      i := i + 1;
    }
  }

  /** The first `i` bytes wrapped, the rest are as they were. */
  ghost predicate Carried(bs: seq<nat>, r: seq<nat>, i: nat) {
    i <= |bs| == |r| && r[i..] == bs[i..] && Incremented(bs) == r[..i] + Incremented(bs[i..])
  }

  lemma CarryStep(bs: seq<nat>, r: seq<nat>, i: nat)
    requires IsBytes(bs) && i < |bs| == |r| && r[i] == (bs[i] + 1) % 256
    requires r[i + 1..] == bs[i + 1..] && Incremented(bs) == r[..i] + Incremented(bs[i..])
    ensures r[i] == 0 ==> Carried(bs, r, i + 1)
    ensures r[i] != 0 ==> r == Incremented(bs)
  {
    IncrementedAt(bs, i);
    SplitAt(r, i, Incremented(bs[i + 1..]));
  }

  lemma SplitAt(r: seq<nat>, i: nat, tail: seq<nat>)
    requires i < |r|
    ensures r[..i] + ([r[i]] + tail) == r[..i + 1] + tail
    ensures r == r[..i] + ([r[i]] + r[i + 1..])
  {
  }

  lemma IncrementedAt(bs: seq<nat>, i: nat)
    requires i < |bs|
    ensures Incremented(bs[i..]) == if bs[i] == 255 then [0] + Incremented(bs[i + 1..]) else [bs[i] + 1] + bs[i + 1..]
  {
    assert bs[i..][1..] == bs[i + 1..];
  }

  class WorkingBlock {
    const prevTxhashes: seq<nat>
    const hashOfPrevTxhashes: Digest
    var hdr: Header
    var tailer: Tailer
    var shardNums: seq<nat>
    var transHashes: seq<seq<TxRefHash>>
    var merkles: seq<Sha>
    var hashOfMerkles: Digest
    /** Unfinished hash without the tailer. */
    var partial: seq<Item>
    var sha: Digest

    /** The caches agree with what they were computed from. */
    ghost predicate Valid()
      reads this
    {
      && IsBytes(hdr.nonce2)
      && |shardNums| == |transHashes| == |merkles| == hdr.numShards
      && (forall s :: 0 <= s < |transHashes| ==> shardNums[s] == |transHashes[s]| <= ShardLimit && merkles[s] == MerkleRoot(transHashes[s]))
      && hashOfPrevTxhashes == Double(Bytes(prevTxhashes))
      && hashOfMerkles == Double(Merkles(merkles))
      && partial == [OfDigest(hashOfPrevTxhashes)] + [OfDigest(hashOfMerkles)] + [OfHeader(hdr)] + Counts(shardNums)
    }

    /** new_working_block, pettycoin-generate.c:110-171. */
    constructor (hdr: Header, tailer: Tailer, prevTxhashes: seq<nat>)
      requires IsBytes(hdr.nonce2)
      ensures Valid() && this.hdr == hdr && this.tailer == tailer && this.prevTxhashes == prevTxhashes
      ensures transHashes == seq(hdr.numShards, _ => [])
    {
      var n := hdr.numShards;
      this.prevTxhashes := prevTxhashes;
      this.hdr := hdr;
      this.tailer := tailer;
      shardNums := seq(n, _ => 0);
      transHashes := seq(n, _ => []);
      merkles := [];
      hashOfPrevTxhashes := Double(Bytes(prevTxhashes));
      hashOfMerkles := Double([]);
      partial := [];
      sha := Double([]);
      new;
      var th := transHashes;
      merkles := seq(|th|, i requires 0 <= i < |th| => MerkleRoot(th[i]));
      hashOfMerkles := Double(Merkles(merkles));
      UpdatePartialHash();
    }

    /** update_partial_hash, pettycoin-generate.c:97-107. */
    method UpdatePartialHash()
      modifies this`partial
      ensures partial == [OfDigest(hashOfPrevTxhashes)] + [OfDigest(hashOfMerkles)] + [OfHeader(hdr)] + Counts(shardNums)
    {
      partial := [OfDigest(hashOfPrevTxhashes)];
      partial := partial + [OfDigest(hashOfMerkles)];
      partial := partial + [OfHeader(hdr)];
      partial := partial + Counts(shardNums);
    }

    /** add_tx, pettycoin-generate.c:174-210. */
    method AddTx(u: Update)
      requires Valid() && Acceptable(transHashes, u)
      modifies this`transHashes, this`shardNums, this`merkles, this`hashOfMerkles, this`partial
      ensures Valid() && transHashes == Applied(old(transHashes), u)
    {
      var s := u.shard;
      assert s < |shardNums| && shardNums[s] < 255 && u.txoff <= shardNums[s];
      transHashes := transHashes[s := InsertAt(transHashes[s], u.txoff, u.hashes)];
      shardNums := shardNums[s := shardNums[s] + 1];
      merkles := merkles[s := MerkleRoot(transHashes[s])];
      hashOfMerkles := Double(Merkles(merkles));
      UpdatePartialHash();
    }

    /** solve_block, pettycoin-generate.c:224-254; `beats` says whether a digest beats the
        target and `now` is the clock. */
    method SolveBlock(beats: Digest -> bool, now: nat) returns (solved: bool)
      requires Valid()
      modifies this`sha, this`tailer, this`hdr, this`partial
      ensures Valid()
      ensures sha == HashBlock(old(hdr), shardNums, merkles, prevTxhashes, old(tailer))
      ensures solved <==> beats(sha)
      ensures solved ==> hdr == old(hdr) && tailer == old(tailer)
      ensures !solved ==> Try(hdr, tailer) == NextTry(Try(old(hdr), old(tailer)), now)
    {
      var ctx := partial + [OfTailer(tailer)];
      sha := Double(ctx);
      if beats(sha) {
        return true;
      }
      tailer := tailer.(nonce1 := (tailer.nonce1 + 1) % Nonce1Span);
      if tailer.nonce1 % 0x1_0000 == 0 {
        tailer := tailer.(timestamp := now);
        if tailer.nonce1 == 0 {
          var n2 := IncrementNonce2(hdr.nonce2);
          IncrementedCounts(hdr.nonce2);
          hdr := hdr.(nonce2 := n2);
          UpdatePartialHash();
        }
      }
      return false;
    }
  }
}
