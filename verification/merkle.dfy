/**
 Merkle roots and proofs (merkle_recurse.c, merkle_txs.c, merkle_hashes.c, proof.c).
 The double SHA-256 is a free constructor: distinct inputs never collide.
 */
module Merkle {
  import opened BitShift
  import opened TxOrder

  /** Zero is the all-zero padding; Two is merkle_two_hashes; the others hash a
      transaction and a list of input references. */
  datatype Sha = Zero | Two(left: Sha, right: Sha) | OfTx(tx: Tx) | OfRefs(refs: seq<nat>)

  /** struct protocol_txrefhash */
  datatype TxRefHash = TxRefHash(txhash: Sha, refhash: Sha)

  function LeafHash(h: TxRefHash): (s: Sha) {
    Two(h.txhash, h.refhash)
  }

  /** merkle_recurse (merkle_recurse.c:19-45) over `num == 1 << k` leaves from `off`, with
      the hash pairs `hs` as leaves and zeroes past their end. */
  function MerkleSome(hs: seq<TxRefHash>, off: nat, k: nat): (s: Sha)
    decreases k, hs
  {
    if k == 0 then
      (if off >= |hs| then Zero else LeafHash(hs[off]))
    else
      Two(MerkleSome(hs, off, k - 1), MerkleSome(hs, off + Pow2(k - 1), k - 1))
  }

  /** A shard's tree has 1 << Levels == 256 leaves. */
  const Levels: nat := 8

  /** merkle_txs and merkle_hashes */
  function MerkleRoot(hs: seq<TxRefHash>): (s: Sha) {
    MerkleSome(hs, 0, Levels)
  }

  // ---------------------------------------------------------------- folding a proof

  /** What a proof folds to: `sibs[i]` joins at level i, on the side the bit of `off` says. */
  function Climb(s: Sha, off: nat, sibs: seq<Sha>): (r: Sha)
    decreases |sibs|
  {
    if sibs == [] then s
    else if off % 2 == 1 then Climb(Two(sibs[0], s), off / 2, sibs[1..])
    else Climb(Two(s, sibs[0]), off / 2, sibs[1..])
  }

  /** off & (1 << i) */
  function BitSet(off: nat, i: nat): (b: bool) {
    Shift(off, i) % 2 == 1
  }

  /** proof_merkles_to, proof.c:43-61. */
  method ProofMerklesTo(h: TxRefHash, txoff: nat, merkles: seq<Sha>) returns (sha: Sha)
    requires |merkles| == Levels
    ensures sha == Climb(LeafHash(h), txoff, merkles)
  {
    sha := LeafHash(h);
    assert merkles[0..] == merkles;
    for i := 0 to Levels
      invariant Climb(sha, Shift(txoff, i), merkles[i..]) == Climb(LeafHash(h), txoff, merkles)
    {
      assert merkles[i..][1..] == merkles[i + 1..];
      if BitSet(txoff, i) {
        sha := Two(merkles[i], sha);
      } else {
        sha := Two(sha, merkles[i]);
      }
    }
  }

  /** Binding: a root and an offset leave room for one leaf and one path only. */
  lemma {:induction false} ClimbBinds(s: Sha, s': Sha, off: nat, sibs: seq<Sha>, sibs': seq<Sha>)
    requires |sibs| == |sibs'| && Climb(s, off, sibs) == Climb(s', off, sibs')
    ensures s == s' && sibs == sibs'
    decreases |sibs|
  {
    if sibs != [] {
      var a := if off % 2 == 1 then Two(sibs[0], s) else Two(s, sibs[0]);
      var a' := if off % 2 == 1 then Two(sibs'[0], s') else Two(s', sibs'[0]);
      ClimbBinds(a, a', off / 2, sibs[1..], sibs'[1..]);
      assert sibs == [sibs[0]] + sibs[1..] && sibs' == [sibs'[0]] + sibs'[1..];
    }
  }

  // ---------------------------------------------------------------- the true path

  /** Where the sibling subtree of `off` starts at level `i`. */
  function SiblingOff(off: nat, i: nat): (r: nat) {
    if BitSet(off, i) then (Shift(off, i) - 1) * Pow2(i) else (Shift(off, i) + 1) * Pow2(i)
  }

  function SiblingPath(hs: seq<TxRefHash>, off: nat, i: nat, k: nat): (r: seq<Sha>)
    requires i <= k
    ensures |r| == k - i
    decreases k - i
  {
    if i == k then [] else [MerkleSome(hs, SiblingOff(off, i), i)] + SiblingPath(hs, off, i + 1, k)
  }

  /** Where the level-i subtree that contains `off` starts. */
  function Base(off: nat, i: nat): (r: nat) {
    Shift(off, i) * Pow2(i)
  }

  lemma Doubling(q: nat, p: nat)
    ensures q % 2 == 1 ==> (q / 2) * (2 * p) == (q - 1) * p && (q - 1) * p + p == q * p
    ensures q % 2 == 0 ==> (q / 2) * (2 * p) == q * p
    ensures (q + 1) * p == q * p + p
  {
    var h := q / 2;
    assert h * (2 * p) == (2 * h) * p;
  }

  /** A subtree and its sibling make up the next subtree. */
  lemma SubtreePair(hs: seq<TxRefHash>, off: nat, i: nat)
    ensures MerkleSome(hs, Base(off, i + 1), i + 1) ==
            if BitSet(off, i) then Two(MerkleSome(hs, SiblingOff(off, i), i), MerkleSome(hs, Base(off, i), i))
            else Two(MerkleSome(hs, Base(off, i), i), MerkleSome(hs, SiblingOff(off, i), i))
  {
    Doubling(Shift(off, i), Pow2(i));
  }

  /** From the level-i subtree that contains `off`, the true path climbs to the level-k subtree. */
  lemma {:induction false} PathClimbs(hs: seq<TxRefHash>, off: nat, i: nat, k: nat)
    requires i <= k
    ensures Climb(MerkleSome(hs, Base(off, i), i), Shift(off, i), SiblingPath(hs, off, i, k)) ==
            MerkleSome(hs, Base(off, k), k)
    decreases k - i
  {
    if i < k {
      var sibs := SiblingPath(hs, off, i, k);
      assert sibs[1..] == SiblingPath(hs, off, i + 1, k);
      SubtreePair(hs, off, i);
      PathClimbs(hs, off, i + 1, k);
    }
  }

  function Leaf(hs: seq<TxRefHash>, off: nat): (s: Sha) {
    if off >= |hs| then Zero else LeafHash(hs[off])
  }

  /** Completeness: the sibling path of any offset folds back to the root. */
  lemma TruePathFolds(hs: seq<TxRefHash>, off: nat, k: nat)
    requires off < Pow2(k)
    ensures Climb(Leaf(hs, off), off, SiblingPath(hs, off, 0, k)) == MerkleSome(hs, 0, k)
  {
    PathClimbs(hs, off, 0, k);
    ShiftBound(off, k, 0);
    assert Base(off, 0) == off && MerkleSome(hs, off, 0) == Leaf(hs, off);
  }

  /** Soundness: for a root built from `hs` an accepted pair is the leaf at that offset. */
  lemma AcceptedIsLeaf(hs: seq<TxRefHash>, off: nat, h: TxRefHash, merkles: seq<Sha>)
    requires off < Pow2(|merkles|)
    requires Climb(LeafHash(h), off, merkles) == MerkleSome(hs, 0, |merkles|)
    ensures off < |hs| && hs[off] == h && merkles == SiblingPath(hs, off, 0, |merkles|)
  {
    TruePathFolds(hs, off, |merkles|);
    ClimbBinds(LeafHash(h), Leaf(hs, off), off, merkles, SiblingPath(hs, off, 0, |merkles|));
  }

  /** Different leaves give different roots. */
  lemma RootBinds(hs: seq<TxRefHash>, hs': seq<TxRefHash>, k: nat)
    requires |hs| <= Pow2(k) && |hs'| <= Pow2(k) && MerkleSome(hs, 0, k) == MerkleSome(hs', 0, k)
    ensures hs == hs'
  {
    forall off: nat | off < Pow2(k) ensures Leaf(hs, off) == Leaf(hs', off) {
      TruePathFolds(hs, off, k);
      TruePathFolds(hs', off, k);
      ClimbBinds(Leaf(hs, off), Leaf(hs', off), off, SiblingPath(hs, off, 0, k), SiblingPath(hs', off, 0, k));
    }
    assert Leaf(hs, |hs|) == Zero == Leaf(hs', |hs'|);
    forall i | 0 <= i < |hs| ensures hs[i] == hs'[i] {
      assert Leaf(hs, i) == Leaf(hs', i);
    }
  }

  // ---------------------------------------------------------------- create_proof

  /** The offsets create_proof hashes from (proof.c:30-39). */
  function CreatedOff(off: nat, i: nat): (r: nat) {
    if BitSet(off, i) then 0 else Pow2(i)
  }

  ghost predicate IsCreated(hs: seq<TxRefHash>, off: nat, merkles: seq<Sha>) {
    forall i :: 0 <= i < |merkles| ==> merkles[i] == MerkleSome(hs, CreatedOff(off, i), i)
  }

  /** create_proof without a canned proof. */
  method CreateProof(hs: seq<TxRefHash>, txoff: nat) returns (merkles: seq<Sha>)
    requires txoff < |hs| <= 255
    ensures |merkles| == Levels && IsCreated(hs, txoff, merkles)
  {
    merkles := [];
    for i := 0 to Levels
      invariant |merkles| == i && IsCreated(hs, txoff, merkles)
    {
      if BitSet(txoff, i) {
        merkles := merkles + [MerkleSome(hs, 0, i)];
      } else {
        merkles := merkles + [MerkleSome(hs, Pow2(i), i)];
      }
    }
  }

  lemma {:induction false} SiblingPathAt(hs: seq<TxRefHash>, off: nat, i: nat, k: nat, j: nat)
    requires i <= j < k
    ensures SiblingPath(hs, off, i, k)[j - i] == MerkleSome(hs, SiblingOff(off, j), j)
    decreases j - i
  {
    if i < j {
      SiblingPathAt(hs, off, i + 1, k, j);
    }
  }

  lemma {:induction false} SmallShift(off: nat, i: nat)
    requires off < 2 && i > 0
    ensures Shift(off, i) == 0
  {
    if i > 1 { SmallShift(off, i - 1); }
  }

  lemma {:induction false} SmallOffsets(off: nat, i: nat)
    requires off < 2
    ensures CreatedOff(off, i) == SiblingOff(off, i)
  {
    if i == 0 {
      assert Pow2(0) == 1;
    } else {
      SmallShift(off, i);
    }
  }

  /** A created proof checks for the first two transactions of any shard ... */
  lemma CreatedProofChecks(hs: seq<TxRefHash>, off: nat, merkles: seq<Sha>)
    requires off < |hs| && off < 2 && off < Pow2(|merkles|) && IsCreated(hs, off, merkles)
    ensures Climb(LeafHash(hs[off]), off, merkles) == MerkleSome(hs, 0, |merkles|)
  {
    var k := |merkles|;
    var path := SiblingPath(hs, off, 0, k);
    forall i | 0 <= i < k ensures merkles[i] == path[i] {
      SmallOffsets(off, i);
      SiblingPathAt(hs, off, 0, k, i);
    }
    assert merkles == path;
    TruePathFolds(hs, off, k);
  }

  /** ... and, in a shard without repeated entries, for no other. */
  lemma CreatedProofExactly(hs: seq<TxRefHash>, off: nat, merkles: seq<Sha>)
    requires off < |hs| && off < Pow2(|merkles|) && |merkles| > 0 && IsCreated(hs, off, merkles)
    requires forall i, j :: 0 <= i < j < |hs| ==> hs[i] != hs[j]
    ensures Climb(LeafHash(hs[off]), off, merkles) == MerkleSome(hs, 0, |merkles|) <==> off < 2
  {
    if off < 2 {
      CreatedProofChecks(hs, off, merkles);
    } else {
      FirstSiblingDiffers(hs, off);
      SiblingPathAt(hs, off, 0, |merkles|, 0);
      if Climb(LeafHash(hs[off]), off, merkles) == MerkleSome(hs, 0, |merkles|) {
        AcceptedIsLeaf(hs, off, hs[off], merkles);
      }
    }
  }

  lemma FirstSiblingDiffers(hs: seq<TxRefHash>, off: nat)
    requires 2 <= off < |hs|
    requires forall i, j :: 0 <= i < j < |hs| ==> hs[i] != hs[j]
    ensures MerkleSome(hs, CreatedOff(off, 0), 0) != MerkleSome(hs, SiblingOff(off, 0), 0)
  {
    assert Pow2(0) == 1;
    var c, t := CreatedOff(off, 0), SiblingOff(off, 0);
    assert c < t && c < |hs|;
    assert MerkleSome(hs, c, 0) == LeafHash(hs[c]);
  }
}
