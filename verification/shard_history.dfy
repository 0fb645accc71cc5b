/**
 A shard whose block is honest, said of the arrivals alone: what is there after any run, and that
 nothing else gets in.
 */
module ShardHistory {
  import opened Wrappers
  import opened TxOrder
  import opened Merkle
  import opened BlockShard

  /** The transactions a block was made from: all there, and in order. */
  ghost predicate Honest(all: seq<Entry>, root: Sha) {
    && |all| <= 255 && (forall i :: 0 <= i < |all| ==> all[i].Known?) && Sorted(all)
    && MerkleRoot(Pairs(all)) == root
  }

  /** Each slot is empty or stands for the transaction it was made from. */
  ghost predicate OnTheWay(es: seq<Entry>, all: seq<Entry>) {
    && |es| == |all|
    && forall i :: 0 <= i < |es| ==> es[i] == Unknown || es[i] == all[i] || (all[i].Known? && es[i] == Hash(PairOf(all[i]).value))
  }

  /** The arrival shows what slot `i` stands for. */
  ghost predicate Delivers(a: Arrival, size: nat, root: Sha, i: nat) {
    match a
    case ProvenTx(off, tx, refs, merkles, inputsOk) => off == i && inputsOk && Proves(root, i, HashTxAndRefs(tx, refs), merkles)
    case ProvenHash(off, h, merkles) => off == i && Proves(root, i, h, merkles)
    case WholeShard(hashes) => |hashes| == size && MerkleRoot(hashes) == root
    case Resolved(_, _, _) => false
  }

  /** The arrival has the transaction whose hash slot `i` may hold. */
  ghost predicate Names(a: Arrival, e: Entry, i: nat) {
    a.Resolved? && a.off == i && e == Known(a.tx, a.refs)
  }

  ghost function Start(size: nat): (es: seq<Entry>) {
    seq(size, _ => Unknown)
  }

  lemma PairIsEntry(tx: Tx, refs: seq<nat>, e: Entry)
    requires e.Known?
    ensures PairOf(e) == Some(HashTxAndRefs(tx, refs)) <==> e == Known(tx, refs)
  {
  }

  /** A pair proven for a slot is the one the slot was made from. */
  lemma ProvenIsTrue(all: seq<Entry>, root: Sha, off: nat, h: TxRefHash, merkles: seq<Sha>)
    requires Honest(all, root) && off < |all| && Proves(root, off, h, merkles)
    ensures PairOf(all[off]) == Some(h)
  {
    GenuineCommitsOnly(Pairs(all), off, h);
  }

  lemma InOrderAnyway(es: seq<Entry>, all: seq<Entry>, off: nat, tx: Tx)
    requires OnTheWay(es, all) && Sorted(all) && off < |all| && all[off].Known? && all[off].tx == tx
    ensures Sorted(es[off := Known(tx, [])])
  {
    var es' := es[off := Known(tx, [])];
    assert forall i :: 0 <= i < |es'| && es'[i].Known? ==> all[i].Known? && es'[i].tx == all[i].tx;
  }

  /** One arrival: each slot changes exactly as it says. */
  lemma OneReceived(es: seq<Entry>, all: seq<Entry>, root: Sha, a: Arrival, i: nat)
    requires Honest(all, root) && OnTheWay(es, all) && i < |all|
    ensures var es' := Received(es, root, a);
      |es'| == |es| && es'[i] ==
        if (a.ProvenTx? && Delivers(a, |all|, root, i)) || (Names(a, all[i], i) && es[i] != Unknown) then all[i]
        else if es[i] == Unknown && Delivers(a, |all|, root, i) then Hash(PairOf(all[i]).value)
        else es[i]
  {
    match a
    case ProvenTx(off, tx, refs, merkles, inputsOk) => TxReceived(es, all, root, off, tx, refs, merkles);
    case ProvenHash(off, h, merkles) =>
      if off < |all| && Proves(root, off, h, merkles) {
        ProvenIsTrue(all, root, off, h, merkles);
      }
    case WholeShard(hashes) =>
      if |hashes| == |all| && MerkleRoot(hashes) == root {
        LevelsAre256();
        RootBinds(hashes, Pairs(all), Levels);
      }
    case Resolved(off, tx, refs) => ResolvedReceived(es, all, off, tx, refs);
  }

  lemma TxReceived(es: seq<Entry>, all: seq<Entry>, root: Sha, off: nat, tx: Tx, refs: seq<nat>, merkles: seq<Sha>)
    requires Honest(all, root) && OnTheWay(es, all)
    ensures TxStored(es, root, off, tx, refs, merkles) <==> off < |all| && Proves(root, off, HashTxAndRefs(tx, refs), merkles)
    ensures TxStored(es, root, off, tx, refs, merkles) ==> all[off] == Known(tx, refs)
  {
    if off < |all| && Proves(root, off, HashTxAndRefs(tx, refs), merkles) {
      ProvenIsTrue(all, root, off, HashTxAndRefs(tx, refs), merkles);
      PairIsEntry(tx, refs, all[off]);
      InOrderAnyway(es, all, off, tx);
    }
  }

  lemma ResolvedReceived(es: seq<Entry>, all: seq<Entry>, off: nat, tx: Tx, refs: seq<nat>)
    requires OnTheWay(es, all) && Sorted(all) && forall i :: 0 <= i < |all| ==> all[i].Known?
    ensures Resolves(es, off, tx, refs) <==> off < |all| && es[off].Hash? && all[off] == Known(tx, refs)
  {
    if off < |all| && es[off].Hash? {
      PairIsEntry(tx, refs, all[off]);
      if all[off] == Known(tx, refs) {
        InOrderAnyway(es, all, off, tx);
      }
    }
  }

  ghost predicate Delivered(arrivals: seq<Arrival>, size: nat, root: Sha, i: nat) {
    exists k: nat :: k < |arrivals| && Delivers(arrivals[k], size, root, i)
  }

  /** Its transaction came with a proof, or without one after something had been delivered. */
  ghost predicate CameInFull(arrivals: seq<Arrival>, size: nat, root: Sha, e: Entry, i: nat) {
    exists k: nat :: k < |arrivals| && CameInFullAt(arrivals, size, root, e, i, k)
  }

  ghost predicate CameInFullAt(arrivals: seq<Arrival>, size: nat, root: Sha, e: Entry, i: nat, k: nat)
    requires k < |arrivals|
  {
    || (arrivals[k].ProvenTx? && Delivers(arrivals[k], size, root, i))
    || (Names(arrivals[k], e, i) && Delivered(arrivals[..k], size, root, i))
  }

  lemma DeliveredMore(arrivals: seq<Arrival>, a: Arrival, size: nat, root: Sha, i: nat)
    ensures Delivered(arrivals + [a], size, root, i) <==> Delivered(arrivals, size, root, i) || Delivers(a, size, root, i)
  {
    var more := arrivals + [a];
    assert more[|arrivals|] == a;
    forall k: nat | k < |arrivals| ensures more[k] == arrivals[k] {
    }
  }

  lemma CameInFullMore(arrivals: seq<Arrival>, a: Arrival, size: nat, root: Sha, e: Entry, i: nat)
    ensures CameInFull(arrivals + [a], size, root, e, i) <==>
            || CameInFull(arrivals, size, root, e, i)
            || (a.ProvenTx? && Delivers(a, size, root, i))
            || (Names(a, e, i) && Delivered(arrivals, size, root, i))
  {
    var more := arrivals + [a];
    assert more[|arrivals|] == a && more[..|arrivals|] == arrivals;
    forall k: nat | k < |arrivals| ensures CameInFullAt(more, size, root, e, i, k) <==> CameInFullAt(arrivals, size, root, e, i, k) {
      assert more[..k] == arrivals[..k] && more[k] == arrivals[k];
    }
    assert CameInFullAt(more, size, root, e, i, |arrivals|) <==>
           (a.ProvenTx? && Delivers(a, size, root, i)) || (Names(a, e, i) && Delivered(arrivals, size, root, i));
  }

  /** What the arrivals say of slot `i`. */
  ghost function SlotAfter(all: seq<Entry>, root: Sha, arrivals: seq<Arrival>, i: nat): (e: Entry)
    requires Honest(all, root) && i < |all|
  {
    if CameInFull(arrivals, |all|, root, all[i], i) then all[i]
    else if Delivered(arrivals, |all|, root, i) then Hash(PairOf(all[i]).value)
    else Unknown
  }

  /** After any arrivals whatever, in any order: a slot holds its transaction, the right hash, or nothing, and
      which of them is a matter of what has been delivered. */
  lemma {:induction false} SlotsExactly(all: seq<Entry>, root: Sha, arrivals: seq<Arrival>)
    requires Honest(all, root)
    ensures var es := AllReceived(Start(|all|), root, arrivals);
      |es| == |all| && forall i :: 0 <= i < |all| ==> es[i] == SlotAfter(all, root, arrivals, i)
    decreases |arrivals|
  {
    if arrivals != [] {
      var front, a := arrivals[..|arrivals| - 1], arrivals[|arrivals| - 1];
      assert arrivals == front + [a];
      SlotsExactly(all, root, front);
      var es := AllReceived(Start(|all|), root, front);
      assert OnTheWay(es, all);
      forall i: nat | i < |all| ensures |Received(es, root, a)| == |all| && Received(es, root, a)[i] == SlotAfter(all, root, arrivals, i) {
        OneReceived(es, all, root, a, i);
        DeliveredMore(front, a, |all|, root, i);
        CameInFullMore(front, a, |all|, root, all[i], i);
        CameInFullDelivered(front, |all|, root, all[i], i);
      }
      ReceivedLength(es, root, a);
    }
  }

  lemma ReceivedLength(es: seq<Entry>, root: Sha, a: Arrival)
    ensures |Received(es, root, a)| == |es|
  {
  }

  lemma CameInFullDelivered(arrivals: seq<Arrival>, size: nat, root: Sha, e: Entry, i: nat)
    ensures CameInFull(arrivals, size, root, e, i) ==> Delivered(arrivals, size, root, i)
  {
    if k: nat :| k < |arrivals| && CameInFullAt(arrivals, size, root, e, i, k) {
      if Delivered(arrivals[..k], size, root, i) {
        var m: nat :| m < k && Delivers(arrivals[..k][m], size, root, i);
        assert Delivers(arrivals[m], size, root, i);
      }
    }
  }

  /** From the empty shard of an honest block, through the real operations. */
  method AfterArrivals(all: seq<Entry>, root: Sha, arrivals: seq<Arrival>) returns (s: Shard)
    requires Honest(all, root) && forall i :: 0 <= i < |arrivals| ==> arrivals[i].WellFormed()
    ensures s.Valid() && |s.entries| == |all|
    ensures forall i :: 0 <= i < |all| ==> s.entries[i] == SlotAfter(all, root, arrivals, i)
  {
    s := new Shard(|all|, root);
    s.Run(arrivals);
    SlotsExactly(all, root, arrivals);
  }
}
