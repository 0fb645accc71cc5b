/**
 The daemon's pending transactions (pending.c): one strictly sorted array per shard.
 */
module Pending {
  import opened TxOrder

  ghost predicate StrictlySorted(p: seq<Tx>) {
    forall i, j :: 0 <= i < j < |p| ==> TxCmp(p[i], p[j]) < 0
  }

  /** Where `tx` belongs. */
  ghost predicate Fits(p: seq<Tx>, tx: Tx, pos: nat) {
    && pos <= |p|
    && (forall i :: 0 <= i < pos ==> TxCmp(p[i], tx) < 0)
    && (forall i :: pos <= i < |p| ==> TxCmp(tx, p[i]) < 0)
  }

  /** find_pending_in_arr, pending.c:81-102. */
  method FindPendingInArr(p: seq<Tx>, tx: Tx) returns (found: bool, pos: nat)
    requires StrictlySorted(p)
    ensures found <==> tx in p
    ensures !found ==> Fits(p, tx, pos)
  {
    pos := 0;
    var end := |p|;
    while pos < end
      invariant pos <= end <= |p|
      invariant forall i :: 0 <= i < pos ==> TxCmp(p[i], tx) < 0
      invariant forall i :: end <= i < |p| ==> TxCmp(tx, p[i]) < 0
    {
      var halfway := (pos + end) / 2;
      var c := TxCmp(tx, p[halfway]);
      TxCmpOrder(p[halfway], tx);
      TxCmpOrder(tx, p[halfway]);
      if c < 0 {
        AllAfter(p, tx, halfway);
        end := halfway;
      } else if c > 0 {
        AllBefore(p, tx, halfway);
        pos := halfway + 1;
      } else {
        return true, halfway;
      }
    }
    forall i | 0 <= i < |p| ensures p[i] != tx {
      TxCmpOrder(tx, p[i]);
      TxCmpOrder(p[i], tx);
    }
    return false, pos;
  }

  lemma AllAfter(p: seq<Tx>, tx: Tx, k: nat)
    requires StrictlySorted(p) && k < |p| && TxCmp(tx, p[k]) < 0
    ensures forall i :: k <= i < |p| ==> TxCmp(tx, p[i]) < 0
  {
    forall i | k < i < |p| ensures TxCmp(tx, p[i]) < 0 {
      TxCmpTransitive(tx, p[k], p[i]);
    }
  }

  lemma AllBefore(p: seq<Tx>, tx: Tx, k: nat)
    requires StrictlySorted(p) && k < |p| && TxCmp(p[k], tx) < 0
    ensures forall i :: 0 <= i <= k ==> TxCmp(p[i], tx) < 0
  {
    forall i | 0 <= i < k ensures TxCmp(p[i], tx) < 0 {
      TxCmpTransitive(p[i], p[k], tx);
    }
  }

  /** tal_arr_add: positional insert. */
  function InsertAt<T>(s: seq<T>, pos: nat, x: T): (r: seq<T>)
    requires pos <= |s|
    ensures |r| == |s| + 1
  {
    s[..pos] + [x] + s[pos..]
  }

  lemma InsertKeepsSorted(p: seq<Tx>, tx: Tx, pos: nat)
    requires StrictlySorted(p) && Fits(p, tx, pos)
    ensures StrictlySorted(InsertAt(p, pos, tx))
  {
    var r := InsertAt(p, pos, tx);
    assert forall i :: 0 <= i < |r| ==> r[i] == if i < pos then p[i] else if i == pos then tx else p[i - 1];
  }
}
