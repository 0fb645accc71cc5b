/**
 The order of transactions inside a shard (tx_cmp.c) and their shard (shard.h, shard.c).
 */
module TxOrder {
  import opened BitShift
  import opened Sequences

  /** A transaction: the address it is filed under, and its marshalled bytes. */
  datatype Tx = Tx(addr: seq<nat>, bytes: seq<nat>)

  /** tx_cmp, tx_cmp.c:11-79. */
  function TxCmp(a: Tx, b: Tx): (r: int) {
    var byAddr := Lex(a.addr, b.addr);
    if byAddr != 0 then byAddr else Lex(a.bytes, b.bytes)
  }

  /** tx_cmp is a strict total order. */
  lemma TxCmpOrder(a: Tx, b: Tx)
    ensures TxCmp(a, b) < 0 <==> TxCmp(b, a) > 0
    ensures TxCmp(a, b) == 0 <==> a == b
  {
    LexOrder(a.addr, b.addr);
    LexOrder(a.bytes, b.bytes);
  }

  /** By address in byte order, then by marshalled bytes. */
  lemma TxCmpExactly(a: Tx, b: Tx)
    ensures TxCmp(a, b) < 0 <==> Before(a.addr, b.addr) || (a.addr == b.addr && Before(a.bytes, b.bytes))
  {
    LexOrder(a.addr, b.addr);
    LexExactly(a.addr, b.addr);
    LexExactly(a.bytes, b.bytes);
  }

  lemma TxCmpTransitive(a: Tx, b: Tx, c: Tx)
    requires TxCmp(a, b) < 0 && TxCmp(b, c) < 0
    ensures TxCmp(a, c) < 0
  {
    LexOrder(a.addr, b.addr);
    LexOrder(b.addr, c.addr);
    LexOrder(a.addr, c.addr);
    if Lex(a.addr, b.addr) < 0 && Lex(b.addr, c.addr) < 0 {
      LexTransitive(a.addr, b.addr, c.addr);
    } else if Lex(a.addr, b.addr) == 0 && Lex(b.addr, c.addr) == 0 {
      LexTransitive(a.bytes, b.bytes, c.bytes);
    }
  }

  /** shard_of (shard.h:8-14): the top `order` bits of the address. */
  function ShardOf(addr: seq<nat>, order: nat): (r: nat)
    requires |addr| >= 2 && order <= 16
  {
    Shift(addr[0] * 256 + addr[1], 16 - order)
  }

  lemma {:induction false} ShiftMonotone(x: nat, y: nat, i: nat)
    requires x <= y
    ensures Shift(x, i) <= Shift(y, i)
  {
    if i > 0 { ShiftMonotone(x, y, i - 1); }
  }

  lemma {:induction false} ShiftExactly(x: nat, i: nat)
    ensures Shift(x, i) * Pow2(i) <= x < (Shift(x, i) + 1) * Pow2(i)
  {
    if i > 0 {
      ShiftExactly(x, i - 1);
      var q, r, p := Shift(x, i - 1), Shift(x, i), Pow2(i - 1);
      HalfBounds(q, p);
    }
  }

  lemma HalfBounds(q: nat, p: nat)
    ensures (q / 2) * (2 * p) <= q * p && (q + 1) * p <= (q / 2 + 1) * (2 * p)
  {
    var h := q / 2;
    assert h * (2 * p) == (2 * h) * p && (h + 1) * (2 * p) == (2 * h + 2) * p;
    if q == 2 * h {
      assert (2 * h + 2) * p == (q + 1) * p + p;
    } else {
      assert q * p == (2 * h) * p + p;
    }
  }

  /** The shards cut the addresses into 2^order equal ranges of their first two bytes. */
  lemma ShardOfExactly(addr: seq<nat>, order: nat)
    requires |addr| >= 2 && addr[0] < 256 && addr[1] < 256 && order <= 16
    ensures var head, width, s := addr[0] * 256 + addr[1], Pow2(16 - order), ShardOf(addr, order);
      s < Pow2(order) && s * width <= head < (s + 1) * width
  {
    ShiftExactly(addr[0] * 256 + addr[1], 16 - order);
    assert Pow2(16) == 0x1_0000 by { Pow2Of16(); }
    ShiftBound(addr[0] * 256 + addr[1], 16 - order, order);
  }

  lemma Pow2Of16()
    ensures Pow2(16) == 0x1_0000
  {
    assert Pow2(16) == 2 * Pow2(15) == 4 * Pow2(14) == 8 * Pow2(13) == 16 * Pow2(12);
    assert Pow2(12) == 2 * Pow2(11) == 4 * Pow2(10) == 8 * Pow2(9) == 16 * Pow2(8);
    assert Pow2(8) == 2 * Pow2(7) == 4 * Pow2(6) == 8 * Pow2(5) == 16 * Pow2(4);
    assert Pow2(4) == 2 * Pow2(3) == 4 * Pow2(2) == 8 * Pow2(1) == 16;
  }

  /** Transactions in tx_cmp order are in shard order, for every shard order. */
  lemma OrderFollowsShards(a: Tx, b: Tx, order: nat)
    requires |a.addr| >= 2 && |b.addr| >= 2 && order <= 16
    requires forall i :: 0 <= i < 2 ==> a.addr[i] < 256 && b.addr[i] < 256
    requires TxCmp(a, b) < 0
    ensures ShardOf(a.addr, order) <= ShardOf(b.addr, order)
  {
    LexOrder(a.addr, b.addr);
    assert a.addr[1..][0] == a.addr[1] && b.addr[1..][0] == b.addr[1];
    if Lex(a.addr, b.addr) < 0 && a.addr[0] == b.addr[0] {
      assert Lex(a.addr[1..], b.addr[1..]) < 0;
      assert a.addr[1] <= b.addr[1];
    }
    ShiftMonotone(a.addr[0] * 256 + a.addr[1], b.addr[0] * 256 + b.addr[1], 16 - order);
  }
}
