/**
 Amounts of transactions: fees, rewards and the check that inputs pay for outputs
 (protocol.h, tx.c, check_tx.c).  The source adds in 32 bits.
 */
module Amounts {

  const MaxInputs: nat := 4
  const MaxSatoshi: nat := 0x2000_0000

  /** A 32-bit result. */
  function Wrap(x: nat): (r: nat)
    ensures r < 0x1_0000_0000
    ensures x < 0x1_0000_0000 ==> r == x
  {
    x % 0x1_0000_0000
  }

  /** PROTOCOL_FEE in exact arithmetic, protocol.h:51. */
  function Fee(x: nat): (r: nat) { x * 3 / 1024 + 1 }

  /** PROTOCOL_FEE as the compiler computes it for a u32. */
  function Fee32(x: nat): (r: nat) { Wrap(Wrap(x * 3) / 1024 + 1) }

  /** PROTOCOL_REWARD, protocol.h:54-55. */
  function Reward(total: nat, txs: nat): (r: nat) { (total * txs * 3 + 1024) / 1027 }

  /** The reward for one transaction gives back exactly the fee it paid. */
  lemma RewardGivesBackFee(x: nat)
    ensures Reward(x + Fee(x), 1) == Fee(x)
  {
    var f, rest := Fee(x), x * 3 % 1024;
    assert (x + f) * 1 * 3 + 1024 == 1027 * f + rest;
  }

  function Sum(xs: seq<nat>): (r: nat) {
    if xs == [] then 0 else Sum(xs[..|xs| - 1]) + xs[|xs| - 1]
  }

  lemma WrapAdd(x: nat, y: nat)
    ensures Wrap(Wrap(x) + y) == Wrap(x + y)
  {
  }

  lemma {:induction false} SumBound(xs: seq<nat>, most: nat)
    requires forall i :: 0 <= i < |xs| ==> xs[i] <= most
    ensures Sum(xs) <= |xs| * most
  {
    if xs != [] {
      SumBound(xs[..|xs| - 1], most);
      assert |xs| * most == (|xs| - 1) * most + most;
    }
  }

  /** The amounts a normal or to-gateway transaction moves. */
  datatype Spend = Spend(send: nat, change: nat, paysFee: bool)

  /** check_tx_with_inputs_wellformed without version and signature, check_tx.c:33-46. */
  predicate Wellformed(tx: Spend, inputs: nat) {
    && tx.send <= MaxSatoshi
    && tx.change <= MaxSatoshi
    && Wrap(tx.send + tx.change) != 0
    && 0 < inputs <= MaxInputs
  }

  /** tx_amount_sent of such a transaction, tx.c:61-63. */
  function AmountSent(tx: Spend): (r: nat) { Wrap(tx.send + tx.change) }

  /** correct_amount, check_tx.c:248-265. */
  predicate CorrectAmount(tx: Spend, total: nat) {
    total == Wrap(AmountSent(tx) + if tx.paysFee then Fee32(AmountSent(tx)) else 0)
  }

  /** In integers: everything that goes in comes out as payment, change or fee. */
  predicate Balanced(tx: Spend, ins: seq<nat>) {
    Sum(ins) == tx.send + tx.change + if tx.paysFee then Fee(tx.send + tx.change) else 0
  }

  /** On wellformed transactions with inputs from checked ones, no 32-bit sum wraps. */
  lemma CorrectAmountExactly(tx: Spend, ins: seq<nat>)
    requires Wellformed(tx, |ins|)
    requires forall i :: 0 <= i < |ins| ==> ins[i] <= MaxSatoshi
    ensures CorrectAmount(tx, Wrap(Sum(ins))) <==> Balanced(tx, ins)
  {
    SumBound(ins, MaxSatoshi);
    var sent := tx.send + tx.change;
    assert Sum(ins) <= 0x8000_0000;
    assert AmountSent(tx) == sent <= 0x4000_0000;
    assert Fee32(sent) == Fee(sent);
  }

  /** tx_amount_sent of a from-gateway transaction, tx.c:64-73. */
  method GatewayAmountSent(outs: seq<nat>) returns (total: nat)
    ensures total == Wrap(Sum(outs))
    ensures total == Sum(outs) <==> Sum(outs) < 0x1_0000_0000
  {
    total := 0;
    for i := 0 to |outs|
      invariant total == Wrap(Sum(outs[..i]))
    {
      assert outs[..i + 1][..i] == outs[..i];
      total := Wrap(total + outs[i]);
    }
    assert outs[..|outs|] == outs;
  }

  /** That sum can wrap: eight outputs of the largest amount seem to send nothing. */
  lemma GatewayAmountWraps()
    ensures var outs := seq(8, _ => MaxSatoshi);
      (forall i :: 0 <= i < |outs| ==> outs[i] <= MaxSatoshi) && Wrap(Sum(outs)) == 0
  {
    SumSame(MaxSatoshi, 8);
  }

  lemma {:induction false} SumSame(m: nat, n: nat)
    ensures Sum(seq(n, _ => m)) == n * m
  {
    if n > 0 {
      SumSame(m, n - 1);
      assert seq(n, _ => m)[..n - 1] == seq(n - 1, _ => m);
      assert n * m == (n - 1) * m + m;
    }
  }

  // ---- checking all inputs ----

  /** What check_one_input reports about an input. */
  datatype InputCheck = Known(amount: nat) | Unknown | Bad

  datatype InputCode = InputOk | InputUnknown | InputBad | InputBadAmount

  function KnownAmounts(ins: seq<InputCheck>): (r: seq<nat>)
    ensures (forall i :: 0 <= i < |ins| ==> ins[i].Known?) ==> |r| == |ins| && forall i :: 0 <= i < |ins| ==> r[i] == ins[i].amount
  {
    if ins == [] then []
    else
      var rest, last := KnownAmounts(ins[..|ins| - 1]), ins[|ins| - 1];
      if last.Known? then rest + [last.amount] else rest
  }

  /** input_total after the first n inputs. */
  ghost function Total(ins: seq<InputCheck>, n: nat): (r: nat)
    requires n <= |ins|
  {
    Sum(KnownAmounts(ins[..n]))
  }

  lemma TotalNext(ins: seq<InputCheck>, n: nat)
    requires n < |ins|
    ensures Total(ins, n + 1) == Total(ins, n) + if ins[n].Known? then ins[n].amount else 0
  {
    var before := KnownAmounts(ins[..n]);
    assert ins[..n + 1][..n] == ins[..n];
    if ins[n].Known? {
      assert (before + [ins[n].amount])[..|before|] == before;
    }
  }

  predicate AllKnown(ins: seq<InputCheck>, n: nat)
    requires n <= |ins|
  {
    forall i :: 0 <= i < n ==> ins[i].Known?
  }

  predicate NoneBad(ins: seq<InputCheck>, n: nat)
    requires n <= |ins|
  {
    forall i :: 0 <= i < n ==> !ins[i].Bad?
  }

  predicate LastUnknown(ins: seq<InputCheck>, n: nat, k: nat)
    requires n <= |ins|
  {
    k < n && ins[k].Unknown? && forall i :: k < i < n ==> ins[i].Known?
  }

  /** check_tx.c:296-314: known is the number of inputs known; a bad input stops the loop. */
  method SumInputs(ins: seq<InputCheck>) returns (bad: bool, badInput: nat, known: nat, total: nat)
    ensures bad ==> badInput < |ins| && ins[badInput].Bad? && NoneBad(ins, badInput)
    ensures !bad ==> NoneBad(ins, |ins|) && total == Wrap(Total(ins, |ins|))
    ensures !bad ==> if known == |ins| then AllKnown(ins, |ins|) else LastUnknown(ins, |ins|, badInput)
  {
    bad, badInput, known, total := false, 0, 0, 0;
    for i := 0 to |ins|
      invariant NoneBad(ins, i)
      invariant total == Wrap(Total(ins, i))
      invariant known <= i && if known == i then AllKnown(ins, i) else LastUnknown(ins, i, badInput)
    {
      TotalNext(ins, i);
      match ins[i]
      case Unknown =>
        badInput := i;
      case Bad =>
        return true, i, known, total;
      case Known(amount) =>
        WrapAdd(Total(ins, i), amount);
        known := known + 1;
        total := Wrap(total + amount);
    }
  }

  /** check_tx_inputs, check_tx.c:268-327, for a normal or to-gateway transaction. */
  method CheckTxInputs(tx: Spend, ins: seq<InputCheck>) returns (code: InputCode, badInput: nat)
    ensures code.InputBad? <==> !NoneBad(ins, |ins|)
    ensures code.InputBad? ==> badInput < |ins| && ins[badInput].Bad? && NoneBad(ins, badInput)
    ensures code.InputUnknown? <==> NoneBad(ins, |ins|) && !AllKnown(ins, |ins|)
    ensures code.InputUnknown? ==> LastUnknown(ins, |ins|, badInput)
    ensures code.InputOk? <==> AllKnown(ins, |ins|) && CorrectAmount(tx, Wrap(Sum(KnownAmounts(ins))))
    ensures Wellformed(tx, |ins|) && (forall i :: 0 <= i < |ins| && ins[i].Known? ==> ins[i].amount <= MaxSatoshi) ==>
              (code.InputOk? <==> AllKnown(ins, |ins|) && Balanced(tx, KnownAmounts(ins)))
  {
    var bad, known, total;
    bad, badInput, known, total := SumInputs(ins);
    if bad {
      return InputBad, badInput;
    }
    if known != |ins| {
      return InputUnknown, badInput;
    }
    assert ins[..|ins|] == ins;
    if Wellformed(tx, |ins|) && forall i :: 0 <= i < |ins| ==> ins[i].amount <= MaxSatoshi {
      CorrectAmountExactly(tx, KnownAmounts(ins));
    }
    if !CorrectAmount(tx, total) {
      return InputBadAmount, badInput;
    }
    return InputOk, badInput;
  }
}
