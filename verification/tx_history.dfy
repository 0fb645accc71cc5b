/**
 What the transaction indexes hold after a run, said of the events alone.
 */
module TxHistory {
  import opened Wrappers
  import opened BlockTree
  import opened TxIndex

  /** The event brings something for place `p`. */
  predicate Arrives(op: Op, p: Pos) {
    (op.PutHash? || op.PutTx?) && op.pos == p
  }

  function ArrivalSha(op: Op): (s: Sha)
    requires op.PutHash? || op.PutTx?
  {
    if op.PutHash? then op.sha else HashOf(op.tx)
  }

  /** Event i is the first for the place, and it names this hash. */
  ghost predicate NamedBy(ops: seq<Op>, p: Pos, sha: Sha, i: nat) {
    && i < |ops| && Arrives(ops[i], p) && ArrivalSha(ops[i]) == sha
    && forall j: nat :: j < i ==> !Arrives(ops[j], p)
  }

  ghost predicate Named(ops: seq<Op>, p: Pos, sha: Sha) {
    exists i: nat :: NamedBy(ops, p, sha, i)
  }

  /** The transaction arrived for the place, and it is the one the place was named for. */
  ghost predicate ArrivedInFull(ops: seq<Op>, p: Pos, tx: Tx) {
    Named(ops, p, HashOf(tx)) && exists j: nat :: j < |ops| && ops[j] == PutTx(p, tx)
  }

  /** Something had arrived for the place when it was taken out. */
  ghost predicate TakenOut(ops: seq<Op>, p: Pos) {
    exists i: nat, j: nat :: i < j < |ops| && Arrives(ops[i], p) && ops[j] == DropPlace(p)
  }

  /** Added, and not removed since. */
  ghost predicate StillPending(ops: seq<Op>, tx: Tx) {
    exists i: nat :: i < |ops| && ops[i] == AddPending(tx) && forall j: nat :: i < j < |ops| ==> ops[j] != RemovePending(tx)
  }

  // ---- one event more ----

  lemma NamedSnoc(ops: seq<Op>, op: Op, p: Pos, sha: Sha)
    ensures Named(ops + [op], p, sha) <==>
      Named(ops, p, sha) || ((forall j: nat :: j < |ops| ==> !Arrives(ops[j], p)) && Arrives(op, p) && ArrivalSha(op) == sha)
  {
    var all := ops + [op];
    assert forall j: nat :: j < |ops| ==> all[j] == ops[j];
    if i: nat :| NamedBy(ops, p, sha, i) {
      assert NamedBy(all, p, sha, i);
    }
    if (forall j: nat :: j < |ops| ==> !Arrives(ops[j], p)) && Arrives(op, p) && ArrivalSha(op) == sha {
      assert NamedBy(all, p, sha, |ops|);
    }
    if i: nat :| NamedBy(all, p, sha, i) {
      if i < |ops| {
        assert forall j: nat :: j < i ==> !Arrives(all[j], p);
        assert NamedBy(ops, p, sha, i);
      } else {
        assert forall j: nat :: j < |ops| ==> !Arrives(all[j], p);
      }
    }
  }

  lemma NamedOnce(ops: seq<Op>, p: Pos, sha: Sha, sha': Sha)
    requires Named(ops, p, sha) && Named(ops, p, sha')
    ensures sha == sha'
  {
    var i: nat :| NamedBy(ops, p, sha, i);
    var i': nat :| NamedBy(ops, p, sha', i');
    assert i == i';
  }

  /** What the book says of a place: its hash is the one first named, and it is full exactly if that
      transaction arrived. */
  lemma {:induction false} SlotExactly(ops: seq<Op>, p: Pos)
    ensures p in Books(ops).slots <==> exists i: nat :: i < |ops| && Arrives(ops[i], p)
    ensures p in Books(ops).slots ==> Named(ops, p, ShaOf(Books(ops).slots[p]))
    ensures forall tx :: p in Books(ops).slots && Books(ops).slots[p] == Full(tx) <==> ArrivedInFull(ops, p, tx)
  {
    if ops != [] {
      var n := |ops| - 1;
      var was, op := ops[..n], ops[n];
      assert ops == was + [op];
      SlotExactly(was, p);
      ArrivalsSnoc(was, op, p);
      if p in Books(ops).slots {
        NamedSnoc(was, op, p, ShaOf(Books(ops).slots[p]));
      }
      forall tx ensures p in Books(ops).slots && Books(ops).slots[p] == Full(tx) <==> ArrivedInFull(ops, p, tx) {
        FullSnoc(was, op, p, tx);
      }
    }
  }

  lemma ArrivalsSnoc(ops: seq<Op>, op: Op, p: Pos)
    ensures (exists i: nat :: i < |ops + [op]| && Arrives((ops + [op])[i], p)) <==>
      (exists i: nat :: i < |ops| && Arrives(ops[i], p)) || Arrives(op, p)
  {
    var all := ops + [op];
    if i: nat :| i < |ops| && Arrives(ops[i], p) {
      assert all[i] == ops[i];
    }
    if Arrives(op, p) {
      assert all[|ops|] == op;
    }
    if i: nat :| i < |all| && Arrives(all[i], p) {
      assert i < |ops| ==> all[i] == ops[i];
    }
  }

  lemma FullSnoc(ops: seq<Op>, op: Op, p: Pos, tx: Tx)
    requires p in Books(ops).slots <==> exists i: nat :: i < |ops| && Arrives(ops[i], p)
    requires p in Books(ops).slots ==> Named(ops, p, ShaOf(Books(ops).slots[p]))
    requires p in Books(ops).slots && Books(ops).slots[p] == Full(tx) <==> ArrivedInFull(ops, p, tx)
    ensures var slots := Entered(Books(ops), op).slots;
      p in slots && slots[p] == Full(tx) <==> ArrivedInFull(ops + [op], p, tx)
  {
    var all, before := ops + [op], Books(ops).slots;
    NamedSnoc(ops, op, p, HashOf(tx));
    if p in before && Named(ops, p, HashOf(tx)) {
      NamedOnce(ops, p, ShaOf(before[p]), HashOf(tx));
    }
    assert forall j: nat :: j < |ops| ==> all[j] == ops[j];
    assert all[|ops|] == op;
    if j: nat :| j < |ops| && ops[j] == PutTx(p, tx) {
      assert Arrives(ops[j], p) && all[j] == PutTx(p, tx);
    }
  }

  lemma {:induction false} DroppedExactly(ops: seq<Op>, p: Pos)
    ensures p in Books(ops).dropped <==> TakenOut(ops, p)
  {
    if ops != [] {
      var n := |ops| - 1;
      var was := ops[..n];
      DroppedExactly(was, p);
      SlotExactly(was, p);
      if i: nat, j: nat :| i < j < |was| && Arrives(was[i], p) && was[j] == DropPlace(p) {
        assert Arrives(ops[i], p) && ops[j] == DropPlace(p);
      }
      if i: nat, j: nat :| i < j < |ops| && Arrives(ops[i], p) && ops[j] == DropPlace(p) {
        assert was[i] == ops[i];
        assert j < n ==> was[j] == ops[j];
      }
      if p in Books(was).slots && ops[n] == DropPlace(p) {
        var i: nat :| i < |was| && Arrives(was[i], p);
        assert ops[i] == was[i];
      }
    }
  }

  lemma {:induction false} PendingExactly(ops: seq<Op>, tx: Tx)
    ensures tx in Books(ops).pending <==> StillPending(ops, tx)
  {
    if ops != [] {
      var n := |ops| - 1;
      var was := ops[..n];
      PendingExactly(was, tx);
      if i: nat :| i < |was| && was[i] == AddPending(tx) && forall j: nat :: i < j < |was| ==> was[j] != RemovePending(tx) {
        assert ops[i] == AddPending(tx);
        assert forall j: nat :: i < j < n ==> ops[j] == was[j];
      }
      if i: nat :| i < |ops| && ops[i] == AddPending(tx) && forall j: nat :: i < j < |ops| ==> ops[j] != RemovePending(tx) {
        assert i < n ==> was[i] == ops[i];
        assert forall j: nat :: i < j < n ==> was[j] == ops[j];
      }
    }
  }

  // ---- double spends ----

  /** Among the events is the arrival of a spend of the output, for a place not taken out, other than
      `me`, on a chain with the block. */
  ghost predicate SpendArrived(ops: seq<Op>, t: seq<Node>, block: nat, me: Option<Pos>, output: Output, pos: Pos)
    requires Tree(t) && block < |t|
  {
    && !TakenOut(ops, pos) && me != Some(pos)
    && pos.block < |t| && (Anc(t, pos.block, block) || Anc(t, block, pos.block))
    && exists tx: Tx :: ArrivedInFull(ops, pos, tx) && output in tx.inputs
  }

  lemma ConflictExactly(ops: seq<Op>, t: seq<Node>, block: nat, me: Option<Pos>, output: Output, pos: Pos)
    requires Tree(t) && block < |t|
    ensures Conflicts(t, Books(ops).slots, Books(ops).dropped, block, me, output, pos) <==>
            SpendArrived(ops, t, block, me, output, pos)
  {
    SlotExactly(ops, pos);
    DroppedExactly(ops, pos);
    if pos in Books(ops).slots && Books(ops).slots[pos].Full? {
      var tx := Books(ops).slots[pos].tx;
      assert ArrivedInFull(ops, pos, tx);
    }
  }

  /** After any run without latecomers, tx_find_doublespend finds a conflict if and only if the arrival of
      one is among the events. */
  method FindAfter(ops: seq<Op>, t: seq<Node>, block: nat, me: Option<Pos>, output: Output) returns (r: Option<Pos>)
    requires NoLatecomers(ops) && Tree(t) && block < |t|
    requires forall i: nat :: i < |ops| && (ops[i].PutHash? || ops[i].PutTx?) ==> ops[i].pos.block < |t|
    ensures r.Some? ==> SpendArrived(ops, t, block, me, output, r.value)
    ensures r.None? ==> forall pos :: !SpendArrived(ops, t, block, me, output, pos)
  {
    var idx := new Index();
    idx.Run(ops);
    forall p | p in idx.slots ensures p.block < |t| {
      SlotExactly(ops, p);
    }
    r := idx.FindDoublespend(t, block, me, output);
    forall pos ensures Conflicts(t, idx.slots, idx.dropped, block, me, output, pos) <==> SpendArrived(ops, t, block, me, output, pos) {
      ConflictExactly(ops, t, block, me, output, pos);
    }
  }
}
