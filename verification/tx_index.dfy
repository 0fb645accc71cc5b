/**
 The two indexes over transactions (tx_in_hashes.c, txhash.c, inputhash.c): where each
 transaction is known, and which outputs the fully known ones spend.
 */
module TxIndex {
  import opened Wrappers
  import opened Sequences
  import opened BlockTree

  /** Transactions, their hashes and the outputs they spend; a hash may also belong to
      nothing we have seen. */
  datatype Tx = Tx(inputs: seq<Output>, body: nat)
  datatype Sha = HashOf(tx: Tx) | Stray(n: nat)
  datatype Output = Output(tx: Sha, num: nat)

  /** A place for a transaction in a block. */
  datatype Pos = Pos(block: nat, shard: nat, txoff: nat)

  /** What the block holds there: the hash, or the transaction with its references. */
  datatype Entry = Hash(sha: Sha) | Full(tx: Tx)

  function ShaOf(e: Entry): (s: Sha) {
    match e
    case Hash(sha) => sha
    case Full(tx) => HashOf(tx)
  }

  /** struct txhash_elem */
  datatype Elem = InBlock(pos: Pos, sha: Sha) | Pending(tx: Tx)

  function ElemSha(e: Elem): (s: Sha) {
    match e
    case InBlock(_, sha) => sha
    case Pending(tx) => HashOf(tx)
  }

  /** struct inputhash_elem */
  datatype Spend = Spend(output: Output, usedBy: Sha)

  function SpendsOf(tx: Tx): (r: seq<Spend>) {
    seq(|tx.inputs|, i requires 0 <= i < |tx.inputs| => Spend(tx.inputs[i], HashOf(tx)))
  }

  // ---------------------------------------------------------------- tables as sequences

  /** Is the element a sighting of the full transaction? */
  predicate Sights(slots: map<Pos, Entry>, e: Elem) {
    match e
    case InBlock(pos, _) => pos in slots && slots[pos].Full?
    case Pending(_) => true
  }

  ghost predicate KnownInFull(slots: map<Pos, Entry>, txhash: seq<Elem>, sha: Sha) {
    exists i :: 0 <= i < |txhash| && ElemSha(txhash[i]) == sha && Sights(slots, txhash[i])
  }

  /** Elements point at places that hold that hash, and no place or pending tx is listed twice. */
  ghost predicate Listed(slots: map<Pos, Entry>, txhash: seq<Elem>) {
    && (forall i :: 0 <= i < |txhash| && txhash[i].InBlock? ==>
          txhash[i].pos in slots && ShaOf(slots[txhash[i].pos]) == txhash[i].sha)
    && Distinct(txhash)
  }

  /** inputhash holds the inputs of exactly the fully known transactions, each once,
      however many places hold the transaction. */
  ghost predicate InputsIndexed(slots: map<Pos, Entry>, txhash: seq<Elem>, inputhash: seq<Spend>) {
    forall s: Spend :: Times(inputhash, s) ==
      if s.usedBy.HashOf? && KnownInFull(slots, txhash, s.usedBy) then Times(SpendsOf(s.usedBy.tx), s) else 0
  }

  /** The places not dropped are the listed ones. */
  ghost predicate Covers(slots: map<Pos, Entry>, dropped: set<Pos>, txhash: seq<Elem>) {
    forall p: Pos :: p in slots ==>
      (p !in dropped <==> InBlock(p, ShaOf(slots[p])) in txhash)
  }

  /** How often `x` occurs. */
  ghost function Times<T>(s: seq<T>, x: T): (n: nat) {
    if s == [] then 0 else Times(s[..|s| - 1], x) + (if s[|s| - 1] == x then 1 else 0)
  }

  lemma TimesSnoc<T>(s: seq<T>, y: T, x: T)
    ensures Times(s + [y], x) == Times(s, x) + (if y == x then 1 else 0)
  {
    assert (s + [y])[..|s|] == s;
  }

  lemma {:induction false} TimesIn<T>(s: seq<T>, x: T)
    ensures Times(s, x) > 0 <==> x in s
  {
    if s != [] {
      TimesIn(s[..|s| - 1], x);
      assert s == s[..|s| - 1] + [s[|s| - 1]];
    }
  }

  lemma {:induction false} TimesRemove<T>(s: seq<T>, i: nat, x: T)
    requires i < |s|
    ensures Times(RemoveAt(s, i), x) == Times(s, x) - (if s[i] == x then 1 else 0)
  {
    var n := |s| - 1;
    if i == n {
      assert RemoveAt(s, i) == s[..n];
    } else {
      TimesRemove(s[..n], i, x);
      assert RemoveAt(s, i) == RemoveAt(s[..n], i) + [s[n]];
      TimesSnoc(RemoveAt(s[..n], i), s[n], x);
    }
  }

  ghost predicate Distinct<T>(s: seq<T>) {
    forall i, j :: 0 <= i < j < |s| ==> s[i] != s[j]
  }

  lemma RemoveAtFacts<T(!new)>(s: seq<T>, i: nat)
    requires i < |s| && Distinct(s)
    ensures Distinct(RemoveAt(s, i))
    ensures forall x :: x in RemoveAt(s, i) <==> x in s && x != s[i]
  {
    var r := RemoveAt(s, i);
    forall x ensures x in r <==> x in s && x != s[i] {
      if x in s && x != s[i] {
        var k :| 0 <= k < |s| && s[k] == x;
        assert r[if k < i then k else k - 1] == x;
      }
    }
  }

  function Monus(a: nat, b: nat): (r: nat) {
    if b <= a then a - b else 0
  }

  lemma {:induction false} TimesAbsent<T>(s: seq<T>, x: T)
    requires forall i :: 0 <= i < |s| ==> s[i] != x
    ensures Times(s, x) == 0
  {
    if s != [] { TimesAbsent(s[..|s| - 1], x); }
  }

  /** Only transaction `tx` may have changed whether it is known in full. */
  ghost predicate SameButFor(slots: map<Pos, Entry>, txhash: seq<Elem>, slots': map<Pos, Entry>, txhash': seq<Elem>, sha: Sha) {
    forall x: Sha :: x != sha ==> (KnownInFull(slots', txhash', x) <==> KnownInFull(slots, txhash, x))
  }

  /** A sighting of `tx` was added, and its inputs unless it was known before. */
  lemma SightingAdded(slots: map<Pos, Entry>, txhash: seq<Elem>, inputhash: seq<Spend>,
                      slots': map<Pos, Entry>, txhash': seq<Elem>, inputhash': seq<Spend>, tx: Tx)
    requires InputsIndexed(slots, txhash, inputhash)
    requires SameButFor(slots, txhash, slots', txhash', HashOf(tx)) && KnownInFull(slots', txhash', HashOf(tx))
    requires KnownInFull(slots, txhash, HashOf(tx)) ==> inputhash' == inputhash
    requires !KnownInFull(slots, txhash, HashOf(tx)) ==>
               forall s :: Times(inputhash', s) == Times(inputhash, s) + Times(SpendsOf(tx), s)
    ensures InputsIndexed(slots', txhash', inputhash')
  {
    forall s: Spend ensures Times(inputhash', s) ==
      if s.usedBy.HashOf? && KnownInFull(slots', txhash', s.usedBy) then Times(SpendsOf(s.usedBy.tx), s) else 0
    {
      if s.usedBy != HashOf(tx) { TimesAbsent(SpendsOf(tx), s); }
    }
  }

  /** A sighting of `tx` may have gone, and its inputs with the last one. */
  lemma SightingRemoved(slots: map<Pos, Entry>, txhash: seq<Elem>, inputhash: seq<Spend>,
                        slots': map<Pos, Entry>, txhash': seq<Elem>, inputhash': seq<Spend>, tx: Tx)
    requires InputsIndexed(slots, txhash, inputhash)
    requires SameButFor(slots, txhash, slots', txhash', HashOf(tx))
    requires KnownInFull(slots', txhash', HashOf(tx)) ==> KnownInFull(slots, txhash, HashOf(tx)) && inputhash' == inputhash
    requires !KnownInFull(slots', txhash', HashOf(tx)) ==>
               forall s :: Times(inputhash', s) == Monus(Times(inputhash, s), Times(SpendsOf(tx), s))
    ensures InputsIndexed(slots', txhash', inputhash')
  {
    forall s: Spend ensures Times(inputhash', s) ==
      if s.usedBy.HashOf? && KnownInFull(slots', txhash', s.usedBy) then Times(SpendsOf(s.usedBy.tx), s) else 0
    {
      if s.usedBy != HashOf(tx) { TimesAbsent(SpendsOf(tx), s); }
    }
  }

  /** Appending an element. */
  lemma Appended(slots: map<Pos, Entry>, txhash: seq<Elem>, e: Elem)
    requires Listed(slots, txhash) && e !in txhash
    requires e.InBlock? ==> e.pos in slots && ShaOf(slots[e.pos]) == e.sha
    ensures Listed(slots, txhash + [e])
    ensures forall x: Sha :: KnownInFull(slots, txhash + [e], x) <==>
              KnownInFull(slots, txhash, x) || (x == ElemSha(e) && Sights(slots, e))
  {
    var t' := txhash + [e];
    assert forall i :: 0 <= i < |txhash| ==> t'[i] == txhash[i];
    forall x: Sha ensures KnownInFull(slots, t', x) <==> KnownInFull(slots, txhash, x) || (x == ElemSha(e) && Sights(slots, e)) {
      if KnownInFull(slots, txhash, x) {
        var i :| 0 <= i < |txhash| && ElemSha(txhash[i]) == x && Sights(slots, txhash[i]);
        assert t'[i] == txhash[i];
      }
      if x == ElemSha(e) && Sights(slots, e) { assert t'[|txhash|] == e; }
    }
  }

  /** A new place in a block does not disturb the old elements. */
  lemma NewSlot(slots: map<Pos, Entry>, txhash: seq<Elem>, pos: Pos, e: Entry)
    requires Listed(slots, txhash) && pos !in slots
    ensures Listed(slots[pos := e], txhash)
    ensures forall x: Sha :: KnownInFull(slots[pos := e], txhash, x) <==> KnownInFull(slots, txhash, x)
    ensures forall sha :: InBlock(pos, sha) !in txhash
  {
    var s' := slots[pos := e];
    assert forall i :: 0 <= i < |txhash| ==> Sights(s', txhash[i]) == Sights(slots, txhash[i]);
  }

  /** A listed hash turns into its transaction. */
  lemma Upgraded(slots: map<Pos, Entry>, txhash: seq<Elem>, pos: Pos, tx: Tx)
    requires Listed(slots, txhash) && pos in slots && slots[pos] == Hash(HashOf(tx)) && InBlock(pos, HashOf(tx)) in txhash
    ensures Listed(slots[pos := Full(tx)], txhash)
    ensures forall x: Sha :: KnownInFull(slots[pos := Full(tx)], txhash, x) <==> KnownInFull(slots, txhash, x) || x == HashOf(tx)
  {
    var s' := slots[pos := Full(tx)];
    forall x: Sha ensures KnownInFull(s', txhash, x) <==> KnownInFull(slots, txhash, x) || x == HashOf(tx) {
      if KnownInFull(slots, txhash, x) {
        var i :| 0 <= i < |txhash| && ElemSha(txhash[i]) == x && Sights(slots, txhash[i]);
        assert Sights(s', txhash[i]);
      }
      if x == HashOf(tx) {
        var i :| 0 <= i < |txhash| && txhash[i] == InBlock(pos, x);
        assert Sights(s', txhash[i]);
      }
      if KnownInFull(s', txhash, x) && x != HashOf(tx) {
        var i :| 0 <= i < |txhash| && ElemSha(txhash[i]) == x && Sights(s', txhash[i]);
        assert Sights(slots, txhash[i]);
      }
    }
  }

  /** A hash that is no longer listed turns into its transaction: nobody notices. */
  lemma UpgradedUnlisted(slots: map<Pos, Entry>, txhash: seq<Elem>, pos: Pos, tx: Tx)
    requires Listed(slots, txhash) && pos in slots && slots[pos] == Hash(HashOf(tx)) && InBlock(pos, HashOf(tx)) !in txhash
    ensures Listed(slots[pos := Full(tx)], txhash)
    ensures forall x: Sha :: KnownInFull(slots[pos := Full(tx)], txhash, x) <==> KnownInFull(slots, txhash, x)
  {
    var s' := slots[pos := Full(tx)];
    forall i | 0 <= i < |txhash| ensures Sights(s', txhash[i]) == Sights(slots, txhash[i]) {
      assert txhash[i] in txhash;
    }
  }

  /** Inputs added although the transaction is no better known than before. */
  lemma UnlistedInputs(slots: map<Pos, Entry>, txhash: seq<Elem>, inputhash: seq<Spend>,
                       slots': map<Pos, Entry>, inputhash': seq<Spend>, tx: Tx)
    requires InputsIndexed(slots, txhash, inputhash)
    requires forall x: Sha :: KnownInFull(slots', txhash, x) <==> KnownInFull(slots, txhash, x)
    requires KnownInFull(slots, txhash, HashOf(tx)) ==> inputhash' == inputhash
    requires !KnownInFull(slots, txhash, HashOf(tx)) ==>
               forall s :: Times(inputhash', s) == Times(inputhash, s) + Times(SpendsOf(tx), s)
    ensures InputsIndexed(slots', txhash, inputhash') <==> KnownInFull(slots, txhash, HashOf(tx)) || tx.inputs == []
  {
    if !KnownInFull(slots, txhash, HashOf(tx)) {
      if tx.inputs != [] {
        var s := SpendsOf(tx)[0];
        TimesIn(SpendsOf(tx), s);
        assert Times(inputhash', s) > 0;
      } else {
        assert SpendsOf(tx) == [];
      }
    }
  }

  /** An element goes; other transactions do not notice. */
  lemma Unlisted(slots: map<Pos, Entry>, txhash: seq<Elem>, e: Elem, txhash': seq<Elem>)
    requires Listed(slots, txhash) && Distinct(txhash') && forall x :: x in txhash' <==> x in txhash && x != e
    ensures Listed(slots, txhash')
    ensures SameButFor(slots, txhash, slots, txhash', ElemSha(e))
    ensures KnownInFull(slots, txhash', ElemSha(e)) ==> KnownInFull(slots, txhash, ElemSha(e))
    ensures !Sights(slots, e) ==> (KnownInFull(slots, txhash', ElemSha(e)) <==> KnownInFull(slots, txhash, ElemSha(e)))
  {
    forall i | 0 <= i < |txhash'| ensures txhash'[i] in txhash {
      assert txhash'[i] in txhash';
    }
    forall x: Sha | KnownInFull(slots, txhash', x) ensures KnownInFull(slots, txhash, x) {
      var i :| 0 <= i < |txhash'| && ElemSha(txhash'[i]) == x && Sights(slots, txhash'[i]);
      var k :| 0 <= k < |txhash| && txhash[k] == txhash'[i];
    }
    forall x: Sha | KnownInFull(slots, txhash, x) && (x != ElemSha(e) || !Sights(slots, e)) ensures KnownInFull(slots, txhash', x) {
      var i :| 0 <= i < |txhash| && ElemSha(txhash[i]) == x && Sights(slots, txhash[i]);
      assert txhash[i] in txhash && txhash[i] != e;
      var k :| 0 <= k < |txhash'| && txhash'[k] == txhash[i];
    }
  }

  /** A slot of a block whose shards have these sizes. */
  ghost predicate PlaceOf(p: Pos, block: nat, sizes: seq<nat>) {
    p.block == block && p.shard < |sizes| && p.txoff < sizes[p.shard]
  }

  /** What happens to the indexes. */
  datatype Op =
    | PutHash(pos: Pos, sha: Sha)
    | PutTx(pos: Pos, tx: Tx)
    | DropPlace(pos: Pos)
    | AddPending(tx: Tx)
    | RemovePending(tx: Tx)

  /** What the events so far leave: what each place holds, which were taken out, what is pending. */
  datatype Book = Book(slots: map<Pos, Entry>, dropped: set<Pos>, pending: set<Tx>)

  function Entered(b: Book, op: Op): (r: Book) {
    match op
    case PutHash(pos, sha) => if pos in b.slots then b else b.(slots := b.slots[pos := Hash(sha)])
    case PutTx(pos, tx) =>
      if pos !in b.slots || b.slots[pos] == Hash(HashOf(tx)) then b.(slots := b.slots[pos := Full(tx)]) else b
    case DropPlace(pos) => if pos in b.slots then b.(dropped := b.dropped + {pos}) else b
    case AddPending(tx) => b.(pending := b.pending + {tx})
    case RemovePending(tx) => b.(pending := b.pending - {tx})
  }

  function Books(ops: seq<Op>): (b: Book) {
    if ops == [] then Book(map[], {}, {}) else Entered(Books(ops[..|ops| - 1]), ops[|ops| - 1])
  }

  ghost predicate DroppedBefore(ops: seq<Op>, n: nat, p: Pos) {
    exists j: nat :: j < n && j < |ops| && ops[j] == DropPlace(p)
  }

  ghost predicate NoLatecomers(ops: seq<Op>) {
    forall i: nat :: i < |ops| && ops[i].PutTx? ==> !DroppedBefore(ops, i, ops[i].pos)
  }

  class Index {
    var slots: map<Pos, Entry>
    var txhash: seq<Elem>
    var inputhash: seq<Spend>
    /** Places taken out of the index because their block has a complaint. */
    var dropped: set<Pos>

    ghost predicate Valid()
      reads this
    {
      && Listed(slots, txhash)
      && InputsIndexed(slots, txhash, inputhash)
      && Covers(slots, dropped, txhash)
      && dropped <= slots.Keys
    }

    constructor ()
      ensures Valid() && slots == map[] && txhash == [] && inputhash == [] && dropped == {}
    {
      slots, txhash, inputhash, dropped := map[], [], [], {};
    }

    /** txhash_gettx, txhash.c:41-72. */
    method GetTx(sha: Sha, ignorePending: bool) returns (r: Option<Tx>)
      requires Listed(slots, txhash)
      ensures !ignorePending ==> (r.Some? <==> KnownInFull(slots, txhash, sha))
      ensures r.Some? ==> HashOf(r.value) == sha
      ensures ignorePending ==>
                (r.Some? <==> exists i :: 0 <= i < |txhash| && txhash[i].InBlock? && txhash[i].sha == sha && Sights(slots, txhash[i]))
    {
      for i := 0 to |txhash|
        invariant forall k :: 0 <= k < i && ElemSha(txhash[k]) == sha ==>
                    !Sights(slots, txhash[k]) || (ignorePending && txhash[k].Pending?)
      {
        var te := txhash[i];
        if ElemSha(te) == sha {
          if te.Pending? {
            if !ignorePending {
              return Some(te.tx);
            }
          } else if slots[te.pos].Full? {
            return Some(slots[te.pos].tx);
          }
        }
      }
      return None;
    }

    /** inputhash_add_tx, inputhash.c:72-89. */
    method InputHashAddTx(tx: Tx)
      modifies this`inputhash
      ensures forall s :: Times(inputhash, s) == Times(old(inputhash), s) + Times(SpendsOf(tx), s)
    {
      ghost var all := SpendsOf(tx);
      for i := 0 to |tx.inputs|
        invariant forall s :: Times(inputhash, s) == Times(old(inputhash), s) + Times(all[..i], s)
      {
        var spend := Spend(tx.inputs[i], HashOf(tx));
        forall s ensures Times(inputhash + [spend], s) == Times(old(inputhash), s) + Times(all[..i + 1], s) {
          TimesSnoc(inputhash, spend, s);
          TimesSnoc(all[..i], spend, s);
          assert all[..i + 1] == all[..i] + [spend];
        }
        inputhash := inputhash + [spend];
      }
      assert all[..|tx.inputs|] == all;
    }

    /** One turn of inputhash_del_tx (inputhash.c:103-113): the first entry for this output and user goes. */
    method InputHashDelOne(spend: Spend)
      modifies this`inputhash
      ensures forall s :: Times(inputhash, s) == Monus(Times(old(inputhash), s), if s == spend then 1 else 0)
    {
      var i := FindSpend(spend);
      if i < |inputhash| {
        forall s ensures Times(RemoveAt(inputhash, i), s) == Monus(Times(inputhash, s), if s == spend then 1 else 0) {
          TimesRemove(inputhash, i, s);
        }
        inputhash := RemoveAt(inputhash, i);
      } else {
        TimesIn(inputhash, spend);
      }
    }

    method FindSpend(spend: Spend) returns (i: nat)
      ensures i < |inputhash| ==> inputhash[i] == spend
      ensures i >= |inputhash| ==> spend !in inputhash
    {
      i := 0;
      while i < |inputhash|
        invariant i <= |inputhash| && spend !in inputhash[..i]
      {
        if inputhash[i] == spend {
          return;
        }
        i := i + 1;
      }
    }

    /** inputhash_del_tx, inputhash.c:91-115. */
    method InputHashDelTx(tx: Tx)
      modifies this`inputhash
      ensures forall s :: Times(inputhash, s) == Monus(Times(old(inputhash), s), Times(SpendsOf(tx), s))
    {
      ghost var all := SpendsOf(tx);
      for i := 0 to |tx.inputs|
        invariant forall s :: Times(inputhash, s) == Monus(Times(old(inputhash), s), Times(all[..i], s))
      {
        var spend := Spend(tx.inputs[i], HashOf(tx));
        InputHashDelOne(spend);
        assert all[..i + 1] == all[..i] + [spend];
        forall s ensures Times(all[..i + 1], s) == Times(all[..i], s) + (if s == spend then 1 else 0) {
          TimesSnoc(all[..i], spend, s);
        }
      }
      assert all[..|tx.inputs|] == all;
    }
  
    /** put_txhash_in_shard's part: the place now holds a hash, and add_txhash_to_hashes
        (tx_in_hashes.c:6-16) lists it. */
    method AddTxHashToHashes(pos: Pos, sha: Sha)
      requires Valid() && pos !in slots
      modifies this
      ensures Valid()
      ensures slots == old(slots)[pos := Hash(sha)] && inputhash == old(inputhash) && dropped == old(dropped)
      ensures txhash == old(txhash) + [InBlock(pos, sha)]
    {
      NewSlot(slots, txhash, pos, Hash(sha));
      Appended(slots[pos := Hash(sha)], txhash, InBlock(pos, sha));
      slots := slots[pos := Hash(sha)];
      txhash := txhash + [InBlock(pos, sha)];
    }

    /** add_tx_to_hashes (tx_in_hashes.c:18-32), after which put_tx_in_shard stores the transaction. */
    method AddTxToHashes(pos: Pos, tx: Tx)
      requires Valid() && pos !in slots
      modifies this
      ensures Valid()
      ensures slots == old(slots)[pos := Full(tx)] && dropped == old(dropped)
      ensures txhash == old(txhash) + [InBlock(pos, HashOf(tx))]
    {
      var known := GetTx(HashOf(tx), false);
      if known.None? {
        InputHashAddTx(tx);
      }
      NewSlot(slots, txhash, pos, Full(tx));
      Appended(slots[pos := Full(tx)], txhash, InBlock(pos, HashOf(tx)));
      slots := slots[pos := Full(tx)];
      txhash := txhash + [InBlock(pos, HashOf(tx))];
      SightingAdded(old(slots), old(txhash), old(inputhash), slots, txhash, inputhash, tx);
    }
  
    /** Does turning the hash at `pos` into `tx` leave inputs behind that no listed place accounts for? */
    ghost predicate Leaks(pos: Pos, tx: Tx)
      reads this
    {
      pos in dropped && !KnownInFull(slots, txhash, HashOf(tx)) && tx.inputs != []
    }

    /** upgrade_tx_in_hashes (tx_in_hashes.c:61-71), after which the hash turns into the transaction.
        It does not look whether the place is still listed. */
    method UpgradeTxInHashes(pos: Pos, tx: Tx)
      requires Valid() && pos in slots && slots[pos] == Hash(HashOf(tx))
      modifies this
      ensures Valid() <==> !old(Leaks(pos, tx))
      ensures slots == old(slots)[pos := Full(tx)] && txhash == old(txhash) && dropped == old(dropped)
      ensures forall s :: Times(inputhash, s) == Times(old(inputhash), s) +
                (if old(KnownInFull(slots, txhash, HashOf(tx))) then 0 else Times(SpendsOf(tx), s))
    {
      var known := GetTx(HashOf(tx), false);
      if known.None? {
        InputHashAddTx(tx);
      }
      if pos in dropped {
        UpgradedUnlisted(slots, txhash, pos, tx);
        slots := slots[pos := Full(tx)];
        UnlistedInputs(old(slots), txhash, old(inputhash), slots, inputhash, tx);
      } else {
        Upgraded(slots, txhash, pos, tx);
        slots := slots[pos := Full(tx)];
        SightingAdded(old(slots), old(txhash), old(inputhash), slots, txhash, inputhash, tx);
      }
    }

    /** txhash_del_tx, txhash.c:74-111. */
    method TxHashDel(e: Elem)
      requires Listed(slots, txhash)
      modifies this`txhash
      ensures Distinct(txhash) && forall x :: x in txhash <==> x in old(txhash) && x != e
    {
      for i := 0 to |txhash|
        invariant txhash == old(txhash)
        invariant e !in txhash[..i]
      {
        if txhash[i] == e {
          RemoveAtFacts(txhash, i);
          txhash := RemoveAt(txhash, i);
          return;
        }
      }
      assert txhash[..|txhash|] == txhash;
    }

    /** The common end of remove_tx_from_hashes and remove_pending_tx_from_hashes. */
    method ForgetIfUnknown(tx: Tx, ghost txhash0: seq<Elem>)
      requires Listed(slots, txhash) && InputsIndexed(slots, txhash0, inputhash)
      requires SameButFor(slots, txhash0, slots, txhash, HashOf(tx))
      requires KnownInFull(slots, txhash, HashOf(tx)) ==> KnownInFull(slots, txhash0, HashOf(tx))
      modifies this`inputhash
      ensures InputsIndexed(slots, txhash, inputhash)
    {
      var known := GetTx(HashOf(tx), false);
      if known.None? {
        InputHashDelTx(tx);
      }
      SightingRemoved(slots, txhash0, old(inputhash), slots, txhash, inputhash, tx);
    }

    /** remove_tx_from_hashes, tx_in_hashes.c:34-59.  complaint_on_all passes it every place of the
        block; for one that nothing is known about it would read a transaction that is not there,
        and `ok` is false.  Removing a place a second time changes nothing. */
    method RemoveTxFromHashes(pos: Pos) returns (ok: bool)
      requires Valid()
      modifies this
      ensures Valid() && slots == old(slots)
      ensures ok <==> pos in slots
      ensures !ok ==> dropped == old(dropped) && txhash == old(txhash) && inputhash == old(inputhash)
      ensures ok ==> dropped == old(dropped) + {pos}
      ensures ok ==> forall x :: x in txhash <==> x in old(txhash) && x != InBlock(pos, ShaOf(slots[pos]))
      ensures pos in old(dropped) ==> forall s :: Times(inputhash, s) == Times(old(inputhash), s)
    {
      if pos !in slots {
        return false;
      }
      RemoveKnown(pos);
      return true;
    }

    /** complain.c:24-29 on one block: it gets to the end if and only if every slot is filled, and then
        all its places, and no others, are out of the index. */
    method RemoveBlock(block: nat, sizes: seq<nat>) returns (ok: bool)
      requires Valid()
      modifies this
      ensures Valid() && slots == old(slots)
      ensures ok <==> forall p: Pos :: PlaceOf(p, block, sizes) ==> p in slots
      ensures ok ==> forall p: Pos :: p in dropped <==> p in old(dropped) || PlaceOf(p, block, sizes)
      ensures ok ==> forall p: Pos :: PlaceOf(p, block, sizes) ==> InBlock(p, ShaOf(slots[p])) !in txhash
    {
      for shard := 0 to |sizes|
        invariant Valid() && slots == old(slots)
        invariant forall p: Pos :: PlaceOf(p, block, sizes[..shard]) ==> p in slots
        invariant forall p: Pos :: p in dropped <==> p in old(dropped) || PlaceOf(p, block, sizes[..shard])
      {
        ok := RemoveShard(block, shard, sizes[shard]);
        if !ok {
          ghost var off: nat :| off < sizes[shard] && Pos(block, shard, off) !in slots;
          assert PlaceOf(Pos(block, shard, off), block, sizes);
          return;
        }
        forall p: Pos ensures PlaceOf(p, block, sizes[..shard + 1]) <==>
          PlaceOf(p, block, sizes[..shard]) || (p.block == block && p.shard == shard && p.txoff < sizes[shard]) {
        }
      }
      assert sizes[..|sizes|] == sizes;
      return true;
    }

    method RemoveShard(block: nat, shard: nat, size: nat) returns (ok: bool)
      requires Valid()
      modifies this
      ensures Valid() && slots == old(slots)
      ensures ok <==> forall off: nat :: off < size ==> Pos(block, shard, off) in slots
      ensures ok ==> forall p: Pos :: p in dropped <==>
                p in old(dropped) || (p.block == block && p.shard == shard && p.txoff < size)
    {
      for off := 0 to size
        invariant Valid() && slots == old(slots)
        invariant forall o: nat :: o < off ==> Pos(block, shard, o) in slots
        invariant forall p: Pos :: p in dropped <==>
                    p in old(dropped) || (p.block == block && p.shard == shard && p.txoff < off)
      {
        ok := RemoveTxFromHashes(Pos(block, shard, off));
        if !ok {
          return;
        }
      }
      return true;
    }

    method RemoveKnown(pos: Pos)
      requires Valid() && pos in slots
      modifies this
      ensures Valid()
      ensures slots == old(slots) && dropped == old(dropped) + {pos}
      ensures forall x :: x in txhash <==> x in old(txhash) && x != InBlock(pos, ShaOf(slots[pos]))
      ensures pos in old(dropped) ==> forall s :: Times(inputhash, s) == Times(old(inputhash), s)
    {
      var e := InBlock(pos, ShaOf(slots[pos]));
      TxHashDel(e);
      Unlisted(slots, old(txhash), e, txhash);
      if slots[pos].Full? {
        ForgetIfUnknown(slots[pos].tx, old(txhash));
      }
      dropped := dropped + {pos};
      if pos in old(dropped) {
        SameSightings(slots, old(txhash), txhash);
        SameInputs(slots, old(txhash), old(inputhash), txhash, inputhash);
      }
    }

    /** add_pending_tx_to_hashes, tx_in_hashes.c:73-90. */
    method AddPendingTxToHashes(tx: Tx)
      requires Valid() && Pending(tx) !in txhash
      modifies this
      ensures Valid()
      ensures slots == old(slots) && dropped == old(dropped) && txhash == old(txhash) + [Pending(tx)]
    {
      var known := GetTx(HashOf(tx), false);
      if known.None? {
        InputHashAddTx(tx);
      }
      Appended(slots, txhash, Pending(tx));
      txhash := txhash + [Pending(tx)];
      SightingAdded(slots, old(txhash), old(inputhash), slots, txhash, inputhash, tx);
    }

    /** remove_pending_tx_from_hashes, tx_in_hashes.c:92-106.  recheck_pending_txs also calls
        it for transactions that are not listed as pending; that changes nothing. */
    method RemovePendingTxFromHashes(tx: Tx)
      requires Valid()
      modifies this
      ensures Valid()
      ensures slots == old(slots) && dropped == old(dropped)
      ensures forall x :: x in txhash <==> x in old(txhash) && x != Pending(tx)
      ensures Pending(tx) !in old(txhash) ==> forall s :: Times(inputhash, s) == Times(old(inputhash), s)
    {
      TxHashDel(Pending(tx));
      Unlisted(slots, old(txhash), Pending(tx), txhash);
      ForgetIfUnknown(tx, old(txhash));
      if Pending(tx) !in old(txhash) {
        SameSightings(slots, old(txhash), txhash);
        SameInputs(slots, old(txhash), old(inputhash), txhash, inputhash);
      }
    }

    /** The indexes hold what the book says. */
    ghost predicate Keeps(b: Book)
      reads this
    {
      slots == b.slots && dropped == b.dropped && forall tx :: Pending(tx) in txhash <==> tx in b.pending
    }

    /** One event, as its caller would pass it on: put_tx_in_shard and put_txhash_in_shard look at the
        place first (check_block.c:205-230, 264-270), and a listed pending transaction is not added again. */
    method Step(op: Op, ghost b: Book)
      requires Valid() && Keeps(b)
      modifies this
      ensures Keeps(Entered(b, op))
      ensures !(op.PutTx? && op.pos in old(dropped)) ==> Valid()
    {
      match op
      case PutHash(pos, sha) =>
        if pos !in slots {
          AddTxHashToHashes(pos, sha);
        }
      case PutTx(pos, tx) =>
        if pos !in slots {
          AddTxToHashes(pos, tx);
        } else if slots[pos] == Hash(HashOf(tx)) {
          UpgradeTxInHashes(pos, tx);
        }
      case DropPlace(pos) =>
        var _ := RemoveTxFromHashes(pos);
      case AddPending(tx) =>
        if Pending(tx) !in txhash {
          AddPendingTxToHashes(tx);
        }
      case RemovePending(tx) =>
        RemovePendingTxFromHashes(tx);
    }

    /** In every run in which no transaction arrives for a place after the place was taken out,
        the indexes agree with what is known, and what is known is what the events say. */
    method Run(ops: seq<Op>)
      requires Valid() && Keeps(Books([])) && NoLatecomers(ops)
      modifies this
      ensures Valid() && Keeps(Books(ops))
    {
      for i := 0 to |ops|
        invariant Valid() && Keeps(Books(ops[..i]))
        invariant forall p :: p in dropped ==> DroppedBefore(ops, i, p)
      {
        ghost var was := dropped;
        Step(ops[i], Books(ops[..i]));
        assert ops[..i + 1][..i] == ops[..i];
        forall p | p in dropped ensures DroppedBefore(ops, i + 1, p) {
          if p in was {
            var j: nat :| j < i && ops[j] == DropPlace(p);
          } else {
            assert ops[i] == DropPlace(p);
          }
        }
      }
      assert ops[..|ops|] == ops;
    }

    /** The inner loop of tx_find_doublespend (check_tx.c:120-141). */
    method FindSpender(t: seq<Node>, block: nat, me: Option<Pos>, usedBy: Sha) returns (r: Option<Pos>)
      requires Valid() && Tree(t) && block < |t| && forall p :: p in slots ==> p.block < |t|
      ensures r.Some? ==> InBlock(r.value, usedBy) in txhash && Spends(t, block, me, r.value)
      ensures r.None? ==> forall p :: InBlock(p, usedBy) in txhash ==> !Spends(t, block, me, p)
    {
      for i := 0 to |txhash|
        invariant forall k :: 0 <= k < i && txhash[k].InBlock? && txhash[k].sha == usedBy ==> !Spends(t, block, me, txhash[k].pos)
      {
        var te := txhash[i];
        if te.InBlock? && te.sha == usedBy && me != Some(te.pos) && slots[te.pos].Full? {
          BlockPreceedsIsAncestry(t, te.pos.block, block);
          BlockPreceedsIsAncestry(t, block, te.pos.block);
          if BlockPreceeds(t, te.pos.block, block) || BlockPreceeds(t, block, te.pos.block) {
            return Some(te.pos);
          }
        }
      }
      return None;
    }

    ghost predicate Spends(t: seq<Node>, block: nat, me: Option<Pos>, pos: Pos)
      requires Tree(t) && block < |t|
      reads this
    {
      && pos in slots && slots[pos].Full? && me != Some(pos)
      && pos.block < |t| && (Anc(t, pos.block, block) || Anc(t, block, pos.block))
    }

    /** tx_find_doublespend (check_tx.c:104-144) agrees with a scan of every place that
        no complaint has taken out. */
    method FindDoublespend(t: seq<Node>, block: nat, me: Option<Pos>, output: Output) returns (r: Option<Pos>)
      requires Valid() && Tree(t) && block < |t| && forall p :: p in slots ==> p.block < |t|
      ensures r.Some? ==> Conflicts(t, slots, dropped, block, me, output, r.value)
      ensures r.None? ==> forall pos :: !Conflicts(t, slots, dropped, block, me, output, pos)
    {
      for i := 0 to |inputhash|
        invariant forall k :: 0 <= k < i && inputhash[k].output == output ==>
                    forall p :: InBlock(p, inputhash[k].usedBy) in txhash ==> !Spends(t, block, me, p)
      {
        var ie := inputhash[i];
        if ie.output == output {
          var te := FindSpender(t, block, me, ie.usedBy);
          if te.Some? {
            SpendListed(slots, txhash, inputhash, ie);
            return te;
          }
        }
      }
      forall pos ensures !Conflicts(t, slots, dropped, block, me, output, pos) {
        if Conflicts(t, slots, dropped, block, me, output, pos) {
          ConflictListed(t, slots, dropped, txhash, inputhash, block, me, output, pos);
        }
      }
      return None;
    }
  }

  /** A latecomer: its inputs stay in the index although no place or pending entry is left that has it. */
  method LeakedInputs(pos: Pos, tx: Tx) returns (idx: Index)
    requires tx.inputs != []
    ensures fresh(idx) && idx.txhash == [] && !idx.Valid()
    ensures Spend(tx.inputs[0], HashOf(tx)) in idx.inputhash
  {
    idx := new Index();
    idx.AddTxHashToHashes(pos, HashOf(tx));
    var _ := idx.RemoveTxFromHashes(pos);
    ghost var spend := SpendsOf(tx)[0];
    HasElement(idx.txhash);
    idx.UpgradeTxInHashes(pos, tx);
    TimesIn(SpendsOf(tx), spend);
    TimesIn(idx.inputhash, spend);
  }

  // ---------------------------------------------------------------- double spends

  /** `pos` holds, in full and not taken out by a complaint, a spend of `output` on a chain
      with `block`, and is not `me`. */
  ghost predicate Conflicts(t: seq<Node>, slots: map<Pos, Entry>, dropped: set<Pos>, block: nat, me: Option<Pos>, output: Output, pos: Pos)
    requires Tree(t) && block < |t|
  {
    && pos in slots && pos !in dropped && slots[pos].Full?
    && output in slots[pos].tx.inputs
    && me != Some(pos)
    && pos.block < |t| && (Anc(t, pos.block, block) || Anc(t, block, pos.block))
  }

  /** A spend is in the index exactly when its transaction is known in full and has that input. */
  lemma SpendListed(slots: map<Pos, Entry>, txhash: seq<Elem>, inputhash: seq<Spend>, s: Spend)
    requires InputsIndexed(slots, txhash, inputhash)
    ensures s in inputhash <==> s.usedBy.HashOf? && KnownInFull(slots, txhash, s.usedBy) && s.output in s.usedBy.tx.inputs
  {
    TimesIn(inputhash, s);
    if s.usedBy.HashOf? {
      var all := SpendsOf(s.usedBy.tx);
      TimesIn(all, s);
      if s.output in s.usedBy.tx.inputs {
        var i :| 0 <= i < |s.usedBy.tx.inputs| && s.usedBy.tx.inputs[i] == s.output;
        assert all[i] == s;
      }
    }
  }

  /** Every conflict is found through the two tables. */
  lemma ConflictListed(t: seq<Node>, slots: map<Pos, Entry>, dropped: set<Pos>, txhash: seq<Elem>, inputhash: seq<Spend>,
                       block: nat, me: Option<Pos>, output: Output, pos: Pos)
    requires InputsIndexed(slots, txhash, inputhash) && Covers(slots, dropped, txhash)
    requires Tree(t) && block < |t| && Conflicts(t, slots, dropped, block, me, output, pos)
    ensures Spend(output, HashOf(slots[pos].tx)) in inputhash && InBlock(pos, HashOf(slots[pos].tx)) in txhash
  {
    var sha := HashOf(slots[pos].tx);
    var i :| 0 <= i < |txhash| && txhash[i] == InBlock(pos, sha);
    assert ElemSha(txhash[i]) == sha && Sights(slots, txhash[i]);
    SpendListed(slots, txhash, inputhash, Spend(output, sha));
  }

  lemma SameSightings(slots: map<Pos, Entry>, txhash: seq<Elem>, txhash': seq<Elem>)
    requires forall x :: x in txhash' <==> x in txhash
    ensures forall sha: Sha :: KnownInFull(slots, txhash', sha) <==> KnownInFull(slots, txhash, sha)
  {
    forall sha: Sha ensures KnownInFull(slots, txhash', sha) <==> KnownInFull(slots, txhash, sha) {
      if KnownInFull(slots, txhash', sha) {
        var i :| 0 <= i < |txhash'| && ElemSha(txhash'[i]) == sha && Sights(slots, txhash'[i]);
        assert txhash'[i] in txhash;
        var k :| 0 <= k < |txhash| && txhash[k] == txhash'[i];
      }
      if KnownInFull(slots, txhash, sha) {
        var i :| 0 <= i < |txhash| && ElemSha(txhash[i]) == sha && Sights(slots, txhash[i]);
        assert txhash[i] in txhash';
        var k :| 0 <= k < |txhash'| && txhash'[k] == txhash[i];
      }
    }
  }

  /** The input index is a function of what is known in full. */
  lemma SameInputs(slots: map<Pos, Entry>, txhash: seq<Elem>, inputhash: seq<Spend>, txhash': seq<Elem>, inputhash': seq<Spend>)
    requires InputsIndexed(slots, txhash, inputhash) && InputsIndexed(slots, txhash', inputhash')
    requires forall sha: Sha :: KnownInFull(slots, txhash', sha) <==> KnownInFull(slots, txhash, sha)
    ensures forall s :: Times(inputhash', s) == Times(inputhash, s)
  {
  }
}
