/**
 The open-addressing hash table (htable.c): linear probing, tombstones, doubling and
 rehashing in place, on words that hide hash bits inside pointers.
 */
module Htable {
  import opened Wrappers
  import opened BitShift
  import opened Probing
  import opened HtableWords

  const WordBits: nat := 64

  function HomeOf(rehash: Word -> Word, bits: nat): (f: Word -> nat) {
    (p: Word) => Bucket(rehash(p), bits)
  }

  /** The word stored in bucket `i` for a slot. */
  function Code(mask: Word, perfect: Word, bits: nat, rehash: Word -> Word, i: nat, x: Slot<Word>): (e: Word) {
    match x
    case Empty => {}
    case Deleted => DeletedWord
    case Live(p) => Encode(mask, perfect, bits, rehash(p), i == Bucket(rehash(p), bits), p)
  }

  /** `p` agrees with the common bits and shows a bit of its own. */
  ghost predicate Storable(mask: Word, common: Word, p: Word) {
    p * mask == common && Shows(mask, p)
  }

  /** The words of `t` are the codes of the slots `s`. */
  ghost predicate Coded(t: seq<Word>, s: seq<Slot<Word>>, mask: Word, common: Word, perfect: Word, bits: nat, rehash: Word -> Word) {
    && |t| == |s| == Pow2(bits)
    && common <= mask && perfect <= mask
    && (forall i {:trigger t[i]} :: 0 <= i < |t| ==> t[i] == Code(mask, perfect, bits, rehash, i, s[i]))
    && (forall i {:trigger Storable(mask, common, s[i].p)} :: 0 <= i < |s| && s[i].Live? ==> Storable(mask, common, s[i].p))
  }

  /** Looking at one word tells what is in the slot. */
  lemma CodeReads(t: seq<Word>, s: seq<Slot<Word>>, mask: Word, common: Word, perfect: Word, bits: nat, rehash: Word -> Word, i: nat)
    requires Coded(t, s, mask, common, perfect, bits, rehash) && i < |t|
    ensures t[i] == {} <==> s[i] == Empty
    ensures EntryIsValid(t[i]) <==> s[i].Live?
    ensures s[i].Live? ==> RawPtr(mask, common, t[i]) == s[i].p
    ensures s[i].Live? ==> t[i] * perfect == if i == Bucket(rehash(s[i].p), bits) then perfect else {}
    ensures s[i].Live? ==>
              t[i] * mask == HashPtrBits(mask, perfect, bits, rehash(s[i].p)) +
                             (if i == Bucket(rehash(s[i].p), bits) then perfect else {})
  {
    if s[i].Live? {
      var p := s[i].p;
      var home := i == Bucket(rehash(p), bits);
      assert Storable(mask, common, s[i].p);
      EncodeValid(mask, perfect, bits, rehash(p), home, p);
      EncodeRaw(mask, common, perfect, bits, rehash(p), home, p);
      EncodePerfect(mask, perfect, bits, rehash(p), home, p);
      EncodeExtra(mask, perfect, bits, rehash(p), home, p);
    }
  }

  /** A run of live entries that starts at `home` and has come to `i` has not gone all the way round. */
  lemma NotAround(s: seq<Slot<Word>>, home: nat, i: nat)
    requires home < |s| && i < |s| && s[i].Live?
    requires exists k :: 0 <= k < |s| && !s[k].Live?
    requires forall j :: 0 <= j < |s| && Dist(|s|, home, j) < Dist(|s|, home, i) ==> s[j].Live?
    ensures Next(|s|, i) != home
    ensures Dist(|s|, home, Next(|s|, i)) == Dist(|s|, home, i) + 1
    ensures forall j :: 0 <= j < |s| && Dist(|s|, home, j) < Dist(|s|, home, i) + 1 ==> s[j].Live?
  {
    var f :| 0 <= f < |s| && !s[f].Live?;
    assert Dist(|s|, home, f) >= Dist(|s|, home, i) && f != i;
  }

  /** The word with bits 0 .. n - 1 set. */
  function BitsBelow(n: nat): (w: Word) {
    if n == 0 then {} else BitsBelow(n - 1) + {n - 1}
  }

  /** max and max_with_deleted for a table of 1 << bits buckets (htable.c:143-144). */
  ghost predicate Limits(bits: nat, max: nat, maxWithDeleted: nat) {
    if bits == 0 then max == 0 && maxWithDeleted == 0
    else max == 3 * Pow2(bits) / 4 && maxWithDeleted == 9 * Pow2(bits) / 10
  }

  lemma Roomier(bits: nat, max: nat)
    requires bits == 0 ==> max == 0
    requires bits > 0 ==> max == 3 * Pow2(bits) / 4
    ensures max + 1 <= 3 * Pow2(bits + 1) / 4 <= 9 * Pow2(bits + 1) / 10 < Pow2(bits + 1)
  {
  }

  lemma {:induction false} BitsBelowHas(n: nat, i: nat)
    ensures i in BitsBelow(n) <==> i < n
  {
    if n > 0 { BitsBelowHas(n - 1, i); }
  }

  /** common_mask after update_common(p). */
  function NewMask(mask: Word, common: Word, elems: nat, p: Word): (r: Word) {
    if elems == 0 then BitsBelow(WordBits) - {TopBitFrom(p, WordBits - 1)}
    else mask - MaskDiff(mask, common, p)
  }

  /** common_mask after htable_add(p). */
  function NextMask(mask: Word, common: Word, elems: nat, p: Word): (r: Word) {
    if p * mask != common then NewMask(mask, common, elems, p) else mask
  }

  /** One word under the narrower mask. */
  lemma NarrowedCode(t: seq<Word>, s: seq<Slot<Word>>, mask: Word, common: Word, perfect: Word, bits: nat, rehash: Word -> Word, i: nat, p: Word)
    requires Coded(t, s, mask, common, perfect, bits, rehash) && i < |t|
    ensures var d := MaskDiff(mask, common, p);
            && Code(mask - d, perfect - d, bits, rehash, i, s[i]) ==
               (if EntryIsValid(t[i]) then Rewritten(common, d, t[i]) else t[i])
            && (s[i].Live? ==> Storable(mask - d, common - d, s[i].p))
  {
    CodeReads(t, s, mask, common, perfect, bits, rehash, i);
    if s[i].Live? {
      var q := s[i].p;
      assert Storable(mask, common, s[i].p);
      RewrittenEncodes(mask, common, perfect, p, bits, rehash(q), i == Bucket(rehash(q), bits), q);
      NarrowedShows(mask, MaskDiff(mask, common, p), q);
    }
  }

  /** Pointers that share their highest bit are always told apart from empty buckets:
      once that bit is left out of the mask it stays out. */
  lemma SharedTopBitSuits(mask: Word, common: Word, elems: nat, p: Word, top: nat)
    requires 0 < top && TopBitFrom(p, WordBits - 1) == top
    requires top !in mask || (elems == 0 && p * mask != common)
    ensures top !in NextMask(mask, common, elems, p) && Shows(NextMask(mask, common, elems, p), p)
  {
    assert top in p - NextMask(mask, common, elems, p);
  }

  lemma RoomLeft(s: seq<Slot<Word>>, elems: nat, deleted: nat, bits: nat, max: nat, maxWithDeleted: nat)
    requires |s| == Pow2(bits) && Limits(bits, max, maxWithDeleted)
    requires Num(s, AnyLive) == elems && Num(s, AnyDeleted) <= deleted && elems + deleted <= maxWithDeleted
    ensures Num(s, AnyLive) + Num(s, AnyDeleted) < |s|
  {
  }

  /** The lowest set bit from `i` up (htable.c:148-153); WordBits if there is none. */
  function LowBitFrom(w: Word, i: nat): (b: nat)
    requires i <= WordBits
    ensures b in w || b == WordBits
    ensures forall k :: i <= k < b ==> k !in w
    decreases WordBits - i
  {
    if i == WordBits || i in w then i else LowBitFrom(w, i + 1)
  }

  /** No marked slot between `home` and `at` holds `p`. */
  ghost predicate NotMet(s: seq<Slot<Word>>, m: seq<bool>, home: nat, at: nat, p: Word)
    requires |m| == |s| && home < |s| && at < |s|
  {
    forall j :: 0 <= j < |s| && m[j] && Dist(|s|, home, j) < Dist(|s|, home, at) ==> s[j] != Live(p)
  }

  datatype Op = Store(p: Word) | Drop(p: Word)

  /** How many copies of `q` there are after one operation. */
  function Applied(op: Op, q: Word, n: nat): (r: nat) {
    match op
    case Store(p) => if p == q then n + 1 else n
    case Drop(p) => if p == q && n > 0 then n - 1 else n
  }

  function Tally(ops: seq<Op>, q: Word): (r: nat) {
    if ops == [] then 0 else Applied(ops[|ops| - 1], q, Tally(ops[..|ops| - 1], q))
  }

  /** Stores of `q` less drops of `q` from the k-th operation on. */
  ghost function Surplus(ops: seq<Op>, q: Word, k: nat): (r: int) {
    if k >= |ops| then 0
    else
      var last := ops[|ops| - 1];
      Surplus(ops[..|ops| - 1], q, k) + (if last == Store(q) then 1 else if last == Drop(q) then -1 else 0)
  }

  /** A drop counts only if there is something to drop: the tally is the largest surplus from any point on. */
  lemma {:induction false} TallyExactly(ops: seq<Op>, q: Word)
    ensures forall k: nat :: k <= |ops| ==> Surplus(ops, q, k) <= Tally(ops, q)
    ensures exists k: nat :: k <= |ops| && Surplus(ops, q, k) == Tally(ops, q)
  {
    if ops == [] {
      assert Surplus(ops, q, 0) == 0;
    } else {
      var front, n := ops[..|ops| - 1], |ops|;
      TallyExactly(front, q);
      var k: nat :| k <= |front| && Surplus(front, q, k) == Tally(front, q);
      var from: nat := if ops[n - 1] == Drop(q) && Tally(front, q) == 0 then n else k;
      assert Surplus(ops, q, from) == Tally(ops, q);
      forall j: nat | j <= n ensures Surplus(ops, q, j) <= Tally(ops, q) {
        assert j < n ==> Surplus(front, q, j) <= Tally(front, q);
      }
    }
  }

  class Htable {
    const rehash: Word -> Word
    var table: array<Word>
    var bits: nat
    var elems: nat
    var deleted: nat
    var max: nat
    var maxWithDeleted: nat
    var commonMask: Word
    var commonBits: Word
    var perfectBit: Word
    /** What is in each bucket. */
    ghost var slots: seq<Slot<Word>>

    ghost predicate Stored()
      reads this, table
    {
      Coded(table[..], slots, commonMask, commonBits, perfectBit, bits, rehash)
    }

    /** The loop of ht_add, htable.c:121-126: the first bucket without a live entry. */
    method FindFree(h: Word) returns (i: nat, perfect: Word)
      requires Stored()
      requires exists k :: 0 <= k < |slots| && !slots[k].Live?
      ensures FirstFree(slots, Bucket(h, bits), i)
      ensures perfect == if i == Bucket(h, bits) then perfectBit else {}
    {
      ghost var s := slots;
      var n := table.Length;
      var home := Bucket(h, bits);
      i := home;
      perfect := perfectBit;
      while EntryIsValid(table[i])
        invariant i < n
        invariant forall j :: 0 <= j < n && Dist(n, home, j) < Dist(n, home, i) ==> s[j].Live?
        invariant perfect == if i == home then perfectBit else {}
        decreases n - Dist(n, home, i)
      {
        CodeReads(table[..], s, commonMask, commonBits, perfectBit, bits, rehash, i);
        NotAround(s, home, i);
        perfect := {};
        i := Next(n, i);
      }
      CodeReads(table[..], s, commonMask, commonBits, perfectBit, bits, rehash, i);
    }

    /** ht_add, htable.c:116-128. */
    method HtAdd(p: Word, h: Word) returns (ghost q: nat)
      requires Stored() && h == rehash(p) && Storable(commonMask, commonBits, p)
      requires exists i :: 0 <= i < |slots| && !slots[i].Live?
      modifies table, this`slots
      ensures Stored()
      ensures FirstFree(old(slots), Bucket(h, bits), q) && slots == old(slots)[q := Live(p)]
    {
      var i, perfect := FindFree(h);
      table[i] := MakeHval(commonMask, p, HashPtrBits(commonMask, perfectBit, bits, h) + perfect);
      slots := slots[i := Live(p)];
      q := i;
    }
  
    /** The invariant between operations.  `deleted` may count too many: ht_add reuses
        tombstones without saying so. */
    ghost predicate Valid()
      reads this, table
    {
      && Stored()
      && Probed(slots, HomeOf(rehash, bits))
      && elems == Num(slots, AnyLive)
      && Num(slots, AnyDeleted) <= deleted
      && elems <= max && elems + deleted <= maxWithDeleted
      && Limits(bits, max, maxWithDeleted)
    }

    /** htable_init, htable.c:45-53. */
    constructor (rehash: Word -> Word)
      ensures Valid() && fresh(table) && this.rehash == rehash
      ensures slots == [Empty] && elems == 0 && commonMask == BitsBelow(WordBits) && commonBits == {}
    {
      this.rehash := rehash;
      table := new Word[1] [{}];
      bits, elems, deleted, max, maxWithDeleted := 0, 0, 0, 0, 0;
      commonMask, commonBits, perfectBit := BitsBelow(WordBits), {}, {};
      slots := [Empty];
      new;
      NumPositive(slots, AnyLive);
      NumPositive(slots, AnyDeleted);
    }

    // -------------------------------------------------------------- growing

    /** If the perfect bit was lost, double_table gets one back (htable.c:147-154). */
    method RegainPerfectBit()
      requires perfectBit <= commonMask
      modifies this`perfectBit
      ensures perfectBit <= commonMask
      ensures old(perfectBit) != {} ==> perfectBit == old(perfectBit)
    {
      if perfectBit == {} && commonMask != {} {
        var i := LowBitFrom(commonMask, 0);
        if i < WordBits {
          perfectBit := {i};
        }
      }
    }

    /** double_table up to the copying (htable.c:137-144): a bigger, blank table. */
    method NewTable()
      requires commonBits <= commonMask && perfectBit <= commonMask
      requires elems <= max && Limits(bits, max, maxWithDeleted)
      modifies this`table, this`slots, this`bits, this`max, this`maxWithDeleted
      ensures fresh(table) && Stored() && slots == Blank(Pow2(bits)) && bits == old(bits) + 1
      ensures elems + 1 <= max && max <= maxWithDeleted < Pow2(bits) && Limits(bits, max, maxWithDeleted)
    {
      Roomier(bits, max);
      bits := bits + 1;
      table := new Word[Pow2(bits)](_ => {});
      slots := Blank(Pow2(bits));
      max := 3 * Pow2(bits) / 4;
      maxWithDeleted := 9 * Pow2(bits) / 10;
    }

    /** Adding an entry to a table with room keeps it searchable. */
    method ReAdd(p: Word)
      requires Stored() && Storable(commonMask, commonBits, p) && Probed(slots, HomeOf(rehash, bits))
      requires Num(slots, AnyLive) + Num(slots, AnyDeleted) < |slots|
      modifies table, this`slots
      ensures Stored() && Probed(slots, HomeOf(rehash, bits))
      ensures OneMore(old(slots), p, slots) && Num(slots, AnyDeleted) <= Num(old(slots), AnyDeleted)
    {
      FreeExists(slots);
      ghost var q := HtAdd(p, rehash(p));
      PlaceProbed(old(slots), HomeOf(rehash, bits), p, q);
      PlaceCounts(old(slots), q, p);
    }

    /** One turn of the loop of double_table, htable.c:158-161. */
    method CopyEntry(e: Word, ghost s0: seq<Slot<Word>>, ghost i: nat)
      requires i < |s0| && (EntryIsValid(e) <==> s0[i].Live?)
      requires s0[i].Live? ==> RawPtr(commonMask, commonBits, e) == s0[i].p && Storable(commonMask, commonBits, s0[i].p)
      requires Stored() && Probed(slots, HomeOf(rehash, bits)) && Num(s0, AnyLive) < |slots|
      requires SameEntries(s0[..i], slots) && Num(slots, AnyDeleted) == 0
      modifies table, this`slots
      ensures Stored() && Probed(slots, HomeOf(rehash, bits))
      ensures SameEntries(s0[..i + 1], slots) && Num(slots, AnyDeleted) == 0
    {
      NumPrefix(s0, i, AnyLive);
      SnocCounts(s0, i);
      if EntryIsValid(e) {
        ReAdd(RawPtr(commonMask, commonBits, e));
      }
    }

    /** The loop of double_table, htable.c:157-162. */
    method CopyEntries(oldtable: array<Word>, ghost s0: seq<Slot<Word>>, ghost perfect0: Word, ghost bits0: nat)
      requires oldtable != table && Coded(oldtable[..], s0, commonMask, commonBits, perfect0, bits0, rehash)
      requires Stored() && slots == Blank(Pow2(bits)) && Num(s0, AnyLive) < |slots|
      modifies table, this`slots
      ensures Stored() && Probed(slots, HomeOf(rehash, bits))
      ensures SameEntries(s0, slots) && Num(slots, AnyDeleted) == 0
    {
      BlankEntries<Word>(Pow2(bits));
      ghost var words := oldtable[..];
      for i := 0 to oldtable.Length
        invariant oldtable[..] == words && |slots| == Pow2(bits)
        invariant Stored() && Probed(slots, HomeOf(rehash, bits))
        invariant SameEntries(s0[..i], slots) && Num(slots, AnyDeleted) == 0
      {
        CodeReads(words, s0, commonMask, commonBits, perfect0, bits0, rehash, i);
        CopyEntry(oldtable[i], s0, i);
      }
      assert s0[..oldtable.Length] == s0;
    }

    /** double_table, htable.c:130-167. */
    method DoubleTable()
      requires Valid()
      modifies this
      ensures Valid() && fresh(table)
      ensures SameEntries(old(slots), slots)
      ensures elems == old(elems) && elems + 1 <= max && deleted == 0 && bits == old(bits) + 1
      ensures commonMask == old(commonMask) && commonBits == old(commonBits)
    {
      var oldtable := table;
      ghost var s0, perfect0, bits0 := slots, perfectBit, bits;
      RegainPerfectBit();
      NewTable();
      CopyEntries(oldtable, s0, perfect0, bits0);
      deleted := 0;
    }
  
    // -------------------------------------------------------------- rehashing in place

    /** The first empty bucket (htable.c:175). */
    method FirstEmpty() returns (start: nat)
      requires Stored() && HasEmpty(slots)
      ensures start < |slots| && slots[start] == Empty
    {
      ghost var s := slots;
      ghost var e :| 0 <= e < |s| && s[e] == Empty;
      start := 0;
      while table[start] != {}
        invariant start <= e < table.Length
        decreases e - start
      {
        CodeReads(table[..], s, commonMask, commonBits, perfectBit, bits, rehash, start);
        start := start + 1;
      }
      CodeReads(table[..], s, commonMask, commonBits, perfectBit, bits, rehash, start);
    }

    /** table[h] = 0 */
    method ClearBucket(h: nat)
      requires Stored() && h < |slots|
      modifies table, this`slots
      ensures Stored() && slots == old(slots)[h := Empty]
    {
      table[h] := {};
      slots := slots[h := Empty];
    }

    /** The entry in bucket `h` is taken out and added again (htable.c:185-187). */
    method Reinsert(h: nat, ghost start: nat, ghost k: nat)
      requires Stored() && start < |slots| && k < |slots| && Swept(slots, HomeOf(rehash, bits), start, k)
      requires h == Step(|slots|, start, k) && slots[h].Live?
      modifies table, this`slots
      ensures Stored() && |slots| == |old(slots)| && Swept(slots, HomeOf(rehash, bits), start, k + 1)
      ensures SameEntries(old(slots), slots)
    {
      ghost var s := slots;
      CodeReads(table[..], s, commonMask, commonBits, perfectBit, bits, rehash, h);
      var p := RawPtr(commonMask, commonBits, table[h]);
      ClearBucket(h);
      assert !slots[h].Live?;
      ghost var q := HtAdd(p, rehash(p));
      SweepMove(s, HomeOf(rehash, bits), start, k, h, q);
      MoveCounts(s, h, q);
    }

    /** One turn of the loop of rehash_table (htable.c:178-188). */
    method RehashBucket(h: nat, ghost start: nat, ghost k: nat)
      requires Stored() && start < |slots| && k < |slots| && Swept(slots, HomeOf(rehash, bits), start, k)
      requires h == Step(|slots|, start, k)
      modifies table, this`slots
      ensures Stored() && |slots| == |old(slots)| && Swept(slots, HomeOf(rehash, bits), start, k + 1)
      ensures SameEntries(old(slots), slots)
    {
      ghost var home := HomeOf(rehash, bits);
      var e := table[h];
      CodeReads(table[..], slots, commonMask, commonBits, perfectBit, bits, rehash, h);
      if e == {} {
        SweepKeep(slots, home, start, k);
      } else if e == DeletedWord {
        SweepDrop(slots, home, start, k);
        DropCounts(slots, h);
        ClearBucket(h);
      } else if e * perfectBit == {} {
        Reinsert(h, start, k);
      } else {
        SweepKeep(slots, home, start, k);
      }
    }

    /** rehash_table, htable.c:169-191. */
    method RehashTable()
      requires Valid()
      modifies table, this`slots, this`deleted
      ensures Valid() && deleted == 0
      ensures SameEntries(old(slots), slots)
    {
      RoomLeft(slots, elems, deleted, bits, max, maxWithDeleted);
      EmptyExists(slots);
      var start := FirstEmpty();
      SweepFrom(start);
      deleted := 0;
    }

    /** The loop of rehash_table, htable.c:177-189. */
    method SweepFrom(start: nat)
      requires Stored() && Probed(slots, HomeOf(rehash, bits)) && start < |slots| && slots[start] == Empty
      modifies table, this`slots
      ensures Stored() && Probed(slots, HomeOf(rehash, bits))
      ensures SameEntries(old(slots), slots) && Num(slots, AnyDeleted) == 0
    {
      SweepStart(slots, HomeOf(rehash, bits), start);
      var n := table.Length;
      for k := 0 to n
        invariant Stored() && |slots| == n && Swept(slots, HomeOf(rehash, bits), start, k)
        invariant SameEntries(old(slots), slots)
      {
        RehashBucket(Step(n, start, k), start, k);
      }
      SweepEnd(slots, HomeOf(rehash, bits), start);
    }

    // -------------------------------------------------------------- giving stolen bits back

    /** update_common for the first entry (htable.c:199-213). */
    method FirstCommon(p: Word)
      requires Stored() && (forall i :: 0 <= i < |slots| ==> !slots[i].Live?)
      requires TopBitFrom(p, WordBits - 1) > 0
      modifies this`commonMask, this`commonBits, this`perfectBit
      ensures Stored() && p * commonMask == commonBits
      ensures commonMask == BitsBelow(WordBits) - {TopBitFrom(p, WordBits - 1)}
    {
      var i := TopBitFrom(p, WordBits - 1);
      BitsBelowHas(WordBits, 0);
      commonMask := BitsBelow(WordBits) - {i};
      commonBits := p * commonMask;
      perfectBit := {0};
    }

    /** The loop of update_common (htable.c:221-228). */
    method RewriteWords(p: Word, d: Word)
      requires Stored() && d == MaskDiff(commonMask, commonBits, p)
      modifies table
      ensures Coded(table[..], slots, commonMask - d, commonBits - d, perfectBit - d, bits, rehash)
    {
      ghost var s := slots;
      NarrowedFits(commonMask, commonBits, perfectBit, p);
      for i := 0 to table.Length
        invariant forall j :: 0 <= j < i ==> table[j] == Code(commonMask - d, perfectBit - d, bits, rehash, j, s[j])
        invariant forall j :: i <= j < table.Length ==> table[j] == old(table[j])
      {
        NarrowedCode(old(table[..]), s, commonMask, commonBits, perfectBit, bits, rehash, i, p);
        if EntryIsValid(table[i]) {
          table[i] := Rewritten(commonBits, d, table[i]);
        }
      }
      forall i | 0 <= i < |s| && s[i].Live? ensures Storable(commonMask - d, commonBits - d, s[i].p) {
        NarrowedCode(old(table[..]), s, commonMask, commonBits, perfectBit, bits, rehash, i, p);
      }
    }

    /** update_common, htable.c:194-234. */
    method UpdateCommon(p: Word)
      requires Stored() && elems == Num(slots, AnyLive)
      requires elems == 0 ==> TopBitFrom(p, WordBits - 1) > 0
      modifies table, this`commonMask, this`commonBits, this`perfectBit
      ensures Stored() && p * commonMask == commonBits
      ensures commonMask == NewMask(old(commonMask), old(commonBits), elems, p)
    {
      if elems == 0 {
        NumPositive(slots, AnyLive);
        FirstCommon(p);
      } else {
        var d := MaskDiff(commonMask, commonBits, p);
        NarrowedFits(commonMask, commonBits, perfectBit, p);
        RewriteWords(p, d);
        commonMask := commonMask - d;
        commonBits := commonBits - d;
        perfectBit := perfectBit - d;
      }
    }

    // -------------------------------------------------------------- adding

    /** htable_add after the table has been made big enough (htable.c:242-247). */
    method Insert(p: Word, h: Word)
      requires Valid() && h == rehash(p) && Suits(p)
      requires elems + 1 <= max && elems + 1 + deleted <= maxWithDeleted
      modifies this, table
      ensures Valid() && OneMore(old(slots), p, slots)
      ensures elems == old(elems) + 1
      ensures table == old(table) && commonMask == NextMask(old(commonMask), old(commonBits), old(elems), p)
    {
      RoomLeft(slots, elems, deleted, bits, max, maxWithDeleted);
      StoreEntry(p);
      elems := elems + 1;
    }

    /** htable.c:243-246 */
    method StoreEntry(p: Word)
      requires Stored() && Probed(slots, HomeOf(rehash, bits)) && elems == Num(slots, AnyLive) && Suits(p)
      requires Num(slots, AnyLive) + Num(slots, AnyDeleted) < |slots|
      modifies table, this`slots, this`commonMask, this`commonBits, this`perfectBit
      ensures Stored() && Probed(slots, HomeOf(rehash, bits))
      ensures OneMore(old(slots), p, slots) && Num(slots, AnyDeleted) <= Num(old(slots), AnyDeleted)
      ensures commonMask == NextMask(old(commonMask), old(commonBits), elems, p)
    {
      FitCommon(p);
      ReAdd(p);
    }

    /** htable.c:243-244 */
    method FitCommon(p: Word)
      requires Stored() && elems == Num(slots, AnyLive) && Suits(p)
      modifies table, this`commonMask, this`commonBits, this`perfectBit
      ensures Stored() && Storable(commonMask, commonBits, p)
      ensures commonMask == NextMask(old(commonMask), old(commonBits), elems, p)
    {
      if p * commonMask != commonBits {
        UpdateCommon(p);
      }
    }

    /** What a caller owes: `p` can be told from an empty or deleted bucket. */
    predicate Suits(p: Word)
      reads this
    {
      && TopBitFrom(p, WordBits - 1) > 0
      && Shows(NextMask(commonMask, commonBits, elems, p), p)
    }

    /** htable_add, htable.c:236-249; `canAlloc` says whether calloc succeeds. */
    method Add(h: Word, p: Word, canAlloc: bool) returns (ok: bool)
      requires Valid() && h == rehash(p) && Suits(p)
      modifies this, table
      ensures Valid()
      ensures ok <==> canAlloc || old(elems) + 1 <= old(max)
      ensures ok ==> OneMore(old(slots), p, slots) && elems == old(elems) + 1
      ensures !ok ==> slots == old(slots)
      ensures table == old(table) || fresh(table)
      ensures ok ==> commonMask == NextMask(old(commonMask), old(commonBits), old(elems), p)
    {
      if elems + 1 > max {
        if !canAlloc {
          return false;
        }
        DoubleTable();
      }
      MakeRoom();
      Insert(p, h);
      return true;
    }

    /** htable.c:240-241 */
    method MakeRoom()
      requires Valid() && elems + 1 <= max
      modifies table, this`slots, this`deleted
      ensures Valid() && elems + 1 + deleted <= maxWithDeleted
      ensures SameEntries(old(slots), slots)
    {
      if elems + 1 + deleted > maxWithDeleted {
        RehashTable();
      }
    }
  
    // -------------------------------------------------------------- searching

    /** The entry in bucket `i` has the hidden bits that a search for `h` looks for there. */
    ghost predicate Matches(h: Word, i: nat)
      requires i < |slots|
      reads this
    {
      && slots[i].Live?
      && HashPtrBits(commonMask, perfectBit, bits, rehash(slots[i].p)) + (if i == Bucket(rehash(slots[i].p), bits) then perfectBit else {}) ==
         HashPtrBits(commonMask, perfectBit, bits, h) + (if i == Bucket(h, bits) then perfectBit else {})
    }

    /** Buckets from `a` up to, but not including, `b` hold no match, as seen from h's home. */
    ghost predicate NoMatch(h: Word, a: nat, b: nat)
      requires a < |slots| && b < |slots| && Bucket(h, bits) < |slots|
      reads this
    {
      var home := Bucket(h, bits);
      forall j :: 0 <= j < |slots| && Dist(|slots|, home, a) <= Dist(|slots|, home, j) < Dist(|slots|, home, b) ==> !Matches(h, j)
    }

    /** htable_val, htable.c:67-81: from bucket `off` on, the next match before an empty bucket. */
    method HtableVal(off: nat, h: Word, perfect: Word) returns (r: Option<Word>, at: nat)
      requires Stored() && HasEmpty(slots) && off < |slots|
      requires Reach(slots, Bucket(h, bits), off)
      requires perfect == if off == Bucket(h, bits) then perfectBit else {}
      ensures at < |slots| && Reach(slots, Bucket(h, bits), at)
      ensures Dist(|slots|, Bucket(h, bits), off) <= Dist(|slots|, Bucket(h, bits), at) && NoMatch(h, off, at)
      ensures r.None? ==> slots[at] == Empty
      ensures r.Some? ==> slots[at] == Live(r.value) && Matches(h, at)
    {
      ghost var s := slots;
      var n := table.Length;
      ghost var home := Bucket(h, bits);
      at := off;
      var h2 := HashPtrBits(commonMask, perfectBit, bits, h) + perfect;
      while table[at] != {}
        invariant at < n && Reach(s, home, at) && Dist(n, home, off) <= Dist(n, home, at) && NoMatch(h, off, at)
        invariant h2 == HashPtrBits(commonMask, perfectBit, bits, h) + (if at == home then perfectBit else {})
        decreases n - Dist(n, home, at)
      {
        CodeReads(table[..], s, commonMask, commonBits, perfectBit, bits, rehash, at);
        if table[at] != DeletedWord && table[at] * commonMask == h2 {
          return Some(RawPtr(commonMask, commonBits, table[at])), at;
        }
        RunStep(s, home, at);
        assert !Matches(h, at);
        at := Next(n, at);
        h2 := h2 - perfect;
        assert HashPtrBits(commonMask, perfectBit, bits, h) - perfect == HashPtrBits(commonMask, perfectBit, bits, h);
      }
      CodeReads(table[..], s, commonMask, commonBits, perfectBit, bits, rehash, at);
      return None, at;
    }

    ghost function Marks(h: Word): (m: seq<bool>)
      reads this
    {
      seq(|slots|, i requires 0 <= i < |slots| reads this => Matches(h, i))
    }

    /** The walk of htable_firstval and htable_nextval (htable.c:83-95) over the buckets
        that match `h`, as callers write it. */
    method WalkMatches(h: Word) returns (offs: seq<nat>, ghost end: nat)
      requires Stored() && HasEmpty(slots)
      ensures end < |slots| && slots[end] == Empty && Collected(Marks(h), Bucket(h, bits), end, offs)
    {
      ghost var s, m := slots, Marks(h);
      var n := table.Length;
      var home := Bucket(h, bits);
      offs := [];
      var c: Option<Word>, at: nat;
      c, at := HtableVal(home, h, perfectBit);
      while c.Some?
        invariant at < n && Reach(s, home, at)
        invariant c.None? ==> s[at] == Empty
        invariant c.Some? ==> s[at] == Live(c.value) && m[at]
        invariant Collected(m, home, at, offs)
        decreases n - Dist(n, home, at)
      {
        RunStep(s, home, at);
        ghost var met, seen := at, offs;
        offs := offs + [at];
        c, at := HtableVal(Next(n, at), h, {});
        CollectStep(m, home, met, at, seen);
      }
      end := at;
    }

    /** A walk over hash `h` ends, meets no bucket twice, and meets every entry whose hash is `h`. */
    method Lookup(h: Word) returns (offs: seq<nat>)
      requires Valid()
      ensures forall k :: 0 <= k < |offs| ==> offs[k] < |slots| && Matches(h, offs[k])
      ensures forall k, l :: 0 <= k < l < |offs| ==> offs[k] != offs[l]
      ensures forall i :: 0 <= i < |slots| && slots[i].Live? && rehash(slots[i].p) == h ==> i in offs
    {
      ghost var end: nat;
      RoomLeft(slots, elems, deleted, bits, max, maxWithDeleted);
      EmptyExists(slots);
      offs, end := WalkMatches(h);
      forall i | 0 <= i < |slots| && slots[i].Live? && rehash(slots[i].p) == h ensures i in offs {
        BeforeEmpty(slots, HomeOf(rehash, bits), i, end);
        assert Marks(h)[i];
      }
    }

    // -------------------------------------------------------------- deleting

    /** htable_delval, htable.c:265-273. */
    method DelVal(off: nat)
      requires Valid() && off < |slots| && slots[off].Live?
      modifies this, table
      ensures Valid() && slots == old(slots)[off := Deleted]
      ensures table == old(table) && bits == old(bits) && commonMask == old(commonMask) && commonBits == old(commonBits)
      ensures elems == old(elems) - 1
    {
      RemoveCounts(slots, off, Deleted);
      DeleteProbed(slots, HomeOf(rehash, bits), off);
      elems := elems - 1;
      BuryEntry(off);
      deleted := deleted + 1;
    }

    /** table[off] = HTABLE_DELETED */
    method BuryEntry(off: nat)
      requires Stored() && off < |slots|
      modifies table, this`slots
      ensures Stored() && slots == old(slots)[off := Deleted]
    {
      table[off] := DeletedWord;
      slots := slots[off := Deleted];
    }

    /** htable_del, htable.c:251-263: one copy of `p` goes, if there is one. */
    method Del(h: Word, p: Word) returns (found: bool)
      requires Valid() && h == rehash(p)
      modifies this, table
      ensures Valid()
      ensures found <==> Num(old(slots), Copies(p)) > 0
      ensures found ==> OneMore(slots, p, old(slots))
      ensures !found ==> slots == old(slots)
      ensures table == old(table) && commonMask == old(commonMask) && commonBits == old(commonBits)
      ensures elems == if found then old(elems) - 1 else old(elems)
    {
      RoomLeft(slots, elems, deleted, bits, max, maxWithDeleted);
      EmptyExists(slots);
      var at := FindEntry(h, p);
      NumPositive(slots, Copies(p));
      if at.Some? {
        RemoveCounts(slots, at.value, Deleted);
        DelVal(at.value);
        return true;
      }
      return false;
    }

    /** The loop of htable_del: all matches, until `p` itself turns up. */
    method ScanFor(h: Word, p: Word) returns (r: Option<nat>, ghost end: nat)
      requires Stored() && HasEmpty(slots)
      ensures r.Some? ==> r.value < |slots| && slots[r.value] == Live(p)
      ensures r.None? ==> end < |slots| && slots[end] == Empty && NotMet(slots, Marks(h), Bucket(h, bits), end, p)
    {
      ghost var s, m := slots, Marks(h);
      var n := table.Length;
      var home := Bucket(h, bits);
      var c: Option<Word>, at: nat;
      c, at := HtableVal(home, h, perfectBit);
      while c.Some?
        invariant at < n && Reach(s, home, at)
        invariant c.None? ==> s[at] == Empty
        invariant c.Some? ==> s[at] == Live(c.value)
        invariant NotMet(s, m, home, at, p)
        decreases n - Dist(n, home, at)
      {
        if c.value == p {
          return Some(at), at;
        }
        RunStep(s, home, at);
        c, at := HtableVal(Next(n, at), h, {});
      }
      return None, at;
    }

    method FindEntry(h: Word, p: Word) returns (r: Option<nat>)
      requires Stored() && Probed(slots, HomeOf(rehash, bits)) && HasEmpty(slots) && h == rehash(p)
      ensures r.Some? ==> r.value < |slots| && slots[r.value] == Live(p)
      ensures r.None? ==> forall i :: 0 <= i < |slots| ==> slots[i] != Live(p)
    {
      ghost var end: nat;
      r, end := ScanFor(h, p);
      if r.None? {
        forall i | 0 <= i < |slots| ensures slots[i] != Live(p) {
          if slots[i] == Live(p) {
            BeforeEmpty(slots, HomeOf(rehash, bits), i, end);
          }
        }
      }
    }

    // -------------------------------------------------------------- whole runs

    /** The bit all pointers share is visible, or nothing has been stored yet. */
    ghost predicate Revealed(top: nat)
      reads this
    {
      top !in commonMask || (elems == 0 && commonBits == {} && commonMask == BitsBelow(WordBits))
    }

    /** One operation, with the hash the caller computes. */
    method Apply(op: Op, ghost top: nat)
      requires Valid() && (op.Store? ==> Suits(op.p))
      modifies this, table
      ensures Valid() && (table == old(table) || fresh(table))
      ensures forall p :: Num(slots, Copies(p)) == Applied(op, p, Num(old(slots), Copies(p)))
      ensures old(Revealed(top)) && Shares(op, top) ==> Revealed(top)
    {
      match op {
        case Store(p) =>
          if Revealed(top) && Shares(op, top) {
            RevealedSuits(p, top);
          }
          var ok := Add(rehash(p), p, true);
        case Drop(p) =>
          var found := Del(rehash(p), p);
      }
    }

    /** With pointers that share their highest bit, every one suits. */
    lemma RevealedSuits(p: Word, top: nat)
      requires Revealed(top) && Shares(Store(p), top)
      ensures Suits(p) && top !in NextMask(commonMask, commonBits, elems, p)
    {
      BitsBelowHas(WordBits, top);
      assert top in p * BitsBelow(WordBits);
      SharedTopBitSuits(commonMask, commonBits, elems, p, top);
    }

    /** A run of additions and deletions, up to the first pointer that would be taken for an empty or
        deleted bucket: the table holds exactly the multiset that the run describes.  Pointers that
        share their highest bit all get in. */
    method RunOps(ops: seq<Op>, ghost top: nat) returns (done: nat)
      requires Valid() && slots == [Empty] && Revealed(top)
      modifies this, table
      ensures Valid() && done <= |ops|
      ensures forall p :: Num(slots, Copies(p)) == Tally(ops[..done], p)
      ensures done < |ops| ==> ops[done].Store? && !Suits(ops[done].p)
      ensures (forall i :: 0 <= i < |ops| ==> Shares(ops[i], top)) ==> done == |ops|
    {
      forall p ensures Num(slots, Copies(p)) == 0 {
        NumPositive(slots, Copies(p));
      }
      done := 0;
      while done < |ops| && (ops[done].Drop? || Suits(ops[done].p))
        invariant Valid() && done <= |ops| && (table == old(table) || fresh(table))
        invariant forall p :: Num(slots, Copies(p)) == Tally(ops[..done], p)
        invariant (forall i :: 0 <= i < |ops| ==> Shares(ops[i], top)) ==> Revealed(top)
        decreases |ops| - done
      {
        Apply(ops[done], top);
        assert ops[..done + 1][..done] == ops[..done];
        done := done + 1;
      }
      if done < |ops| && Revealed(top) && Shares(ops[done], top) {
        RevealedSuits(ops[done].p, top);
      }
    }
  }

  /** What is stored has `top` as its highest bit. */
  predicate Shares(op: Op, top: nat) {
    op.Store? ==> 0 < top < WordBits && TopBitFrom(op.p, WordBits - 1) == top
  }
}
