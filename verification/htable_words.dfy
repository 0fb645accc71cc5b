/**
 How a hash table slot is packed into one machine word (htable.c:9-43): the pointer bits
 that differ between entries stay, and the bits all pointers share make room for a few
 bits of the hash and for a mark that says the entry sits in its home bucket.

 A word is the set of its 1-bits, so `a & b` is `a * b`, `a & ~b` is `a - b` and `a | b`
 is `a + b`.
 */
module HtableWords {
  import opened BitShift

  type Word = set<nat>

  const DeletedWord: Word := {0}

  /** e > HTABLE_DELETED */
  predicate EntryIsValid(e: Word) {
    e != {} && e != DeletedWord
  }

  function Xor(a: Word, b: Word): (r: Word) {
    (a - b) + (b - a)
  }

  function ShiftRight(h: Word, n: nat): (r: Word) {
    set i: nat | i in h && n <= i :: i - n
  }

  /** hash_bucket: the number in the low `bits` bits. */
  function Bucket(h: Word, bits: nat): (r: nat)
    ensures r < Pow2(bits)
  {
    if bits == 0 then 0
    else Bucket(h, bits - 1) + (if bits - 1 in h then Pow2(bits - 1) else 0)
  }

  /** The number a word stands for, from its low `n` bits. */
  ghost function Number(h: Word, n: nat): (r: nat) {
    if n == 0 then 0 else Number(h, n - 1) + (if n - 1 in h then Pow2(n - 1) else 0)
  }

  /** hash_bucket is the hash modulo the size of the table. */
  lemma {:induction false} BucketExactly(h: Word, bits: nat, n: nat) returns (q: nat)
    requires bits <= n
    ensures Number(h, n) == q * Pow2(bits) + Bucket(h, bits)
    decreases n
  {
    if n == bits {
      BucketNumber(h, bits);
      q := 0;
    } else {
      q := BucketExactly(h, bits, n - 1);
      Pow2Split(bits, n - 1 - bits);
      if n - 1 in h {
        var p := Pow2(n - 1 - bits);
        assert (q + p) * Pow2(bits) == q * Pow2(bits) + p * Pow2(bits);
        q := q + p;
      }
    }
  }

  lemma {:induction false} BucketNumber(h: Word, bits: nat)
    ensures Bucket(h, bits) == Number(h, bits)
  {
    if bits > 0 {
      BucketNumber(h, bits - 1);
    }
  }

  lemma {:induction false} Pow2Split(j: nat, k: nat)
    ensures Pow2(j + k) == Pow2(k) * Pow2(j)
  {
    if k > 0 {
      Pow2Split(j, k - 1);
      assert Pow2(j + k) == 2 * (Pow2(k - 1) * Pow2(j)) == (2 * Pow2(k - 1)) * Pow2(j);
    }
  }

  function RawPtr(mask: Word, common: Word, e: Word): (p: Word) {
    (e - mask) + common
  }

  function MakeHval(mask: Word, p: Word, b: Word): (e: Word) {
    (p - mask) + b
  }

  /** get_hash_ptr_bits */
  function HashPtrBits(mask: Word, perfect: Word, bits: nat, h: Word): (b: Word) {
    Xor(h, ShiftRight(h, bits)) * mask - perfect
  }

  /** Bit x of what is hidden is bit x of the hash, flipped where bit x + bits is set; bits outside the
      mask and the perfect bit are left alone. */
  lemma HashPtrBitsExactly(mask: Word, perfect: Word, bits: nat, h: Word, x: nat)
    ensures x in HashPtrBits(mask, perfect, bits, h) <==> x in mask && x !in perfect && ((x in h) != (x + bits in h))
  {
    if x + bits in h {
      assert x + bits - bits in ShiftRight(h, bits);
    }
    if x in ShiftRight(h, bits) {
      var i: nat :| i in h && bits <= i && i - bits == x;
      assert i == x + bits;
    }
  }

  /** The word ht_add stores (htable.c:127). */
  function Encode(mask: Word, perfect: Word, bits: nat, h: Word, atHome: bool, p: Word): (e: Word) {
    MakeHval(mask, p, HashPtrBits(mask, perfect, bits, h) + (if atHome then perfect else {}))
  }

  lemma EncodeRaw(mask: Word, common: Word, perfect: Word, bits: nat, h: Word, atHome: bool, p: Word)
    requires perfect <= mask && p * mask == common
    ensures RawPtr(mask, common, Encode(mask, perfect, bits, h, atHome, p)) == p
  {
    forall x: nat ensures x in RawPtr(mask, common, Encode(mask, perfect, bits, h, atHome, p)) <==> x in p {
      assert x in common <==> x in p * mask;
    }
  }

  /** get_extra_ptr_bits gives back the hash bits and the mark. */
  lemma EncodeExtra(mask: Word, perfect: Word, bits: nat, h: Word, atHome: bool, p: Word)
    requires perfect <= mask
    ensures Encode(mask, perfect, bits, h, atHome, p) * mask == HashPtrBits(mask, perfect, bits, h) + (if atHome then perfect else {})
  {
  }

  lemma EncodePerfect(mask: Word, perfect: Word, bits: nat, h: Word, atHome: bool, p: Word)
    requires perfect <= mask
    ensures Encode(mask, perfect, bits, h, atHome, p) * perfect == if atHome then perfect else {}
  {
  }

  /** The pointer shows a bit other than bit 0. */
  predicate Shows(mask: Word, p: Word) {
    EntryIsValid(p - mask)
  }

  lemma EncodeValid(mask: Word, perfect: Word, bits: nat, h: Word, atHome: bool, p: Word)
    requires Shows(mask, p)
    ensures EntryIsValid(Encode(mask, perfect, bits, h, atHome, p))
  {
    var x: nat :| x in p - mask && x != 0;
    assert x in Encode(mask, perfect, bits, h, atHome, p);
  }

  /** An entry is never mistaken for an empty or deleted slot, whatever its hash, exactly
      when the pointer shows a bit other than bit 0. */
  lemma EncodeValidExactly(mask: Word, perfect: Word, bits: nat, p: Word)
    ensures (forall h, atHome :: EntryIsValid(Encode(mask, perfect, bits, h, atHome, p))) <==> Shows(mask, p)
  {
    if Shows(mask, p) {
      forall h, atHome ensures EntryIsValid(Encode(mask, perfect, bits, h, atHome, p)) {
        EncodeValid(mask, perfect, bits, h, atHome, p);
      }
    } else {
      assert Encode(mask, perfect, bits, {}, false, p) == p - mask;
    }
  }

  /** The bits update_common gives back (htable.c:216). */
  function MaskDiff(mask: Word, common: Word, p: Word): (d: Word) {
    Xor(common, p * mask)
  }

  /** Rewriting one word (htable.c:226-227). */
  function Rewritten(common: Word, d: Word, e: Word): (r: Word) {
    (e - d) + (common * d)
  }

  lemma NarrowedFits(mask: Word, common: Word, perfect: Word, p: Word)
    requires common <= mask && perfect <= mask
    ensures var d := MaskDiff(mask, common, p);
            common - d <= mask - d && perfect - d <= mask - d && p * (mask - d) == common - d
  {
  }

  /** Rewriting a stored word gives the word the narrower mask would have stored. */
  lemma RewrittenEncodes(mask: Word, common: Word, perfect: Word, p: Word, bits: nat, h: Word, atHome: bool, q: Word)
    requires common <= mask && perfect <= mask && q * mask == common
    ensures var d := MaskDiff(mask, common, p);
            && Rewritten(common, d, Encode(mask, perfect, bits, h, atHome, q)) ==
               Encode(mask - d, perfect - d, bits, h, atHome, q)
            && q * (mask - d) == common - d
  {
    var d := MaskDiff(mask, common, p);
    forall x: nat
      ensures x in Rewritten(common, d, Encode(mask, perfect, bits, h, atHome, q)) <==>
              x in Encode(mask - d, perfect - d, bits, h, atHome, q)
    {
      assert x in common <==> x in q * mask;
    }
  }

  lemma NarrowedShows(mask: Word, d: Word, q: Word)
    requires Shows(mask, q)
    ensures Shows(mask - d, q)
  {
    var x: nat :| x in q - mask && x != 0;
    assert x in q - (mask - d);
  }

  /** The highest set bit, scanning down from bit `i` and stopping at bit 0 (htable.c:204-207). */
  function TopBitFrom(p: Word, i: nat): (b: nat)
    ensures b <= i && (b in p || b == 0) && forall k :: b < k <= i ==> k !in p
  {
    if i == 0 || i in p then i else TopBitFrom(p, i - 1)
  }
}
