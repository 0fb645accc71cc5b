/**
 Compact targets, the proof-of-work test and retargeting (difficulty.c, difficulty.h).
 A difficulty is a 32-bit number: an exponent in bytes above a 24-bit mantissa.
 */
module Difficulty {
  import Asort

  const MantissaRange: nat := 0x100_0000

  function Pow256(k: nat): (r: nat)
    ensures r > 0
  {
    if k == 0 then 1 else 256 * Pow256(k - 1)
  }

  lemma {:induction false} Pow256Add(j: nat, k: nat)
    ensures Pow256(j + k) == Pow256(j) * Pow256(k)
  {
    if j > 0 {
      Pow256Add(j - 1, k);
      assert Pow256(j + k) == 256 * (Pow256(j - 1) * Pow256(k)) == 256 * Pow256(j - 1) * Pow256(k);
    }
  }

  lemma Pow256Three(k: nat)
    ensures Pow256(k + 3) == MantissaRange * Pow256(k)
  {
    assert Pow256(k + 3) == 256 * Pow256(k + 2) && Pow256(k + 2) == 256 * Pow256(k + 1);
  }

  lemma {:induction false} Pow256Monotone(j: nat, k: nat)
    requires j <= k
    ensures Pow256(j) <= Pow256(k)
  {
    if j < k {
      Pow256Monotone(j, k - 1);
    }
  }

  function Exp(d: nat): (e: nat) { d / MantissaRange }

  function Mantissa(d: nat): (m: nat)
    ensures m < MantissaRange
  {
    d % MantissaRange
  }

  /** (exp << 24) | mantissa */
  function Compact(exp: nat, mantissa: nat): (d: nat)
    requires mantissa < MantissaRange
    ensures Exp(d) == exp && Mantissa(d) == mantissa
  {
    exp * MantissaRange + mantissa
  }

  /** decode_difficulty, difficulty.c:21-28: a hash must be below this. */
  function Target(d: nat): (t: nat)
    requires Exp(d) >= 3
  {
    Mantissa(d) * Pow256(Exp(d) - 3)
  }

  /** The top byte of the mantissa is in use. */
  predicate Normal(d: nat) {
    Exp(d) >= 3 && Mantissa(d) >= 0x1_0000
  }

  lemma TimesLess(x: nat, y: nat, m: nat)
    requires x < y
    ensures x * m + m <= y * m
  {
    var d := y - x - 1;
    assert y * m == (x + 1 + d) * m == x * m + m + d * m;
    assert d * m >= 0;
  }

  lemma TimesOrder(x: nat, y: nat, m: nat)
    requires m > 0
    ensures x <= y <==> x * m <= y * m
    ensures x < y <==> x * m < y * m
    ensures x < y <==> x * m + m <= y * m
  {
    if x < y {
      TimesLess(x, y, m);
    } else if y < x {
      TimesLess(y, x, m);
    }
  }

  /** Comparing exponents, then mantissas, compares targets: get_difficulty relies on it at difficulty.c:144. */
  lemma NormalOrder(d: nat, e: nat)
    requires Normal(d) && Normal(e)
    ensures Target(d) <= Target(e) <==>
      Exp(d) < Exp(e) || (Exp(d) == Exp(e) && Mantissa(d) <= Mantissa(e))
  {
    if Exp(d) == Exp(e) {
      TimesOrder(Mantissa(d), Mantissa(e), Pow256(Exp(d) - 3));
    } else if Exp(d) < Exp(e) {
      SmallerExp(d, e);
    } else {
      SmallerExp(e, d);
    }
  }

  lemma SmallerExp(d: nat, e: nat)
    requires Normal(d) && Normal(e) && Exp(d) < Exp(e)
    ensures Target(d) < Target(e)
  {
    var u, v := Pow256(Exp(d) - 3), Pow256(Exp(e) - 3);
    TimesOrder(Mantissa(d), MantissaRange, u);
    Pow256Three(Exp(d) - 3);
    Pow256Monotone(Exp(d) - 2, Exp(e) - 3);
    assert 256 * u <= v;
    TimesOrder(0x1_0000, Mantissa(e), v);
  }

  // ---- beats_target ----

  newtype byte = x: int | 0 <= x < 256

  /** The number a hash stands for, least significant byte first. */
  function LittleEndian(s: seq<byte>): (r: nat) {
    if s == [] then 0 else s[0] as nat + 256 * LittleEndian(s[1..])
  }

  lemma {:induction false} LittleEndianBound(s: seq<byte>)
    ensures LittleEndian(s) < Pow256(|s|)
  {
    if s != [] {
      LittleEndianBound(s[1..]);
    }
  }

  lemma Times256(x: nat, y: nat)
    ensures 256 * (x * y) == (256 * x) * y
  {
  }

  lemma {:induction false} LittleEndianSplit(s: seq<byte>, k: nat)
    requires k <= |s|
    ensures LittleEndian(s) == LittleEndian(s[..k]) + Pow256(k) * LittleEndian(s[k..])
  {
    if k == 0 {
      assert s[0..] == s;
    } else {
      LittleEndianSplit(s[1..], k - 1);
      assert s[1..][..k - 1] == s[..k][1..] && s[1..][k - 1..] == s[k..];
      Times256(Pow256(k - 1), LittleEndian(s[k..]));
    }
  }

  lemma {:induction false} LittleEndianZero(s: seq<byte>)
    ensures LittleEndian(s) == 0 <==> forall k :: 0 <= k < |s| ==> s[k] == 0
  {
    if s != [] {
      LittleEndianZero(s[1..]);
      assert forall k :: 1 <= k < |s| ==> s[k] == s[1..][k - 1];
    }
  }

  /** A number whose part above k + 3 bytes is not zero exceeds any mantissa times 256^k. */
  lemma HighWins(low: nat, high: nat, m: nat, k: nat)
    requires m < MantissaRange && high > 0
    ensures low + Pow256(k + 3) * high >= m * Pow256(k)
  {
    Pow256Three(k);
    TimesOrder(1, high, Pow256(k + 3));
    TimesOrder(m, MantissaRange, Pow256(k));
  }

  lemma LowDecides(low: nat, base: nat, m: nat, u: nat)
    requires low < u
    ensures low + u * base < m * u <==> base < m
  {
    TimesOrder(base, m, u);
    assert u * base == base * u;
  }

  /** A non-zero byte from exp on puts the hash out of reach. */
  lemma HighByteLoses(sha: seq<byte>, e: nat, m: nat)
    requires 3 <= e <= |sha| && m < MantissaRange && LittleEndian(sha[e..]) > 0
    ensures LittleEndian(sha) >= m * Pow256(e - 3)
  {
    LittleEndianSplit(sha, e);
    var k: nat := e - 3;
    HighWins(LittleEndian(sha[..e]), LittleEndian(sha[e..]), m, k);
  }

  /** The three bytes below exp. */
  function Base(sha: seq<byte>, e: nat): (r: nat)
    requires 3 <= e <= |sha|
  {
    sha[e - 1] as nat * 0x1_0000 + sha[e - 2] as nat * 0x100 + sha[e - 3] as nat
  }

  lemma BaseIsThreeBytes(sha: seq<byte>, e: nat)
    requires 3 <= e <= |sha| && LittleEndian(sha[e..]) == 0
    ensures LittleEndian(sha[e - 3..]) == Base(sha, e)
  {
    var s := sha[e - 3..];
    assert s[1..][1..][1..] == sha[e..];
    assert s[0] == sha[e - 3] && s[1..][0] == sha[e - 2] && s[1..][1..][0] == sha[e - 1];
    var b, c := LittleEndian(s[1..]), LittleEndian(s[1..][1..]);
    assert c == sha[e - 1] as nat;
    assert b == sha[e - 2] as nat + 256 * c;
  }

  /** Otherwise those three decide. */
  lemma ThreeBytesDecide(sha: seq<byte>, d: nat)
    requires 3 <= Exp(d) <= |sha| && LittleEndian(sha[Exp(d)..]) == 0
    ensures LittleEndian(sha) < Target(d) <==> Base(sha, Exp(d)) < Mantissa(d)
  {
    var e := Exp(d);
    LittleEndianSplit(sha, e - 3);
    BaseIsThreeBytes(sha, e);
    LittleEndianBound(sha[..e - 3]);
    LowDecides(LittleEndian(sha[..e - 3]), Base(sha, e), Mantissa(d), Pow256(e - 3));
  }

  /** beats_target, difficulty.h:24-44. */
  method BeatsTarget(sha: seq<byte>, d: nat) returns (r: bool)
    requires |sha| == 32 && 3 <= Exp(d) <= 32
    ensures r <==> LittleEndian(sha) < Target(d)
  {
    var e := Exp(d);
    var i := e;
    LittleEndianZero(sha[e..]);
    while i < 32
      invariant e <= i <= 32
      invariant forall k :: e <= k < i ==> sha[k] == 0
    {
      if sha[i] != 0 {
        assert sha[e..][i - e] != 0;
        HighByteLoses(sha, e, Mantissa(d));
        return false;
      }
      i := i + 1;
    }
    ThreeBytesDecide(sha, d);
    return Base(sha, e) < Mantissa(d);
  }

  // ---- encode_difficulty ----

  /** BN_num_bytes */
  function NumBytes(n: nat): (k: nat) {
    if n == 0 then 0 else 1 + NumBytes(n / 256)
  }

  lemma {:induction false} NumBytesExactly(n: nat)
    ensures n < Pow256(NumBytes(n))
    ensures n > 0 ==> NumBytes(n) > 0 && Pow256(NumBytes(n) - 1) <= n
  {
    if n > 0 {
      NumBytesExactly(n / 256);
    }
  }

  lemma {:induction false} NumBytesMonotone(m: nat, n: nat)
    requires m <= n
    ensures NumBytes(m) <= NumBytes(n)
  {
    if m > 0 {
      NumBytesMonotone(m / 256, n / 256);
    }
  }

  /** BN_rshift by k bytes. */
  function DropBytes(n: nat, k: nat): (r: nat) {
    if k == 0 then n else DropBytes(n / 256, k - 1)
  }

  lemma {:induction false} DropBytesExactly(n: nat, k: nat)
    ensures DropBytes(n, k) * Pow256(k) <= n < DropBytes(n, k) * Pow256(k) + Pow256(k)
  {
    if k > 0 {
      DropBytesExactly(n / 256, k - 1);
      Times256(Pow256(k - 1), DropBytes(n, k));
    }
  }

  datatype Encoded = Code(exp: nat, mantissa: nat) | TooSmall | AssertFails

  /** difficulty.c:51-73; AssertFails is the assertion at line 69. */
  function Encode(target: nat): (r: Encoded) {
    var exp := NumBytes(target);
    if exp <= 3 then TooSmall
    else
      var mantissa := DropBytes(target, exp - 3);
      if mantissa < 0xFF_FFFF then Code(exp, mantissa) else AssertFails
  }

  /** The top three bytes of a number. */
  lemma TopBytes(target: nat)
    requires NumBytes(target) >= 3
    ensures var k := NumBytes(target) - 3;
      && 0x1_0000 <= DropBytes(target, k) < MantissaRange
      && DropBytes(target, k) * Pow256(k) <= target < DropBytes(target, k) * Pow256(k) + Pow256(k)
  {
    var k := NumBytes(target) - 3;
    var u, m := Pow256(k), DropBytes(target, k);
    NumBytesExactly(target);
    DropBytesExactly(target, k);
    Pow256Three(k);
    TimesOrder(m, MantissaRange, u);
    assert Pow256(k + 2) == 256 * Pow256(k + 1) == 256 * (256 * u);
    TimesOrder(m, 0x1_0000, u);
  }

  /** Encoding rounds down by less than one unit of the mantissa, and always to a normal form. */
  lemma EncodeRounds(target: nat)
    requires Encode(target).Code?
    ensures var c := Encode(target);
      && 3 < c.exp && 0x1_0000 <= c.mantissa < MantissaRange
      && var d := Compact(c.exp, c.mantissa);
         Normal(d) && Target(d) <= target < Target(d) + Pow256(c.exp - 3)
  {
    TopBytes(target);
  }

  /** When it fails: for numbers of at most three bytes, and when the first three bytes are all ones. */
  lemma EncodeExactly(target: nat)
    ensures Encode(target).TooSmall? <==> target < MantissaRange
    ensures Encode(target).AssertFails? <==> exists k: nat :: 0 < k && InTopRange(target, k)
  {
    NumBytesExactly(target);
    assert Pow256(3) == MantissaRange by { Pow256Three(0); }
    var e := NumBytes(target);
    if e <= 3 {
      Pow256Monotone(e, 3);
    } else {
      Pow256Monotone(3, e - 1);
    }
    if e > 3 {
      TopBytes(target);
      Pow256Three(e - 3);
      var u := Pow256(e - 3);
      TimesOrder(DropBytes(target, e - 3), 0xFF_FFFF, u);
      assert Encode(target).AssertFails? <==> InTopRange(target, e - 3);
    }
    forall k: nat | 0 < k && InTopRange(target, k) ensures e == k + 3 {
      TopRangeBytes(target, k);
    }
  }

  /** The first three of k + 3 bytes are 0xFF. */
  ghost predicate InTopRange(target: nat, k: nat) {
    0xFF_FFFF * Pow256(k) <= target < Pow256(k + 3)
  }

  lemma TopRangeBytes(target: nat, k: nat)
    requires InTopRange(target, k)
    ensures NumBytes(target) == k + 3
  {
    var e := NumBytes(target);
    NumBytesExactly(target);
    assert Pow256(k + 2) == 256 * Pow256(k + 1) == 256 * (256 * Pow256(k));
    TimesOrder(0x1_0000, 0xFF_FFFF, Pow256(k));
    if e < k + 3 {
      Pow256Monotone(e, k + 2);
    } else if e > k + 3 {
      Pow256Monotone(k + 3, e - 1);
    }
  }

  /** Decoding and encoding again changes nothing. */
  lemma DecodeEncode(d: nat)
    requires Normal(d) && Exp(d) > 3 && Mantissa(d) < 0xFF_FFFF
    ensures Encode(Target(d)) == Code(Exp(d), Mantissa(d))
  {
    var e, m := Exp(d), Mantissa(d);
    var u := Pow256(e - 3);
    NumBytesExactly(m * u);
    Pow256Three(e - 3);
    TimesOrder(m, MantissaRange, u);
    assert Pow256(e - 1) == 256 * Pow256(e - 2) == 256 * (256 * u);
    TimesOrder(0x1_0000, m, u);
    var k := NumBytes(m * u);
    if k < e {
      Pow256Monotone(k, e - 1);
    } else if k > e {
      Pow256Monotone(e, k - 1);
    }
    var q := DropBytes(m * u, e - 3);
    DropBytesExactly(m * u, e - 3);
    TimesOrder(q, m, u);
    TimesOrder(m, q, u);
  }

  // ---- retargeting ----

  const UpdateBlocks: nat := 2016

  /** What a signed 64-bit number becomes when compared with an unsigned one. */
  function AsU64(x: int): (r: int) {
    if x < 0 then x + 0x1_0000_0000_0000_0000 else x
  }

  /** ideal_time: positive, a multiple of 4, far below 2^62; 20160 and 1209600 in the source. */
  predicate IdealTime(ideal: nat) {
    0 < ideal < 0x4000_0000_0000_0000 / 4 && ideal % 4 == 0
  }

  /** The difference of two 32-bit timestamps. */
  predicate TimeSpan(actual: int) {
    -0x1_0000_0000 < actual < 0x1_0000_0000
  }

  /** difficulty.c:117-121.  actual_time is signed, ideal_time is not. */
  function Clamp(actual: int, ideal: nat): (r: nat)
    requires IdealTime(ideal) && TimeSpan(actual)
    ensures ideal <= 4 * r && r <= 4 * ideal
  {
    var a := if AsU64(actual) < ideal / 4 then ideal / 4 else actual;
    if AsU64(a) > ideal * 4 then ideal * 4 else a
  }

  function Median(x: int, lo: int, hi: int): (r: int) {
    if x < lo then lo else if x > hi then hi else x
  }

  /** The clamp is the one its comment promises exactly when time does not run backwards. */
  lemma ClampExactly(actual: int, ideal: nat)
    requires IdealTime(ideal) && TimeSpan(actual)
    ensures Clamp(actual, ideal) == Median(actual, ideal / 4, ideal * 4) <==> actual >= 0
    ensures actual < 0 ==> Clamp(actual, ideal) == 4 * ideal
  {
  }

  /** BN_mul_word, then BN_div_word. */
  function Scale(target: nat, time: nat, ideal: nat): (r: nat)
    requires ideal > 0
  {
    target * time / ideal
  }

  /** difficulty.c:124-149: the target is scaled by the time taken, rounded, and capped by the genesis block. */
  function Retarget(genesis: nat, prev: nat, actual: int, ideal: nat): (r: Encoded)
    requires IdealTime(ideal) && TimeSpan(actual) && Exp(prev) >= 3
  {
    match Encode(Scale(Target(prev), Clamp(actual, ideal), ideal))
    case Code(exp, mantissa) =>
      if exp > Exp(genesis) || (exp == Exp(genesis) && mantissa > Mantissa(genesis))
      then Code(Exp(genesis), Mantissa(genesis)) else Code(exp, mantissa)
    case e => e
  }

  lemma ScaleBounds(t: nat, a: nat, ideal: nat)
    requires ideal > 0
    ensures Scale(t, a, ideal) * ideal <= t * a < Scale(t, a, ideal) * ideal + ideal
  {
    var n := t * a;
    assert n == n / ideal * ideal + n % ideal;
  }

  lemma AtMostFour(s: nat, t: nat, a: nat, ideal: nat)
    requires 0 < ideal && a <= 4 * ideal && s * ideal <= t * a
    ensures s <= 4 * t
  {
    TimesAtMost(a, 4 * ideal, t);
    assert t * (4 * ideal) == (4 * t) * ideal;
    TimesOrder(s, 4 * t, ideal);
  }

  lemma AtLeastQuarter(s: nat, t: nat, a: nat, ideal: nat)
    requires 0 < ideal <= 4 * a && t * a < s * ideal + ideal
    ensures t < 4 * (s + 1)
  {
    TimesAtMost(ideal, 4 * a, t);
    assert t * (4 * a) == 4 * (t * a);
    assert 4 * (s * ideal + ideal) == (4 * (s + 1)) * ideal;
    TimesOrder(t, 4 * (s + 1), ideal);
  }

  lemma ScaleWithinFour(t: nat, a: nat, ideal: nat)
    requires 0 < ideal <= 4 * a && a <= 4 * ideal
    ensures Scale(t, a, ideal) <= 4 * t && t < 4 * (Scale(t, a, ideal) + 1)
  {
    ScaleBounds(t, a, ideal);
    AtMostFour(Scale(t, a, ideal), t, a, ideal);
    AtLeastQuarter(Scale(t, a, ideal), t, a, ideal);
  }

  lemma TimesAtMost(x: nat, y: nat, t: nat)
    requires x <= y
    ensures t * x <= t * y
  {
    assert t * y == t * x + t * (y - x);
    assert t * (y - x) >= 0;
  }

  /** At or below the genesis target, and within a factor of four of prev, up to one unit of the mantissa. */
  ghost predicate Near(genesis: nat, prev: nat, d: nat)
    requires Exp(genesis) >= 3 && Exp(prev) >= 3
  {
    && Normal(d)
    && Target(d) <= Target(genesis)
    && Target(d) <= 4 * Target(prev)
    && Target(prev) < 4 * (Target(d) + Pow256(Exp(d) - 3))
  }

  /** Each retarget stays at or below the genesis target, and within a factor of four up to rounding. */
  lemma RetargetBounds(genesis: nat, prev: nat, actual: int, ideal: nat)
    requires IdealTime(ideal) && TimeSpan(actual)
    requires Normal(genesis) && Normal(prev) && Target(prev) <= Target(genesis)
    requires Retarget(genesis, prev, actual, ideal).Code?
    ensures var c := Retarget(genesis, prev, actual, ideal);
      c.exp <= Exp(genesis) && c.mantissa < MantissaRange && Near(genesis, prev, Compact(c.exp, c.mantissa))
  {
    var time := Clamp(actual, ideal);
    var scaled := Scale(Target(prev), time, ideal);
    ScaleWithinFour(Target(prev), time, ideal);
    EncodeRounds(scaled);
    var e := Encode(scaled);
    NormalOrder(Compact(e.exp, e.mantissa), genesis);
    var c := Retarget(genesis, prev, actual, ideal);
    assert Target(Compact(Exp(genesis), Mantissa(genesis))) == Target(genesis);
  }

  /** The target times the clamped time over the ideal, rounded down to a mantissa, but not above the
      genesis target. */
  lemma RetargetExactly(genesis: nat, prev: nat, actual: int, ideal: nat)
    requires IdealTime(ideal) && TimeSpan(actual) && Normal(genesis) && Exp(prev) >= 3
    requires Retarget(genesis, prev, actual, ideal).Code?
    ensures var c, scaled := Retarget(genesis, prev, actual, ideal), Target(prev) * Clamp(actual, ideal);
      && c.exp >= 3 && c.mantissa < MantissaRange
      && var t, unit := Target(Compact(c.exp, c.mantissa)), Pow256(c.exp - 3);
         || (t <= Target(genesis) && t * ideal <= scaled < (t + unit) * ideal)
         || (c == Code(Exp(genesis), Mantissa(genesis)) && Target(genesis) * ideal <= scaled)
  {
    var time := Clamp(actual, ideal);
    var s := Scale(Target(prev), time, ideal);
    ScaleBounds(Target(prev), time, ideal);
    EncodeRounds(s);
    var e := Encode(s);
    var t, unit := Target(Compact(e.exp, e.mantissa)), Pow256(e.exp - 3);
    NormalOrder(Compact(e.exp, e.mantissa), genesis);
    RoundedTimes(t, s, unit, ideal);
    TimesOrder(Target(genesis), s, ideal);
    assert Compact(Exp(genesis), Mantissa(genesis)) == genesis;
  }

  lemma RoundedTimes(t: nat, s: nat, unit: nat, ideal: nat)
    requires ideal > 0 && t <= s < t + unit
    ensures t * ideal <= s * ideal && s * ideal + ideal <= (t + unit) * ideal
  {
    TimesOrder(t, s, ideal);
    TimesOrder(s, t + unit, ideal);
  }

  /** One second late is enough for the assertion to fail, at every exponent: the mantissa 0xFFFFF2
      grows into 0xFFFFFF. */
  lemma AssertionReached(genesis: nat, exp: nat)
    requires exp > 3
    ensures Retarget(genesis, Compact(exp, 0xFF_FFF2), 1209601, 1209600) == AssertFails
  {
    var k: nat := exp - 3;
    var prev, u := Compact(exp, 0xFF_FFF2), Pow256(k);
    var s := Scale(0xFF_FFF2 * u, 1209601, 1209600);
    ScaleBounds(0xFF_FFF2 * u, 1209601, 1209600);
    assert 0xFF_FFF2 * 1209601 >= 0xFF_FFFF * 1209600 && 0xFF_FFF2 * 1209601 < 0x100_0000 * 1209600;
    assert 0xFF_FFFF * u * 1209600 <= 0xFF_FFF2 * u * 1209601 < 0x100_0000 * u * 1209600;
    assert 0xFF_FFFF * u <= s < 0x100_0000 * u;
    Pow256Three(k);
    assert InTopRange(s, k);
    EncodeExactly(s);
  }

  /** Blocks that arrive on schedule leave the difficulty alone. */
  lemma OnSchedule(genesis: nat, prev: nat, ideal: nat)
    requires IdealTime(ideal) && ideal < 0x1_0000_0000
    requires Normal(genesis) && Normal(prev) && Exp(prev) > 3 && Mantissa(prev) < 0xFF_FFFF
    requires Target(prev) <= Target(genesis)
    ensures Retarget(genesis, prev, ideal, ideal) == Code(Exp(prev), Mantissa(prev))
  {
    var t := Target(prev);
    ScaleBounds(t, ideal, ideal);
    TimesOrder(Scale(t, ideal, ideal), t, ideal);
    TimesOrder(t, Scale(t, ideal, ideal), ideal);
    DecodeEncode(prev);
    NormalOrder(prev, genesis);
  }

  // ---- the difficulties of a chain ----

  datatype Tailer = Tailer(timestamp: nat, difficulty: nat)

  ghost predicate Chain(chain: seq<Tailer>) {
    && |chain| > 0
    && forall i :: 0 <= i < |chain| ==> chain[i].timestamp < 0x1_0000_0000 && Exp(chain[i].difficulty) >= 3
  }

  /** get_difficulty, difficulty.c:85-153, for the block after the last; block 0 is the genesis block. */
  ghost function GetDifficulty(chain: seq<Tailer>, ideal: nat): (r: Encoded)
    requires Chain(chain) && IdealTime(ideal)
  {
    var depth := |chain| - 1;
    var prev := chain[depth];
    if (depth + 1) % UpdateBlocks != 0 then Code(Exp(prev.difficulty), Mantissa(prev.difficulty))
    else
      var start := if depth == UpdateBlocks - 1 then chain[0] else chain[depth - UpdateBlocks];
      Retarget(chain[0].difficulty, prev.difficulty, prev.timestamp - start.timestamp, ideal)
  }

  /** check_block.c:79-80 accepts a block only with the difficulty that the blocks before it call for. */
  ghost predicate Accepted(chain: seq<Tailer>, ideal: nat)
    requires Chain(chain) && IdealTime(ideal)
  {
    forall i: nat :: 0 < i < |chain| ==>
      GetDifficulty(chain[..i], ideal) == Code(Exp(chain[i].difficulty), Mantissa(chain[i].difficulty))
  }

  lemma NextBounds(chain: seq<Tailer>, ideal: nat)
    requires Chain(chain) && IdealTime(ideal) && GetDifficulty(chain, ideal).Code?
    requires var genesis, prev := chain[0].difficulty, chain[|chain| - 1].difficulty;
      Normal(genesis) && Normal(prev) && Target(prev) <= Target(genesis)
    ensures var c := GetDifficulty(chain, ideal);
      c.mantissa < MantissaRange && Near(chain[0].difficulty, chain[|chain| - 1].difficulty, Compact(c.exp, c.mantissa))
  {
    var depth := |chain| - 1;
    if (depth + 1) % UpdateBlocks == 0 {
      var start := if depth == UpdateBlocks - 1 then chain[0] else chain[depth - UpdateBlocks];
      RetargetBounds(chain[0].difficulty, chain[depth].difficulty, chain[depth].timestamp - start.timestamp, ideal);
    } else {
      var d := chain[depth].difficulty;
      assert Compact(Exp(d), Mantissa(d)) == d;
    }
  }

  /** From one block to the next the target changes by at most a factor of four, up to rounding. */
  lemma StepBounds(chain: seq<Tailer>, ideal: nat, i: nat)
    requires Chain(chain) && IdealTime(ideal) && Accepted(chain, ideal) && Normal(chain[0].difficulty)
    requires 0 < i < |chain|
    requires Normal(chain[i - 1].difficulty) && Target(chain[i - 1].difficulty) <= Target(chain[0].difficulty)
    ensures Near(chain[0].difficulty, chain[i - 1].difficulty, chain[i].difficulty)
  {
    var d, before := chain[i].difficulty, chain[..i];
    assert before[i - 1] == chain[i - 1] && before[0] == chain[0];
    NextBounds(before, ideal);
    assert d == Compact(Exp(d), Mantissa(d));
  }

  /**
   Along an accepted chain, whatever the timestamps, no block is easier than the genesis block
   and every block is near the one before it.
   */
  lemma {:induction false} ChainBounds(chain: seq<Tailer>, ideal: nat, i: nat)
    requires Chain(chain) && IdealTime(ideal) && Accepted(chain, ideal) && Normal(chain[0].difficulty)
    requires i < |chain|
    ensures Normal(chain[i].difficulty) && Target(chain[i].difficulty) <= Target(chain[0].difficulty)
    ensures i > 0 ==> Near(chain[0].difficulty, chain[i - 1].difficulty, chain[i].difficulty)
  {
    if i > 0 {
      ChainBounds(chain, ideal, i - 1);
      StepBounds(chain, ideal, i);
    }
  }

  lemma ScaleExactly(target: nat, q: nat, time: nat, ideal: nat)
    requires ideal > 0 && target * time == q * ideal
    ensures Scale(target, time, ideal) == q
  {
    ScaleBounds(target, time, ideal);
    TimesOrder(Scale(target, time, ideal), q, ideal);
    TimesOrder(q, Scale(target, time, ideal), ideal);
  }

  /** The first period from the genesis block of Makefile:23, with the last block stamped before it:
      the difficulty stays, where the promised clamp would quarter the target. */
  lemma BackwardsStaysEasy(chain: seq<Tailer>, ideal: nat)
    requires Chain(chain) && |chain| == UpdateBlocks && IdealTime(ideal)
    requires chain[0].difficulty == chain[UpdateBlocks - 1].difficulty == 0x1d3b_ffc4
    requires chain[UpdateBlocks - 1].timestamp < chain[0].timestamp
    ensures GetDifficulty(chain, ideal) == Code(0x1d, 0x3b_ffc4)
    ensures Encode(Scale(Target(0x1d3b_ffc4), ideal / 4, ideal)) == Code(0x1d, 0x0e_fff1)
  {
    FourTimesEasier(chain[UpdateBlocks - 1].timestamp - chain[0].timestamp, ideal);
    FourTimesHarder(ideal);
  }

  lemma FourTimesEasier(actual: int, ideal: nat)
    requires IdealTime(ideal) && TimeSpan(actual) && actual < 0
    ensures Exp(0x1d3b_ffc4) >= 3 && Retarget(0x1d3b_ffc4, 0x1d3b_ffc4, actual, ideal) == Code(0x1d, 0x3b_ffc4)
  {
    var u := Pow256(26);
    assert Exp(0x1d3b_ffc4) == 0x1d && Mantissa(0x1d3b_ffc4) == 0x3b_ffc4;
    ClampExactly(actual, ideal);
    FourTimes(u, ideal);
    ScaleExactly(0x3b_ffc4 * u, 0xef_ff10 * u, 4 * ideal, ideal);
    DecodeEncode(Compact(0x1d, 0xef_ff10));
  }

  lemma FourTimesHarder(ideal: nat)
    requires IdealTime(ideal)
    ensures Exp(0x1d3b_ffc4) >= 3 && Encode(Scale(Target(0x1d3b_ffc4), ideal / 4, ideal)) == Code(0x1d, 0x0e_fff1)
  {
    var u := Pow256(26);
    assert Exp(0x1d3b_ffc4) == 0x1d && Mantissa(0x1d3b_ffc4) == 0x3b_ffc4;
    FourTimes(u, ideal);
    ScaleExactly(0x3b_ffc4 * u, 0x0e_fff1 * u, ideal / 4, ideal);
    DecodeEncode(Compact(0x1d, 0x0e_fff1));
  }

  lemma FourTimes(u: nat, ideal: nat)
    requires ideal % 4 == 0
    ensures 0x3b_ffc4 * u * (4 * ideal) == 0xef_ff10 * u * ideal
    ensures 0x3b_ffc4 * u * (ideal / 4) == 0x0e_fff1 * u * ideal
  {
    var q := ideal / 4;
    assert ideal == 4 * q;
    assert 0x3b_ffc4 * u * q == 0x0e_fff1 * u * (4 * q);
  }

  /** check_timestamp, timestamp.c:20-38, apart from the clock: the last eleven blocks at most, without
      the genesis block, and among them the one that is taken for the median. */
  ghost predicate TimestampOk(chain: seq<Tailer>, timestamp: nat)
    requires |chain| > 0
  {
    var n := if |chain| - 1 < 11 then |chain| - 1 else 11;
    n == 0 || timestamp > chain[|chain| - 1 - Asort.MedianPlace(n)].timestamp
  }

  /** Every block got past check_block.c:74-76. */
  ghost predicate Timely(chain: seq<Tailer>) {
    forall i: nat :: 0 < i < |chain| ==> TimestampOk(chain[..i], chain[i].timestamp)
  }

  ghost predicate Rising(chain: seq<Tailer>) {
    forall i: nat, j: nat :: 0 < i < j < |chain| ==> chain[i].timestamp < chain[j].timestamp
  }

  /** Rising timestamps pass, whichever of the blocks is taken; the genesis block does not count. */
  lemma RisingTimely(chain: seq<Tailer>)
    requires Rising(chain)
    ensures Timely(chain)
  {
    forall i: nat | 0 < i < |chain| ensures TimestampOk(chain[..i], chain[i].timestamp) {
      var n := if i - 1 < 11 then i - 1 else 11;
      if n > 0 {
        var k: nat := i - 1 - Asort.MedianPlace(n);
        assert chain[..i][k] == chain[k] && 0 < k < i;
      }
    }
  }

  /** There is such a chain, and every block of it passes both tests. */
  lemma BackwardsHappens(ideal: nat) returns (chain: seq<Tailer>)
    requires IdealTime(ideal)
    ensures Chain(chain) && |chain| == UpdateBlocks && Accepted(chain, ideal) && Timely(chain)
    ensures chain[0] == Tailer(1404886369, 0x1d3b_ffc4) && chain[UpdateBlocks - 1].difficulty == 0x1d3b_ffc4
    ensures chain[UpdateBlocks - 1].timestamp < chain[0].timestamp
  {
    chain := seq(UpdateBlocks, i requires 0 <= i < UpdateBlocks => Tailer(if i == 0 then 1404886369 else i, 0x1d3b_ffc4));
    assert Exp(0x1d3b_ffc4) == 0x1d;
    forall i: nat | 0 < i < |chain| ensures GetDifficulty(chain[..i], ideal) == Code(Exp(chain[i].difficulty), Mantissa(chain[i].difficulty)) {
      assert chain[..i][i - 1].difficulty == 0x1d3b_ffc4;
    }
    assert Accepted(chain, ideal);
    RisingTimely(chain);
  }

  // ---- a chain that gets to the failing assertion ----

  /** A number within one unit above a mantissa encodes to it. */
  lemma EncodeUnique(s: nat, k: nat, m: nat)
    requires k > 0 && 0x1_0000 <= m < 0xFF_FFFF && m * Pow256(k) <= s < m * Pow256(k) + Pow256(k)
    ensures Encode(s) == Code(k + 3, m)
  {
    var u := Pow256(k);
    assert Pow256(k + 2) == 256 * Pow256(k + 1) == 256 * (256 * u);
    TimesOrder(0x1_0000, m, u);
    Pow256Three(k);
    TimesOrder(m, MantissaRange, u);
    BytesBetween(s, k);
    var q := DropBytes(s, k);
    DropBytesExactly(s, k);
    TimesOrder(q, m, u);
    TimesOrder(m, q, u);
  }

  lemma BytesBetween(s: nat, k: nat)
    requires Pow256(k + 2) <= s < Pow256(k + 3)
    ensures NumBytes(s) == k + 3
  {
    var e := NumBytes(s);
    NumBytesExactly(s);
    if e < k + 3 {
      Pow256Monotone(e, k + 2);
    } else if e > k + 3 {
      Pow256Monotone(k + 3, e - 1);
    }
  }

  /** A period that is over in no time quarters the target, as long as the genesis target is no limit. */
  lemma Quartered(prev: nat, k: nat, m: nat, span: int)
    requires Exp(prev) >= 3 && 0 <= span <= 302400 && k > 0 && 0x1_0000 <= m < 0xFF_FFFF
    requires 4 * (m * Pow256(k)) <= Target(prev) < 4 * (m * Pow256(k)) + 4 * Pow256(k)
    requires k + 3 < 0x1d || (k + 3 == 0x1d && m <= 0x3b_ffc4)
    ensures Retarget(0x1d3b_ffc4, prev, span, 1209600) == Code(k + 3, m)
  {
    var t := Target(prev);
    assert Clamp(span, 1209600) == 302400;
    ScaleBounds(t, 302400, 1209600);
    EncodeUnique(Scale(t, 302400, 1209600), k, m);
    assert Exp(0x1d3b_ffc4) == 0x1d && Mantissa(0x1d3b_ffc4) == 0x3b_ffc4;
  }

  const Genesis: nat := 0x1d3b_ffc4
  const AfterOne: nat := 0x1d0e_fff1
  const AfterTwo: nat := 0x1d03_bffc
  const AfterThree: nat := 0x1cef_ff00

  lemma FirstQuarter(span: int)
    requires 0 <= span <= 302400
    ensures Exp(Genesis) >= 3 && Retarget(Genesis, Genesis, span, 1209600) == Code(0x1d, 0x0e_fff1)
  {
    assert Exp(Genesis) == 0x1d && Mantissa(Genesis) == 0x3b_ffc4;
    QuarterBounds(0x3b_ffc4, 0x0e_fff1, Pow256(26));
    Quartered(Genesis, 26, 0x0e_fff1, span);
  }

  lemma SecondQuarter(span: int)
    requires 0 <= span <= 302400
    ensures Exp(AfterOne) >= 3 && Retarget(Genesis, AfterOne, span, 1209600) == Code(0x1d, 0x03_bffc)
  {
    assert Exp(AfterOne) == 0x1d && Mantissa(AfterOne) == 0x0e_fff1;
    QuarterBounds(0x0e_fff1, 0x03_bffc, Pow256(26));
    Quartered(AfterOne, 26, 0x03_bffc, span);
  }

  lemma ThirdQuarter(span: int)
    requires 0 <= span <= 302400
    ensures Exp(AfterTwo) >= 3 && Retarget(Genesis, AfterTwo, span, 1209600) == Code(0x1c, 0xef_ff00)
  {
    assert Exp(AfterTwo) == 0x1d && Mantissa(AfterTwo) == 0x03_bffc;
    assert Pow256(26) == 256 * Pow256(25);
    var u := Pow256(25);
    assert 0x03_bffc * (256 * u) == 4 * (0xef_ff00 * u);
    Quartered(AfterTwo, 25, 0xef_ff00, span);
  }

  lemma QuarterBounds(m: nat, q: nat, u: nat)
    requires u > 0 && 4 * q <= m < 4 * q + 4
    ensures 4 * (q * u) <= m * u < 4 * (q * u) + 4 * u
  {
    assert 4 * (q * u) == (4 * q) * u && 4 * (q * u) + 4 * u == (4 * q + 4) * u;
    TimesOrder(4 * q, m, u);
    TimesOrder(m, 4 * q + 4, u);
  }

  lemma FourthFails()
    ensures Exp(AfterThree) >= 3 && Retarget(Genesis, AfterThree, 1290261, 1209600) == AssertFails
  {
    var u := Pow256(25);
    assert Exp(AfterThree) == 0x1c && Mantissa(AfterThree) == 0xef_ff00;
    FourthRange(u);
    Pow256Three(25);
    var s := Scale(0xef_ff00 * u, 1290261, 1209600);
    assert InTopRange(s, 25);
    EncodeExactly(s);
  }

  lemma FourthRange(u: nat)
    requires u > 0
    ensures 0xFF_FFFF * u <= Scale(0xef_ff00 * u, 1290261, 1209600) < 0x100_0000 * u
  {
    ScaleBounds(0xef_ff00 * u, 1290261, 1209600);
  }

  /** Block i of the chain: three quick periods, and a fourth that lasts 1290261 seconds. */
  function Doomed(i: nat): (r: Tailer) {
    Tailer(1404886369 + (if i == 8063 then 6047 + 1290261 else i),
           if i < 2016 then Genesis else if i < 4032 then AfterOne else if i < 6048 then AfterTwo else AfterThree)
  }

  ghost predicate DoomedTo(chain: seq<Tailer>, n: nat) {
    |chain| == n && forall k :: 0 <= k < n ==> chain[k] == Doomed(k)
  }

  lemma DoomedChain(chain: seq<Tailer>, n: nat)
    requires 0 < n <= 8064 && DoomedTo(chain, n)
    ensures Chain(chain) && Rising(chain)
  {
    assert Exp(Genesis) == 0x1d && Exp(AfterOne) == 0x1d && Exp(AfterTwo) == 0x1d && Exp(AfterThree) == 0x1c;
  }

  /** At the end of a period that took `span` seconds. */
  lemma PeriodEnds(chain: seq<Tailer>, start: nat, span: int)
    requires Chain(chain) && |chain| % UpdateBlocks == 0
    requires start == (if |chain| == UpdateBlocks then 0 else |chain| - 1 - UpdateBlocks)
    requires start < |chain| && span == chain[|chain| - 1].timestamp - chain[start].timestamp
    ensures GetDifficulty(chain, 1209600) ==
            Retarget(chain[0].difficulty, chain[|chain| - 1].difficulty, span, 1209600)
  {
  }

  lemma DoomedTurns(chain: seq<Tailer>, n: nat)
    requires (n == 2016 || n == 4032 || n == 6048) && DoomedTo(chain, n) && Chain(chain)
    ensures GetDifficulty(chain, 1209600) == Code(Exp(Doomed(n).difficulty), Mantissa(Doomed(n).difficulty))
  {
    if n == 2016 {
      PeriodEnds(chain, 0, 2015);
      FirstQuarter(2015);
    } else if n == 4032 {
      PeriodEnds(chain, 2015, 2016);
      SecondQuarter(2016);
    } else {
      PeriodEnds(chain, 4031, 2016);
      ThirdQuarter(2016);
    }
  }

  lemma DoomedNext(chain: seq<Tailer>, n: nat)
    requires 0 < n < 8064 && DoomedTo(chain, n) && Chain(chain)
    ensures GetDifficulty(chain, 1209600) == Code(Exp(Doomed(n).difficulty), Mantissa(Doomed(n).difficulty))
  {
    if n % UpdateBlocks == 0 {
      assert n == 2016 || n == 4032 || n == 6048;
      DoomedTurns(chain, n);
    } else {
      assert Doomed(n).difficulty == chain[n - 1].difficulty;
    }
  }

  lemma DoomedAccepted(chain: seq<Tailer>)
    requires DoomedTo(chain, 8064) && Chain(chain)
    ensures Accepted(chain, 1209600)
  {
    forall i: nat | 0 < i < |chain| ensures GetDifficulty(chain[..i], 1209600) == Code(Exp(chain[i].difficulty), Mantissa(chain[i].difficulty)) {
      DoomedNext(chain[..i], i);
    }
  }

  lemma DoomedFails(chain: seq<Tailer>)
    requires DoomedTo(chain, 8064) && Chain(chain)
    ensures GetDifficulty(chain, 1209600) == AssertFails
  {
    PeriodEnds(chain, 6047, 1290261);
    FourthFails();
  }

  /** From the genesis block of Makefile:23 an accepted chain with rising timestamps leads to a block for
      which the assertion fails. */
  lemma AssertionHappens() returns (chain: seq<Tailer>)
    ensures Chain(chain) && chain[0] == Tailer(1404886369, 0x1d3b_ffc4)
    ensures Accepted(chain, 1209600) && Timely(chain)
    ensures GetDifficulty(chain, 1209600) == AssertFails
  {
    chain := seq(8064, i requires 0 <= i < 8064 => Doomed(i));
    DoomedChain(chain, 8064);
    DoomedAccepted(chain);
    DoomedFails(chain);
    RisingTimely(chain);
  }

  // ---- easier targets for gossip, and work ----

  /** difficulty_one_sixteenth, difficulty.c:30-49. */
  function OneSixteenth(d: nat): (r: nat) {
    var exp, mantissa := Exp(d), Mantissa(d);
    if mantissa * 16 >= MantissaRange then
      if exp == 31 then Compact(exp, 0xFF_FFFF) else Compact(exp + 1, mantissa / 16)
    else Compact(exp, mantissa * 16)
  }

  lemma SixteenTimes(m: nat, u: nat)
    ensures (m * 16) * u == 16 * (m * u)
  {
  }

  /** The saturated mantissa lies between m and 16 m. */
  lemma SaturatedBounds(m: nat, u: nat)
    requires u > 0 && m < MantissaRange <= m * 16
    ensures m * u <= 0xFF_FFFF * u <= 16 * (m * u)
  {
    TimesOrder(m, 0xFF_FFFF, u);
    TimesOrder(0xFF_FFFF, m * 16, u);
    SixteenTimes(m, u);
  }

  /** So does a sixteenth of the mantissa, one byte up. */
  lemma ByteUpBounds(m: nat, u: nat)
    requires u > 0 && m < MantissaRange <= m * 16
    ensures m * u <= (m / 16) * (256 * u) <= 16 * (m * u)
  {
    var q := m / 16;
    assert q * (256 * u) == (q * 256) * u;
    TimesOrder(m, q * 256, u);
    TimesOrder(q * 256, m * 16, u);
    SixteenTimes(m, u);
  }

  /** At least as easy, at most sixteen times easier; exactly sixteen times when the mantissa has room. */
  lemma OneSixteenthBounds(d: nat)
    requires Exp(d) >= 3
    ensures Exp(OneSixteenth(d)) >= 3
    ensures Target(d) <= Target(OneSixteenth(d)) <= 16 * Target(d)
    ensures Mantissa(d) < 0x10_0000 ==> Target(OneSixteenth(d)) == 16 * Target(d)
    ensures Normal(d) ==> Normal(OneSixteenth(d))
  {
    var e: nat, m := Exp(d) - 3, Mantissa(d);
    if m * 16 < MantissaRange {
      SixteenTimes(m, Pow256(e));
    } else if e == 28 {
      SaturatedBounds(m, Pow256(e));
    } else {
      ByteUpBounds(m, Pow256(e));
      assert Pow256(e + 1) == 256 * Pow256(e);
    }
  }

  /** Sixteen times the target, rounded down to the mantissa that is left; only exponent 31 saturates. */
  lemma OneSixteenthExactly(d: nat)
    requires Exp(d) >= 3
    ensures var r := OneSixteenth(d);
      if Mantissa(d) >= 0x10_0000 && Exp(d) == 31 then r == Compact(31, 0xFF_FFFF)
      else Exp(r) >= 3 && Target(r) <= 16 * Target(d) < Target(r) + Pow256(Exp(r) - 3)
  {
    var e: nat, m := Exp(d) - 3, Mantissa(d);
    SixteenTimes(m, Pow256(e));
    if m * 16 >= MantissaRange && e != 28 {
      ByteUpRounds(m, Pow256(e));
      assert Pow256(e + 1) == 256 * Pow256(e);
    }
  }

  lemma ByteUpRounds(m: nat, u: nat)
    requires u > 0
    ensures (m / 16) * (256 * u) <= 16 * (m * u) < (m / 16) * (256 * u) + 256 * u
  {
    var q := m / 16;
    assert q * (256 * u) == (q * 256) * u && q * (256 * u) + 256 * u == (q * 256 + 256) * u;
    SixteenTimes(m, u);
    TimesOrder(q * 256, m * 16, u);
    TimesOrder(m * 16, q * 256 + 256, u);
  }

  /** beats_target can be asked about the easier target exactly when the exponent does not pass 32. */
  lemma OneSixteenthUsable(d: nat)
    requires 3 <= Exp(d) <= 32
    ensures Exp(OneSixteenth(d)) <= 32 <==> !(Exp(d) == 32 && Mantissa(d) >= 0x10_0000)
  {
  }

  /** On every accepted chain it can be asked, if the genesis exponent is at most 31; Makefile:23 has 0x1d. */
  lemma ChainUsable(chain: seq<Tailer>, ideal: nat, i: nat)
    requires Chain(chain) && IdealTime(ideal) && Accepted(chain, ideal) && Normal(chain[0].difficulty)
    requires i < |chain| && Exp(chain[0].difficulty) <= 31
    ensures 3 <= Exp(OneSixteenth(chain[i].difficulty)) <= 32
  {
    ChainBounds(chain, ideal, i);
    NormalOrder(chain[i].difficulty, chain[0].difficulty);
    OneSixteenthUsable(chain[i].difficulty);
    OneSixteenthBounds(chain[i].difficulty);
  }

  /** total_work_done, difficulty.c:155-180. */
  function TotalWork(d: nat, prev: nat): (r: nat)
    requires Exp(d) >= 3
  {
    Scale(Pow256(32), 1, Target(d) + 1) + prev
  }

  /** The work of a block is 2^256 / (target + 1), rounded down. */
  lemma WorkExactly(d: nat, prev: nat)
    requires Exp(d) >= 3
    ensures TotalWork(d, prev) >= prev
    ensures var w := TotalWork(d, prev) - prev;
      w * (Target(d) + 1) <= Pow256(32) < (w + 1) * (Target(d) + 1)
  {
    var u := Target(d) + 1;
    var w := Scale(Pow256(32), 1, u);
    ScaleBounds(Pow256(32), 1, u);
    assert (w + 1) * u == w * u + u;
  }

  /** Work grows with every block exactly when the target is one that 256 bits can hold. */
  lemma WorkGrows(d: nat, prev: nat)
    requires Exp(d) >= 3
    ensures TotalWork(d, prev) > prev <==> Target(d) < Pow256(32)
  {
    var t := Target(d);
    ScaleBounds(Pow256(32), 1, t + 1);
    TimesOrder(1, Scale(Pow256(32), 1, t + 1), t + 1);
  }

  lemma TargetFits(d: nat)
    requires 3 <= Exp(d) <= 32
    ensures Target(d) < Pow256(32)
  {
    var k: nat := Exp(d) - 3;
    Pow256Three(k);
    TimesOrder(Mantissa(d), MantissaRange, Pow256(k));
    Pow256Monotone(Exp(d), 32);
  }

  /** A smaller target counts for at least as much work. */
  lemma HarderIsMoreWork(d: nat, e: nat, prev: nat)
    requires Exp(d) >= 3 && Exp(e) >= 3 && Target(d) <= Target(e)
    ensures TotalWork(d, prev) >= TotalWork(e, prev)
  {
    var a, b, n := Target(d) + 1, Target(e) + 1, Pow256(32);
    var x, y := Scale(n, 1, a), Scale(n, 1, b);
    ScaleBounds(n, 1, a);
    ScaleBounds(n, 1, b);
    TimesAtMost(a, b, y);
    if x < y {
      TimesLess(x, y, a);
    }
  }
}
