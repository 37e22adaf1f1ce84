/** XXTEA, the Corrected Block TEA cipher of Wheeler and Needham, as `XXTEAManaged` implements
  * it: bytes are packed little-endian into 32-bit words (optionally followed by a word
  * holding the byte count), the words are mixed in place for `6 + 52 / (n + 1)` rounds, and
  * decryption runs the same rounds backwards.
  *
  * Words are numbers below 2^32 and the `uint` operators are written out: addition and
  * subtraction wrap, shifts are products and quotients by powers of two, and `^` and `|`
  * are defined bit by bit. */
module Xxtea {
  import opened Wrappers
  import opened Bits
  import Formats

  /** `uint` */
  type uint32 = x: int | 0 <= x < 0x1_0000_0000

  /** `byte` */
  type byte = x: int | 0 <= x < 0x100

  const Delta: uint32 := 0x9E37_79B9

  // ---------------------------------------------------------------------------------------
  // `uint` arithmetic

  /** `unchecked(a + b)` */
  function Add(a: uint32, b: uint32): uint32
  {
    if a + b < TwoTo32 then a + b else a + b - TwoTo32
  }

  /** `unchecked(a - b)` */
  function Sub(a: uint32, b: uint32): uint32
  {
    if a >= b then a - b else a - b + TwoTo32
  }

  /** The wrapping operators are addition and subtraction modulo 2^32. */
  lemma AddSubMod(a: uint32, b: uint32)
    ensures Add(a, b) == (a + b) % TwoTo32
    ensures Sub(a, b) == (a - b) % TwoTo32
  {
    if a + b >= TwoTo32 {
      DivMod(a + b, TwoTo32, 1, a + b - TwoTo32);
    }
    if a < b {
      DivMod(a - b, TwoTo32, -1, a - b + TwoTo32);
    }
  }

  /** Subtraction undoes addition. */
  lemma SubAdd(a: uint32, m: uint32)
    ensures Sub(Add(a, m), m) == a
  {
  }

  /** `a ^ b`: the exclusive or of two words is a word (`XorWordBelow`), so the reduction
    * modulo 2^32 changes nothing. */
  function XorWord(a: uint32, b: uint32): uint32
  {
    Xor(a, b) % TwoTo32
  }

  lemma XorWordBelow(a: uint32, b: uint32)
    ensures XorWord(a, b) == Xor(a, b)
  {
    Pow2Bytes();
    XorBelow(a, b, 32);
  }

  /** `x / d` and `x % d` are the quotient and remainder of any such split. */
  lemma DivMod(x: int, d: int, q: int, r: int)
    requires 0 < d && 0 <= r < d && x == d * q + r
    ensures x / d == q && x % d == r
  {
    var e := q - x / d;
    assert d * e == x % d - r;
    Formats.MulSmall(d, e);
  }

  // ---------------------------------------------------------------------------------------
  // The mixing function and one round

  /** A key of at least four words: `_Encrypt` copies a shorter one into a zeroed `uint[4]`. */
  function PadKey(k: seq<uint32>): (r: seq<uint32>)
    ensures |r| >= 4 && |r| == if |k| < 4 then 4 else |k|
    ensures forall i :: 0 <= i < |k| ==> r[i] == k[i]
    ensures forall i :: |k| <= i < |r| ==> r[i] == 0
  {
    if |k| < 4 then k + seq(4 - |k|, _ => 0) else k
  }

  /** `(p & 3) ^ e` with `e = (sum >> 2) & 3`: the key word used at position `p`. Both
    * operands have two bits, so the result does too (`KeyIndexBelow`). */
  function KeyIndex(p: nat, sum: uint32): (i: nat)
    ensures i < 4
  {
    Xor(p % 4, sum / 4 % 4) % 4
  }

  lemma KeyIndexBelow(p: nat, sum: uint32)
    ensures KeyIndex(p, sum) == Xor(p % 4, sum / 4 % 4)
  {
    Pow2Bytes();
    XorBelow(p % 4, sum / 4 % 4, 2);
  }

  /** `MX`: the value mixed into the word at `p`, from its neighbours `z` (before) and `y`
    * (after). The shifts by constants are written as products and quotients: `z >> 5` is
    * `z / 32`, `y << 2` is `y * 4` modulo 2^32. */
  function Mx(z: uint32, y: uint32, sum: uint32, p: nat, k: seq<uint32>): uint32
    requires |k| >= 4
  {
    XorWord(Add(XorWord(z / 32, y * 4 % TwoTo32), XorWord(y / 8, z * 16 % TwoTo32)),
            Add(XorWord(sum, y), XorWord(k[KeyIndex(p, sum)], z)))
  }

  /** The neighbours of position `p` in a ring of `n + 1` words. */
  function Prev(p: nat, n: nat): nat
  {
    if p == 0 then n else p - 1
  }

  function Next(p: nat, n: nat): nat
  {
    if p == n then 0 else p + 1
  }

  /** `MX` at `p`, from the current words either side of it. */
  function MxAt(v: seq<uint32>, p: nat, sum: uint32, k: seq<uint32>): uint32
    requires 2 <= |v| && p < |v| && |k| >= 4
  {
    Mx(v[Prev(p, |v| - 1)], v[Next(p, |v| - 1)], sum, p, k)
  }

  /** Encryption adds `MX` to word `p`. */
  function EncStep(v: seq<uint32>, p: nat, sum: uint32, k: seq<uint32>): (r: seq<uint32>)
    requires 2 <= |v| && p < |v| && |k| >= 4
    ensures |r| == |v|
  {
    v[p := Add(v[p], MxAt(v, p, sum, k))]
  }

  /** Decryption subtracts it. */
  function DecStep(v: seq<uint32>, p: nat, sum: uint32, k: seq<uint32>): (r: seq<uint32>)
    requires 2 <= |v| && p < |v| && |k| >= 4
    ensures |r| == |v|
  {
    v[p := Sub(v[p], MxAt(v, p, sum, k))]
  }

  /** The first `j` steps of an encryption round: words `0 .. j - 1`, in that order. */
  function EncSweep(v: seq<uint32>, sum: uint32, k: seq<uint32>, j: nat): (r: seq<uint32>)
    requires 2 <= |v| && j <= |v| && |k| >= 4
    ensures |r| == |v|
  {
    if j == 0 then v else EncStep(EncSweep(v, sum, k, j - 1), j - 1, sum, k)
  }

  /** The steps of a decryption round from the last word down to word `j`. */
  function DecSweep(v: seq<uint32>, sum: uint32, k: seq<uint32>, j: nat): (r: seq<uint32>)
    requires 2 <= |v| && j <= |v| && |k| >= 4
    ensures |r| == |v|
    decreases |v| - j
  {
    if j == |v| then v else DecStep(DecSweep(v, sum, k, j + 1), j, sum, k)
  }

  function EncRound(v: seq<uint32>, sum: uint32, k: seq<uint32>): (r: seq<uint32>)
    requires 2 <= |v| && |k| >= 4
    ensures |r| == |v|
  {
    EncSweep(v, sum, k, |v|)
  }

  function DecRound(v: seq<uint32>, sum: uint32, k: seq<uint32>): (r: seq<uint32>)
    requires 2 <= |v| && |k| >= 4
    ensures |r| == |v|
  {
    DecSweep(v, sum, k, 0)
  }

  // ---------------------------------------------------------------------------------------
  // Rounds

  /** `6 + 52 / (n + 1)` rounds for `n + 1` words. */
  function RoundCount(n: nat): (q: nat)
    requires n >= 1
    ensures 6 <= q <= 32
  {
    6 + 52 / (n + 1)
  }

  /** The `sum` of round `r`: `delta` added `r` times, wrapping. */
  function SumAt(r: nat): uint32
  {
    if r == 0 then 0 else Add(SumAt(r - 1), Delta)
  }

  /** The `sum` of round `r` is `r * delta` truncated to 32 bits, as `_Decrypt` starts it. */
  lemma {:induction false} SumClosed(r: nat)
    ensures SumAt(r) == (r * Delta) % TwoTo32
  {
    if r > 0 {
      SumClosed(r - 1);
      AddSubMod(SumAt(r - 1), Delta);
      ModAdd((r - 1) * Delta, Delta);
    }
  }

  /** `sum -= delta` moves to the previous round's sum. */
  lemma SumPrev(r: nat)
    requires r >= 1
    ensures Sub(SumAt(r), Delta) == SumAt(r - 1)
  {
    SubAdd(SumAt(r - 1), Delta);
  }

  /** No round up to the 32nd has a zero sum, so `while (sum != 0)` runs every round. */
  lemma SumNonZero(r: nat)
    requires 1 <= r <= 32
    ensures SumAt(r) != 0
  {
    SumClosed(r);
    if r <= 16 {
      ProductNonZeroLow(r);
    } else {
      ProductNonZeroHigh(r);
    }
  }

  /** `r * delta` is not a multiple of 2^32 for the first sixteen rounds, value by value. */
  lemma ProductNonZeroLow(r: nat)
    requires 1 <= r <= 16
    ensures (r * Delta) % TwoTo32 != 0
  {
    if r == 1 {
      assert r * Delta == 2654435769;
    } else if r == 2 {
      assert r * Delta == 5308871538;
    } else if r == 3 {
      assert r * Delta == 7963307307;
    } else if r == 4 {
      assert r * Delta == 10617743076;
    } else if r == 5 {
      assert r * Delta == 13272178845;
    } else if r == 6 {
      assert r * Delta == 15926614614;
    } else if r == 7 {
      assert r * Delta == 18581050383;
    } else if r == 8 {
      assert r * Delta == 21235486152;
    } else if r == 9 {
      assert r * Delta == 23889921921;
    } else if r == 10 {
      assert r * Delta == 26544357690;
    } else if r == 11 {
      assert r * Delta == 29198793459;
    } else if r == 12 {
      assert r * Delta == 31853229228;
    } else if r == 13 {
      assert r * Delta == 34507664997;
    } else if r == 14 {
      assert r * Delta == 37162100766;
    } else if r == 15 {
      assert r * Delta == 39816536535;
    } else if r == 16 {
      assert r * Delta == 42470972304;
    }
  }

  /** `r * delta` is not a multiple of 2^32 for rounds 17 to 32, value by value. */
  lemma ProductNonZeroHigh(r: nat)
    requires 17 <= r <= 32
    ensures (r * Delta) % TwoTo32 != 0
  {
    if r == 17 {
      assert r * Delta == 45125408073;
    } else if r == 18 {
      assert r * Delta == 47779843842;
    } else if r == 19 {
      assert r * Delta == 50434279611;
    } else if r == 20 {
      assert r * Delta == 53088715380;
    } else if r == 21 {
      assert r * Delta == 55743151149;
    } else if r == 22 {
      assert r * Delta == 58397586918;
    } else if r == 23 {
      assert r * Delta == 61052022687;
    } else if r == 24 {
      assert r * Delta == 63706458456;
    } else if r == 25 {
      assert r * Delta == 66360894225;
    } else if r == 26 {
      assert r * Delta == 69015329994;
    } else if r == 27 {
      assert r * Delta == 71669765763;
    } else if r == 28 {
      assert r * Delta == 74324201532;
    } else if r == 29 {
      assert r * Delta == 76978637301;
    } else if r == 30 {
      assert r * Delta == 79633073070;
    } else if r == 31 {
      assert r * Delta == 82287508839;
    } else if r == 32 {
      assert r * Delta == 84941944608;
    }
  }

  lemma ModAdd(a: int, d: int)
    ensures (a % TwoTo32 + d) % TwoTo32 == (a + d) % TwoTo32
  {
    var s := a % TwoTo32 + d;
    assert a + d == TwoTo32 * (a / TwoTo32 + s / TwoTo32) + s % TwoTo32;
  }

  /** Encryption rounds `1 .. r`. */
  function EncRounds(v: seq<uint32>, k: seq<uint32>, r: nat): (w: seq<uint32>)
    requires 2 <= |v| && |k| >= 4
    ensures |w| == |v|
  {
    if r == 0 then v else EncRound(EncRounds(v, k, r - 1), SumAt(r), k)
  }

  /** Decryption rounds `q` down to `l + 1`. */
  function DecRounds(v: seq<uint32>, k: seq<uint32>, q: nat, l: nat): (w: seq<uint32>)
    requires 2 <= |v| && |k| >= 4 && l <= q
    ensures |w| == |v|
    decreases q - l
  {
    if l == q then v else DecRound(DecRounds(v, k, q, l + 1), SumAt(l + 1), k)
  }

  lemma EncRoundsStep(v: seq<uint32>, k: seq<uint32>, r: nat)
    requires 2 <= |v| && |k| >= 4 && r >= 1
    ensures SumAt(r) == Add(SumAt(r - 1), Delta)
    ensures EncRounds(v, k, r) == EncRound(EncRounds(v, k, r - 1), SumAt(r), k)
  {
  }

  lemma DecRoundsStep(v: seq<uint32>, k: seq<uint32>, q: nat, l: nat)
    requires 2 <= |v| && |k| >= 4 && 1 <= l <= q
    ensures DecRounds(v, k, q, l - 1) == DecRound(DecRounds(v, k, q, l), SumAt(l), k)
  {
  }

  /** What `_Encrypt(v, k)` leaves in `v`: fewer than two words are left alone. */
  function Enciphered(v: seq<uint32>, k: seq<uint32>): (w: seq<uint32>)
    ensures |w| == |v|
    ensures |v| < 2 ==> w == v
  {
    if |v| < 2 then v else EncRounds(v, PadKey(k), RoundCount(|v| - 1))
  }

  /** What `_Decrypt(v, k)` leaves in `v`. */
  function Deciphered(v: seq<uint32>, k: seq<uint32>): (w: seq<uint32>)
    ensures |w| == |v|
    ensures |v| < 2 ==> w == v
  {
    if |v| < 2 then v else DecRounds(v, PadKey(k), RoundCount(|v| - 1), 0)
  }

  // ---------------------------------------------------------------------------------------
  // Inversion

  /** A decryption step undoes the encryption step at the same word: `MX` depends only on
    * the neighbours, which the step does not touch. */
  lemma StepInverse(v: seq<uint32>, p: nat, sum: uint32, k: seq<uint32>)
    requires 2 <= |v| && p < |v| && |k| >= 4
    ensures DecStep(EncStep(v, p, sum, k), p, sum, k) == v
  {
    var w := EncStep(v, p, sum, k);
    assert MxAt(w, p, sum, k) == MxAt(v, p, sum, k);
    SubAdd(v[p], MxAt(v, p, sum, k));
  }

  /** Decrypting words `|v| - 1` down to `j` of an encrypted round leaves the first `j`
    * encryption steps. */
  lemma {:induction false} SweepInverse(v: seq<uint32>, sum: uint32, k: seq<uint32>, j: nat)
    requires 2 <= |v| && j <= |v| && |k| >= 4
    ensures DecSweep(EncRound(v, sum, k), sum, k, j) == EncSweep(v, sum, k, j)
    decreases |v| - j
  {
    if j < |v| {
      SweepInverse(v, sum, k, j + 1);
      SweepInverseStep(v, EncRound(v, sum, k), sum, k, j);
    }
  }

  /** If the decryption sweep down to `j + 1` leaves the first `j + 1` encryption steps,
    * one more decryption step leaves the first `j`. */
  lemma SweepInverseStep(v: seq<uint32>, w: seq<uint32>, sum: uint32, k: seq<uint32>, j: nat)
    requires 2 <= |v| == |w| && j < |v| && |k| >= 4
    requires DecSweep(w, sum, k, j + 1) == EncSweep(v, sum, k, j + 1)
    ensures DecSweep(w, sum, k, j) == EncSweep(v, sum, k, j)
  {
    SweepUnfold(v, w, sum, k, j);
    StepInverse(EncSweep(v, sum, k, j), j, sum, k);
  }

  /** One step of each sweep, spelled out. */
  lemma SweepUnfold(v: seq<uint32>, w: seq<uint32>, sum: uint32, k: seq<uint32>, j: nat)
    requires 2 <= |v| == |w| && j < |v| && |k| >= 4
    ensures EncSweep(v, sum, k, j + 1) == EncStep(EncSweep(v, sum, k, j), j, sum, k)
    ensures DecSweep(w, sum, k, j) == DecStep(DecSweep(w, sum, k, j + 1), j, sum, k)
  {
  }

  lemma RoundInverse(v: seq<uint32>, sum: uint32, k: seq<uint32>)
    requires 2 <= |v| && |k| >= 4
    ensures DecRound(EncRound(v, sum, k), sum, k) == v
  {
    SweepInverse(v, sum, k, 0);
  }

  /** Decrypting rounds `r` down to `l + 1` of `r` encryption rounds leaves the first `l`. */
  lemma {:induction false} RoundsInverse(v: seq<uint32>, k: seq<uint32>, r: nat, l: nat)
    requires 2 <= |v| && |k| >= 4 && l <= r
    ensures DecRounds(EncRounds(v, k, r), k, r, l) == EncRounds(v, k, l)
    decreases r - l
  {
    if l < r {
      RoundsInverse(v, k, r, l + 1);
      RoundInverse(EncRounds(v, k, l), SumAt(l + 1), k);
    }
  }

  /** `_Decrypt(_Encrypt(v, k), k)` gives back `v`. */
  lemma DecipherEncipher(v: seq<uint32>, k: seq<uint32>)
    ensures Deciphered(Enciphered(v, k), k) == v
  {
    if |v| >= 2 {
      RoundsInverse(v, PadKey(k), RoundCount(|v| - 1), 0);
    }
  }

  // ---------------------------------------------------------------------------------------
  // `_Encrypt` and `_Decrypt`, in place

  /** `_Encrypt(v, k)`: mixes `v` in place and returns it. */
  method EncryptWords(v: array<uint32>, k: seq<uint32>) returns (r: array<uint32>)
    modifies v
    ensures r == v && v[..] == Enciphered(old(v[..]), k)
  {
    var n := v.Length - 1;
    if n < 1 {
      return v;
    }
    var key := PadKey(k);
    var z := v[n];
    var sum: uint32 := 0;
    var q := RoundCount(n);
    ghost var start := v[..];
    ghost var done := 0;
    while q > 0
      invariant 0 <= q && done + q == RoundCount(n)
      invariant sum == SumAt(done)
      invariant v[..] == EncRounds(start, key, done)
      invariant z == v[n]
    {
      q := q - 1;
      sum := Add(sum, Delta);
      done := done + 1;
      EncRoundsStep(start, key, done);
      EncryptRound(v, key, sum);
      z := v[n];
    }
    assert done == RoundCount(n);
    return v;
  }

  /** One pass of `_Encrypt`'s outer loop, from word `0` up to word `n`. */
  method EncryptRound(v: array<uint32>, key: seq<uint32>, sum: uint32)
    requires 2 <= v.Length && |key| >= 4
    modifies v
    ensures v[..] == EncRound(old(v[..]), sum, key)
  {
    var n := v.Length - 1;
    var z := MixUp(v, key, sum);
    var y := v[0];
    v[n] := Add(v[n], Mx(z, y, sum, n, key));
  }

  /** The inner loop of `_Encrypt`: words `0 .. n - 1`; returns the last word written. */
  method MixUp(v: array<uint32>, key: seq<uint32>, sum: uint32) returns (z: uint32)
    requires 2 <= v.Length && |key| >= 4
    modifies v
    ensures v[..] == EncSweep(old(v[..]), sum, key, v.Length - 1)
    ensures z == v[v.Length - 2]
  {
    var n := v.Length - 1;
    ghost var o := v[..];
    z := v[n];
    var p := 0;
    while p < n
      invariant 0 <= p <= n
      invariant v[..] == EncSweep(o, sum, key, p)
      invariant z == v[Prev(p, n)]
    {
      var y := v[p + 1];
      StepUp(o, v[..], p, sum, key, z, y);
      z := Add(v[p], Mx(z, y, sum, p, key));
      v[p] := z;
      p := p + 1;
    }
    assert p == n;
  }

  /** The step `_Encrypt`'s inner loop takes at `p < n`, from the words it holds. */
  lemma StepUp(o: seq<uint32>, v: seq<uint32>, p: nat, sum: uint32, key: seq<uint32>, z: uint32, y: uint32)
    requires 2 <= |o| && p < |o| - 1 && |key| >= 4 && v == EncSweep(o, sum, key, p)
    requires z == v[Prev(p, |v| - 1)] && y == v[p + 1]
    ensures EncSweep(o, sum, key, p + 1) == v[p := Add(v[p], Mx(z, y, sum, p, key))]
  {
  }

  /** `sum = (uint) (q * delta)`: the sum of the last round. */
  method StartSum(q: nat) returns (sum: uint32)
    ensures sum == SumAt(q)
  {
    sum := (q * Delta) % TwoTo32;
    SumClosed(q);
  }

  /** `_Decrypt(v, k)`: unmixes `v` in place and returns it. */
  method DecryptWords(v: array<uint32>, k: seq<uint32>) returns (r: array<uint32>)
    modifies v
    ensures r == v && v[..] == Deciphered(old(v[..]), k)
  {
    var n := v.Length - 1;
    if n < 1 {
      return v;
    }
    var key := PadKey(k);
    var q := RoundCount(n);
    var sum := StartSum(q);
    ghost var start := v[..];
    ghost var left := q;
    while sum != 0
      invariant 0 <= left <= q
      invariant sum == SumAt(left)
      invariant v[..] == DecRounds(start, key, q, left)
      decreases left
    {
      DecRoundsStep(start, key, q, left);
      DecryptRound(v, key, sum);
      SumPrev(left);
      sum := Sub(sum, Delta);
      left := left - 1;
    }
    if left != 0 {
      SumNonZero(left);
    }
    return v;
  }

  /** One pass of `_Decrypt`'s outer loop, from word `n` down to word `0`. */
  method DecryptRound(v: array<uint32>, key: seq<uint32>, sum: uint32)
    requires 2 <= v.Length && |key| >= 4
    modifies v
    ensures v[..] == DecRound(old(v[..]), sum, key)
  {
    var n := v.Length - 1;
    var y := MixDown(v, key, sum);
    var z := v[n];
    v[0] := Sub(v[0], Mx(z, y, sum, 0, key));
  }

  /** The inner loop of `_Decrypt`: words `n` down to `1`; returns the last word written. */
  method MixDown(v: array<uint32>, key: seq<uint32>, sum: uint32) returns (y: uint32)
    requires 2 <= v.Length && |key| >= 4
    modifies v
    ensures v[..] == DecSweep(old(v[..]), sum, key, 1)
    ensures y == v[1]
  {
    var n := v.Length - 1;
    y := v[0];
    var p := n;
    while p > 0
      invariant 0 <= p <= n
      invariant v[..] == DecSweep(old(v[..]), sum, key, p + 1)
      invariant y == v[Next(p, n)]
    {
      var z := v[p - 1];
      StepDown(old(v[..]), v[..], p, sum, key, z, y);
      v[p] := Sub(v[p], Mx(z, y, sum, p, key));
      y := v[p];
      p := p - 1;
    }
    assert p == 0;
  }

  /** The step `_Decrypt`'s inner loop takes at `p > 0`, from the words it holds. */
  lemma StepDown(o: seq<uint32>, v: seq<uint32>, p: nat, sum: uint32, key: seq<uint32>, z: uint32, y: uint32)
    requires 2 <= |o| && 0 < p < |o| && |key| >= 4 && v == DecSweep(o, sum, key, p + 1)
    requires z == v[p - 1] && y == v[Next(p, |v| - 1)]
    ensures DecSweep(o, sum, key, p) == v[p := Sub(v[p], Mx(z, y, sum, p, key))]
  {
  }

  // ---------------------------------------------------------------------------------------
  // Packing bytes into words

  /** The word whose bytes, least significant first, are `b0`, `b1`, `b2`, `b3`. */
  function Join4(b0: byte, b1: byte, b2: byte, b3: byte): uint32
  {
    b0 + 0x100 * (b1 + 0x100 * (b2 + 0x100 * b3))
  }

  /** `1 << (c << 3)`: the weight of byte `c` in a word. */
  function ByteWeight(c: nat): nat
    requires c < 4
  {
    if c == 0 then 1 else if c == 1 then 0x100 else if c == 2 then 0x1_0000 else 0x100_0000
  }

  /** `b << (c << 3)`: byte `b` moved to byte `c` of a word. */
  function ByteShift(b: byte, c: nat): nat
    requires c < 4
  {
    if c == 0 then b else if c == 1 then 0x100 * b else if c == 2 then 0x1_0000 * b else 0x100_0000 * b
  }

  /** `(byte) (w >> (c << 3))`: byte `c` of a word. */
  function ByteOf(w: uint32, c: nat): byte
    requires c < 4
  {
    w / ByteWeight(c) % 0x100
  }

  /** Taking a word apart gives back the bytes it was built from. */
  lemma ByteOfJoin4(b0: byte, b1: byte, b2: byte, b3: byte)
    ensures ByteOf(Join4(b0, b1, b2, b3), 0) == b0 && ByteOf(Join4(b0, b1, b2, b3), 1) == b1
    ensures ByteOf(Join4(b0, b1, b2, b3), 2) == b2 && ByteOf(Join4(b0, b1, b2, b3), 3) == b3
  {
    var w := Join4(b0, b1, b2, b3);
    DivMod(w, 1, w, 0);
    DivMod(w, 0x100, b1 + 0x100 * b2 + 0x1_0000 * b3, b0);
    DivMod(w, 0x1_0000, b2 + 0x100 * b3, b0 + 0x100 * b1);
    DivMod(w, 0x100_0000, b3, b0 + 0x100 * b1 + 0x1_0000 * b2);
    DivMod(b1 + 0x100 * b2 + 0x1_0000 * b3, 0x100, b2 + 0x100 * b3, b1);
    DivMod(b2 + 0x100 * b3, 0x100, b3, b2);
    DivMod(b3, 0x100, 0, b3);
  }

  /** Building a word from its bytes gives back the word. */
  lemma Join4OfBytes(w: uint32)
    ensures Join4(ByteOf(w, 0), ByteOf(w, 1), ByteOf(w, 2), ByteOf(w, 3)) == w
  {
    var r0, q1 := w % 0x100, w / 0x100;
    var r1, q2 := q1 % 0x100, q1 / 0x100;
    var r2, q3 := q2 % 0x100, q2 / 0x100;
    assert w == r0 + 0x100 * r1 + 0x1_0000 * r2 + 0x100_0000 * q3;
    DivMod(w, 1, w, 0);
    DivMod(w, 0x1_0000, q2, r0 + 0x100 * r1);
    DivMod(w, 0x100_0000, q3, r0 + 0x100 * r1 + 0x1_0000 * r2);
    DivMod(q3, 0x100, 0, q3);
  }

  /** Byte `i` of `data`, zero past its end. */
  function ByteAt(data: seq<byte>, i: nat): byte
  {
    if i < |data| then data[i] else 0
  }

  /** Word `j` of `data`, packed little-endian and zero-padded. */
  function WordAt(data: seq<byte>, j: nat): uint32
  {
    Join4(ByteAt(data, 4 * j), ByteAt(data, 4 * j + 1), ByteAt(data, 4 * j + 2), ByteAt(data, 4 * j + 3))
  }

  /** `ceil(n / 4)`: the words `n` bytes fill. */
  function WordCount(n: nat): (m: nat)
    ensures 4 * m >= n && 4 * m < n + 4
  {
    if n % 4 == 0 then n / 4 else n / 4 + 1
  }

  /** The words `_ToUInt32Array(data, includeLength)` returns: `data` packed little-endian,
    * then its length when asked for. */
  function Packed(data: seq<byte>, includeLength: bool): (r: seq<uint32>)
    requires |data| < 0x8000_0000
    ensures |r| == WordCount(|data|) + (if includeLength then 1 else 0)
  {
    var count: uint32 := |data|;
    seq(WordCount(|data|), j requires 0 <= j => WordAt(data, j)) + (if includeLength then [count] else [])
  }

  /** `(int) x`: the bits of a `uint` read as a signed `int`. */
  function SignedOf(x: uint32): int
  {
    if x < 0x8000_0000 then x else x - TwoTo32
  }

  /** `n << 2` on an `int`: the product by four, wrapped to 32 signed bits. */
  function TimesFour(n: nat): int
  {
    SignedOf((4 * n) % TwoTo32)
  }

  /** The bytes `_ToByteArray(data, includeLength)` returns: as many as the last word says,
    * or four per word, each taken from its word little-endian. `data[-1]` throws, a negative
    * count throws when the array is allocated, and a count past the words throws when the
    * loop reads past the last word. */
  function Unpacked(data: seq<uint32>, includeLength: bool): (r: Result<seq<byte>>)
    ensures r.Ok? ==> |r.value| <= 4 * |data|
    ensures r.Ok? ==> forall i :: 0 <= i < |r.value| ==> r.value[i] == ByteOf(data[i / 4], i % 4)
    ensures includeLength && |data| > 0 ==>
      (r.Ok? <==> 0 <= SignedOf(data[|data| - 1]) <= 4 * |data|)
    ensures includeLength && |data| > 0 && r.Ok? ==> |r.value| == SignedOf(data[|data| - 1])
    ensures !includeLength && 4 * |data| < 0x8000_0000 ==> r.Ok? && |r.value| == 4 * |data|
  {
    if includeLength && |data| == 0 then Err(ArgumentOutOfRange)
    else
      var n := if includeLength then SignedOf(data[|data| - 1]) else TimesFour(|data|);
      if n < 0 then Err(Overflow)
      else if n > 4 * |data| then Err(ArgumentOutOfRange)
      else Ok(seq(n, i requires 0 <= i < n => ByteOf(data[i / 4], i % 4)))
  }

  /** Byte `i % 4` of packed word `i / 4` is byte `i` of the data, zero past its end. */
  lemma WordBytes(data: seq<byte>, i: nat)
    ensures ByteOf(WordAt(data, i / 4), i % 4) == ByteAt(data, i)
  {
    DivMod(i, 4, i / 4, i % 4);
    WordByte(data, i / 4, i % 4);
  }

  /** `WordBytes` for byte `c` of word `j`. */
  lemma WordByte(data: seq<byte>, j: nat, c: nat)
    requires c < 4
    ensures ByteOf(WordAt(data, j), c) == ByteAt(data, 4 * j + c)
  {
    ByteOfJoin4(ByteAt(data, 4 * j), ByteAt(data, 4 * j + 1), ByteAt(data, 4 * j + 2), ByteAt(data, 4 * j + 3));
  }

  /** The packed layout: byte `i` of the data is byte `i % 4` of word `i / 4`, the padding
    * bytes of the last word are zero, and the length word holds the byte count. */
  lemma PackedLayout(data: seq<byte>, includeLength: bool)
    requires |data| < 0x8000_0000
    ensures forall i :: 0 <= i < |data| ==> ByteOf(Packed(data, includeLength)[i / 4], i % 4) == data[i]
    ensures forall i :: |data| <= i < 4 * WordCount(|data|) ==> ByteOf(Packed(data, includeLength)[i / 4], i % 4) == 0
    ensures includeLength ==> Packed(data, includeLength)[WordCount(|data|)] == |data|
  {
    forall i | 0 <= i < 4 * WordCount(|data|)
      ensures ByteOf(Packed(data, includeLength)[i / 4], i % 4) == ByteAt(data, i)
    {
      WordBytes(data, i);
    }
  }

  /** Unpacking with the length word gives back exactly the packed bytes. */
  lemma UnpackPacked(data: seq<byte>)
    requires |data| < 0x8000_0000
    ensures Unpacked(Packed(data, true), true) == Ok(data)
  {
    var w := Packed(data, true);
    var r := Unpacked(w, true);
    assert SignedOf(w[|w| - 1]) == |data|;
    assert r.Ok? && |r.value| == |data|;
    forall i | 0 <= i < |data|
      ensures r.value[i] == data[i]
    {
      PackedWord(data, true, i);
    }
    assert r.value == data;
  }

  /** Byte `i` of the data sits in packed word `i / 4`. */
  lemma PackedWord(data: seq<byte>, includeLength: bool, i: nat)
    requires |data| < 0x8000_0000 && i < 4 * WordCount(|data|)
    ensures i / 4 < |Packed(data, includeLength)|
    ensures ByteOf(Packed(data, includeLength)[i / 4], i % 4) == ByteAt(data, i)
  {
    DivMod(i, 4, i / 4, i % 4);
    WordBytes(data, i);
  }

  /** Without the length word the bytes come back padded with zeros to a whole word. */
  lemma UnpackPackedPadded(data: seq<byte>)
    requires 4 * WordCount(|data|) < 0x8000_0000
    ensures Unpacked(Packed(data, false), false) == Ok(data + seq(4 * WordCount(|data|) - |data|, _ => 0))
  {
    var w := Packed(data, false);
    var r := Unpacked(w, false);
    var padded := data + seq(4 * WordCount(|data|) - |data|, _ => 0);
    assert r.Ok? && |r.value| == |padded|;
    forall i | 0 <= i < |padded|
      ensures r.value[i] == padded[i]
    {
      PackedWord(data, false, i);
    }
    assert r.value == padded;
  }

  /** Packing the bytes of whole words gives back the words. */
  lemma PackUnpacked(words: seq<uint32>)
    requires 4 * |words| < 0x8000_0000
    ensures Unpacked(words, false).Ok?
    ensures Packed(Unpacked(words, false).value, false) == words
  {
    var b := Unpacked(words, false).value;
    DivMod(|b|, 4, |words|, 0);
    forall j | 0 <= j < |words|
      ensures WordAt(b, j) == words[j]
    {
      DivMod(4 * j, 4, j, 0);
      DivMod(4 * j + 1, 4, j, 1);
      DivMod(4 * j + 2, 4, j, 2);
      DivMod(4 * j + 3, 4, j, 3);
      Join4OfBytes(words[j]);
    }
  }

  // ---------------------------------------------------------------------------------------
  // `_ToUInt32Array` and `_ToByteArray`

  /** Byte `t` of `data` once the first `i` bytes have been or-ed in, zero otherwise. */
  function Below(data: seq<byte>, i: nat, t: nat): byte
    requires i <= |data|
  {
    if t < i then data[t] else 0
  }

  /** Word `j` once the first `i` bytes have been or-ed in. */
  function Filled(data: seq<byte>, i: nat, j: nat): uint32
    requires i <= |data|
  {
    Join4(Below(data, i, 4 * j), Below(data, i, 4 * j + 1), Below(data, i, 4 * j + 2), Below(data, i, 4 * j + 3))
  }

  /** Or-ing byte `i` into its word fills that byte: the word's higher bytes are still zero. */
  lemma FillStep(data: seq<byte>, i: nat)
    requires i < |data|
    ensures Or(Filled(data, i, i / 4), ByteShift(data[i], i % 4)) == Filled(data, i + 1, i / 4)
  {
    DivMod(i, 4, i / 4, i % 4);
    FillByte(data, i / 4, i % 4);
  }

  /** `FillStep` for byte `c` of word `j`. */
  lemma FillByte(data: seq<byte>, j: nat, c: nat)
    requires c < 4 && 4 * j + c < |data|
    ensures Or(Filled(data, 4 * j + c, j), ByteShift(data[4 * j + c], c)) == Filled(data, 4 * j + c + 1, j)
  {
    FilledNext(data, j, c);
    OrByte(Filled(data, 4 * j + c, j), data[4 * j + c], c);
  }

  /** Or-ing a byte in above the bytes already there adds it. */
  lemma OrByte(w: nat, b: byte, c: nat)
    requires c < 4 && w < ByteWeight(c)
    ensures Or(w, ByteShift(b, c)) == w + ByteShift(b, c)
  {
    Pow2Bytes();
    if c == 0 {
      OrAboveAt(w, b, 0, 1);
    } else if c == 1 {
      OrAboveAt(w, b, 8, 0x100);
    } else if c == 2 {
      OrAboveAt(w, b, 16, 0x1_0000);
    } else {
      OrAboveAt(w, b, 24, 0x100_0000);
    }
  }

  lemma OrAboveAt(a: nat, b: nat, k: nat, m: nat)
    requires m == Pow2(k) && a < m
    ensures Or(a, m * b) == a + m * b
  {
    OrAbove(a, b, k);
  }

  /** Filling byte `i` leaves the other words as they are. */
  lemma FillKeeps(data: seq<byte>, i: nat)
    requires i < |data|
    ensures forall j :: j != i / 4 ==> Filled(data, i + 1, j) == Filled(data, i, j)
  {
    forall j | j != i / 4
      ensures Filled(data, i + 1, j) == Filled(data, i, j)
    {
      DivMod(i, 4, i / 4, i % 4);
    }
  }

  /** Before byte `c` of word `j` is filled, the word is below that byte; filling it adds
    * the byte in its place. */
  lemma FilledNext(data: seq<byte>, j: nat, c: nat)
    requires c < 4 && 4 * j + c < |data|
    ensures Filled(data, 4 * j + c, j) < ByteWeight(c)
    ensures Filled(data, 4 * j + c + 1, j) == Filled(data, 4 * j + c, j) + ByteShift(data[4 * j + c], c)
  {
  }

  /** `_ToUInt32Array(data, includeLength)` */
  method ToWordArray(data: array<byte>, includeLength: bool) returns (result: array<uint32>)
    requires data.Length < 0x8000_0000
    ensures fresh(result) && result[..] == Packed(data[..], includeLength)
  {
    var count := data.Length;
    var n := if count % 4 == 0 then count / 4 else count / 4 + 1;
    if includeLength {
      result := new uint32[n + 1](_ => 0);
      result[n] := count;
    } else {
      result := new uint32[n](_ => 0);
    }
    OrBytes(data, result, n);
    assert result[..] == Packed(data[..], includeLength);
  }

  /** `_ToUInt32Array`'s loop: or-s every byte into its place in the zeroed words `0 .. n - 1`. */
  method OrBytes(data: array<byte>, result: array<uint32>, n: nat)
    requires n == WordCount(data.Length) <= result.Length
    requires forall j :: 0 <= j < n ==> result[j] == 0
    modifies result
    ensures forall j :: 0 <= j < n ==> result[j] == WordAt(data[..], j)
    ensures forall j :: n <= j < result.Length ==> result[j] == old(result[j])
  {
    for i := 0 to data.Length
      invariant forall j :: 0 <= j < n ==> result[j] == Filled(data[..], i, j)
      invariant forall j :: n <= j < result.Length ==> result[j] == old(result[j])
    {
      FillStep(data[..], i);
      FillKeeps(data[..], i);
      result[i / 4] := Or(result[i / 4], ByteShift(data[i], i % 4));
    }
  }

  /** `_ToByteArray(data, includeLength)` */
  method ToByteArray(data: array<uint32>, includeLength: bool) returns (r: Result<array<byte>>)
    ensures r.Ok? ==> fresh(r.value) && Unpacked(data[..], includeLength) == Ok(r.value[..])
    ensures r.Err? ==> Unpacked(data[..], includeLength) == Err(r.error)
  {
    var n: int;
    if includeLength {
      if data.Length == 0 {
        return Err(ArgumentOutOfRange);
      }
      n := SignedOf(data[data.Length - 1]);
    } else {
      n := TimesFour(data.Length);
    }
    if n < 0 {
      return Err(Overflow);
    }
    if n > 4 * data.Length {
      return Err(ArgumentOutOfRange);
    }
    var result := new byte[n];
    for i := 0 to n
      invariant forall t :: 0 <= t < i ==> result[t] == ByteOf(data[t / 4], t % 4)
    {
      result[i] := ByteOf(data[i / 4], i % 4);
    }
    ghost var u := Unpacked(data[..], includeLength);
    assert u.Ok? && |u.value| == n;
    assert result[..] == u.value;
    return Ok(result);
  }

  // ---------------------------------------------------------------------------------------
  // Bytes in, bytes out

  /** The longest plaintext whose ciphertext length still fits an `int`. */
  const MaxPlain: nat := 0x7FFF_FFF8

  /** `Encrypt(data, key)`: the bytes and their count, enciphered, as bytes. */
  function EncryptBytes(data: seq<byte>, key: seq<byte>): Result<seq<byte>>
    requires |data| < 0x8000_0000 && |key| < 0x8000_0000
  {
    if |data| == 0 then Ok(data)
    else Unpacked(Enciphered(Packed(data, true), Packed(key, false)), false)
  }

  /** `Decrypt(data, key)`: the bytes deciphered, cut to the count in their last word. */
  function DecryptBytes(data: seq<byte>, key: seq<byte>): Result<seq<byte>>
    requires |data| < 0x8000_0000 && |key| < 0x8000_0000
  {
    if |data| == 0 then Ok(data)
    else Unpacked(Deciphered(Packed(data, false), Packed(key, false)), true)
  }

  /** A non-empty plaintext of `n` bytes enciphers to `4 * (ceil(n / 4) + 1)` bytes: whole
    * words and the length word. */
  lemma CipherLength(data: seq<byte>, key: seq<byte>)
    requires 0 < |data| <= MaxPlain && |key| < 0x8000_0000
    ensures EncryptBytes(data, key).Ok?
    ensures |EncryptBytes(data, key).value| == 4 * (WordCount(|data|) + 1)
  {
  }

  /** Decrypting with the same key gives back the plaintext. */
  lemma DecryptEncrypt(data: seq<byte>, key: seq<byte>)
    requires |data| <= MaxPlain && |key| < 0x8000_0000
    ensures EncryptBytes(data, key).Ok?
    ensures |EncryptBytes(data, key).value| < 0x8000_0000
    ensures DecryptBytes(EncryptBytes(data, key).value, key) == Ok(data)
  {
    if |data| > 0 {
      var w := Packed(data, true);
      var k := Packed(key, false);
      var e := Enciphered(w, k);
      CipherLength(data, key);
      PackUnpacked(e);
      DecipherEncipher(w, k);
      UnpackPacked(data);
    }
  }

  /** `XXTEAManaged`: the key the string helpers pass to the byte methods. */
  class XxteaManaged {
    var key: string

    constructor (key: string)
      ensures this.key == key
    {
      this.key := key;
    }

    /** `Encrypt(byte[] data, byte[] key)`: an empty array comes back as it is. */
    method Encrypt(data: array<byte>, key: array<byte>) returns (r: array<byte>)
      requires data.Length <= MaxPlain && key.Length < 0x8000_0000
      ensures data.Length == 0 ==> r == data
      ensures data.Length > 0 ==> fresh(r)
      ensures EncryptBytes(data[..], key[..]) == Ok(r[..])
    {
      if data.Length == 0 {
        return data;
      }
      var v := ToWordArray(data, true);
      var k := ToWordArray(key, false);
      v := EncryptWords(v, k[..]);
      CipherLength(data[..], key[..]);
      var b := ToByteArray(v, false);
      r := b.value;
    }

    /** `Decrypt(byte[] data, byte[] key)`: an empty array comes back as it is. */
    method Decrypt(data: array<byte>, key: array<byte>) returns (r: Result<array<byte>>)
      requires data.Length < 0x8000_0000 && key.Length < 0x8000_0000
      ensures data.Length == 0 ==> r == Ok(data)
      ensures r.Ok? && data.Length > 0 ==> fresh(r.value)
      ensures r.Ok? ==> DecryptBytes(data[..], key[..]) == Ok(r.value[..])
      ensures r.Err? ==> DecryptBytes(data[..], key[..]) == Err(r.error)
    {
      if data.Length == 0 {
        return Ok(data);
      }
      var v := ToWordArray(data, false);
      var k := ToWordArray(key, false);
      v := DecryptWords(v, k[..]);
      r := ToByteArray(v, true);
    }
  }
}
