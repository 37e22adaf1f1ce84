/** `Hasher`: builds a hash code from a series of values, multiplying what it has by 37
  * and adding the next value's hash, in 32-bit arithmetic that wraps around. */
module Hashers {
  import opened Wrappers
  import opened Bits
  import opened Formats
  import opened MathUtils

  /** One step of the hash: `37 * hashCode + value`, wrapped. */
  function Combine(hashCode: int32, value: int32): int32
  {
    Wrap32(37 * hashCode as int + value as int)
  }

  /** The hash code after combining the values in order. */
  function Fold(hashCode: int32, values: seq<int32>): int32
  {
    if |values| == 0 then hashCode
    else Combine(Fold(hashCode, values[..|values| - 1]), values[|values| - 1])
  }

  /** The same without wrapping: the values as digits in base 37 under the starting hash
    * code. */
  function Polynomial(hashCode: int, values: seq<int32>): int
  {
    if |values| == 0 then hashCode
    else 37 * Polynomial(hashCode, values[..|values| - 1]) + values[|values| - 1] as int
  }

  /** `bool.GetHashCode()`: 1 for true, 0 for false. */
  function BoolHash(b: bool): int32
  {
    if b then 1 else 0
  }

  /** `long.GetHashCode()`: the low 32 bits exclusive-or the high 32 bits, read as an
    * `int`. */
  function LongHash(v: int64): (r: int32)
  {
    var lo := v as int % TwoTo32;
    var hi := (v as int / TwoTo32) % TwoTo32;
    Pow2Bytes();
    XorBelow(lo, hi, 32);
    var x := Xor(lo, hi);
    if x < 0x8000_0000 then x as int32 else (x - TwoTo32) as int32
  }

  /** A `long` that fits in an `int` hashes to itself when it is not negative... */
  lemma LongHashNonNegative(v: int64)
    requires 0 <= v < 0x8000_0000
    ensures LongHash(v) as int == v as int
  {
    assert v as int % TwoTo32 == v as int;
    assert (v as int / TwoTo32) % TwoTo32 == 0;
  }

  /** ...and to its complement when it is negative. */
  lemma LongHashNegative(v: int64)
    requires -0x8000_0000 <= v < 0
    ensures LongHash(v) as int == -1 - v as int
  {
    Pow2Bytes();
    assert v as int % TwoTo32 == v as int + TwoTo32;
    assert (v as int / TwoTo32) % TwoTo32 == TwoTo32 - 1;
    XorOnes(v as int + TwoTo32, 32);
  }

  /** `obj?.GetHashCode() ?? -1`: a missing value hashes to -1. */
  function ValueHash<T>(obj: Option<T>, hash: T -> int32): (r: int32)
    ensures obj.None? ==> r == -1
  {
    if obj.None? then -1 else hash(obj.value)
  }

  /** The hashes of a sequence of values, each by `ValueHash`. */
  function ValueHashes<T>(values: seq<Option<T>>, hash: T -> int32): (r: seq<int32>)
    ensures |r| == |values| && forall i :: 0 <= i < |values| ==> r[i] == ValueHash(values[i], hash)
  {
    if |values| == 0 then [] else ValueHashes(values[..|values| - 1], hash) + [ValueHash(values[|values| - 1], hash)]
  }

  /** The hashes of a sequence of values that cannot be missing. */
  function Hashes<T>(values: seq<T>, hash: T -> int32): (r: seq<int32>)
    ensures |r| == |values| && forall i :: 0 <= i < |values| ==> r[i] == hash(values[i])
  {
    if |values| == 0 then [] else Hashes(values[..|values| - 1], hash) + [hash(values[|values| - 1])]
  }

  class Hasher {
    var hashCode: int32

    /** `new Hasher()`: the hash code starts at 17. */
    constructor ()
      ensures hashCode == 17
    {
      hashCode := 17;
    }

    /** `new Hasher(seed)` */
    constructor WithSeed(seed: int32)
      ensures hashCode == seed
    {
      hashCode := seed;
    }

    /** `GetHashCode()`: the hash code so far, without changing it. */
    method GetHashCode() returns (r: int32)
      ensures r == hashCode
    {
      r := hashCode;
    }

    /** `Hash(bool)` */
    method HashBool(obj: bool) returns (r: Hasher)
      modifies this
      ensures r == this && hashCode == Fold(old(hashCode), [BoolHash(obj)])
    {
      hashCode := Combine(hashCode, BoolHash(obj));
      r := this;
    }

    /** `Hash(int)`: an `int` is its own hash. */
    method HashInt(obj: int32) returns (r: Hasher)
      modifies this
      ensures r == this && hashCode == Fold(old(hashCode), [obj])
    {
      hashCode := Combine(hashCode, obj);
      r := this;
    }

    /** `Hash(long)` */
    method HashLong(obj: int64) returns (r: Hasher)
      modifies this
      ensures r == this && hashCode == Fold(old(hashCode), [LongHash(obj)])
    {
      hashCode := Combine(hashCode, LongHash(obj));
      r := this;
    }

    /** `Hash<T>(T?)` and `Hash(object)`: the value's own hash, or -1 when it is missing. */
    method HashValue<T>(obj: Option<T>, hash: T -> int32) returns (r: Hasher)
      modifies this
      ensures r == this && hashCode == Fold(old(hashCode), [ValueHash(obj, hash)])
    {
      hashCode := Combine(hashCode, ValueHash(obj, hash));
      r := this;
    }

    /** `HashElements(sequence)`: each element in order as `HashValue` would take it, or
      * a single -1 for a missing sequence. */
    method HashElements<T>(sequence: Option<seq<Option<T>>>, hash: T -> int32) returns (r: Hasher)
      modifies this
      ensures r == this
      ensures sequence.None? ==> hashCode == Fold(old(hashCode), [-1])
      ensures sequence.Some? ==> hashCode == Fold(old(hashCode), ValueHashes(sequence.value, hash))
    {
      if sequence.None? {
        hashCode := Combine(hashCode, -1);
      } else {
        var values := sequence.value;
        for i := 0 to |values|
          invariant hashCode == Fold(old(hashCode), ValueHashes(values[..i], hash))
        {
          assert values[..i + 1][..i] == values[..i];
          hashCode := Combine(hashCode, ValueHash(values[i], hash));
        }
        assert values[..|values|] == values;
      }
      r := this;
    }

    /** `HashStructElements(sequence)`: each element's own hash in order. */
    method HashStructElements<T>(sequence: seq<T>, hash: T -> int32) returns (r: Hasher)
      modifies this
      ensures r == this && hashCode == Fold(old(hashCode), Hashes(sequence, hash))
    {
      for i := 0 to |sequence|
        invariant hashCode == Fold(old(hashCode), Hashes(sequence[..i], hash))
      {
        assert sequence[..i + 1][..i] == sequence[..i];
        hashCode := Combine(hashCode, hash(sequence[i]));
      }
      assert sequence[..|sequence|] == sequence;
      r := this;
    }
  }

  /** Wrapping once at the end is the same as wrapping at every step. */
  lemma WrapCombine(x: int, v: int32)
    ensures Combine(Wrap32(x), v) == Wrap32(37 * x + v as int)
  {
    var k := (Wrap32(x) as int - x) / TwoTo32;
    assert Wrap32(x) as int == x + TwoTo32 * k;
    assert 37 * Wrap32(x) as int + v as int == 37 * x + v as int + TwoTo32 * (37 * k);
    WrapShift(37 * x + v as int, 37 * k);
  }

  /** The hash code is the base-37 polynomial of the values under the starting code,
    * taken modulo 2^32. */
  lemma {:induction false} FoldIsPolynomial(hashCode: int32, values: seq<int32>)
    ensures Fold(hashCode, values) == Wrap32(Polynomial(hashCode as int, values))
  {
    if |values| == 0 {
      assert (((hashCode as int + 0x8000_0000) % TwoTo32) - 0x8000_0000) == hashCode as int;
    } else {
      var n := |values| - 1;
      FoldIsPolynomial(hashCode, values[..n]);
      WrapCombine(Polynomial(hashCode as int, values[..n]), values[n]);
    }
  }

  /** Hashing one sequence and then another is hashing the two together, so a series of
    * `Hash` calls gives the hash of everything in order. */
  lemma {:induction false} FoldAppend(hashCode: int32, a: seq<int32>, b: seq<int32>)
    ensures Fold(hashCode, a + b) == Fold(Fold(hashCode, a), b)
    decreases |b|
  {
    if |b| == 0 {
      assert a + b == a;
    } else {
      var n := |b| - 1;
      FoldAppend(hashCode, a, b[..n]);
      assert (a + b)[..|a + b| - 1] == a + b[..n];
    }
  }

  /** A missing sequence and a sequence of one missing value hash alike, and an empty
    * sequence leaves the hash code as it was. */
  lemma ElementsEdgeCases<T>(hashCode: int32, hash: T -> int32)
    ensures Fold(hashCode, ValueHashes([None], hash)) == Fold(hashCode, [-1])
    ensures Fold(hashCode, ValueHashes([], hash)) == hashCode
  {
    assert ValueHashes([None], hash) == [-1];
  }

  /** `new Hasher().Hash(1).Hash(2)` gives 37 * (37 * 17 + 1) + 2. */
  method HashOneTwo() returns (code: int32)
    ensures code == 23312
  {
    var h := new Hasher();
    var _ := h.HashInt(1);
    var _ := h.HashInt(2);
    code := h.GetHashCode();
  }
}
