/** `Slice<T>`: an offset/length window onto a shared array. The struct never copies the
  * array; two slices are equal when they view the same array object with the same window. */
module Slices {
  import opened Wrappers
  import Formats
  import Bits

  datatype Slice<T> = Slice(buffer: array?<T>, offset: int, length: int)

  /** `array?.Length ?? 0` */
  function Capacity<T>(a: array?<T>): nat
  {
    if a == null then 0 else a.Length
  }

  /** The guard of the constructor as written: `offset + length` is computed in 32-bit
    * `int`, so it wraps, and a negative offset or length is let through. */
  function CreateAsWritten<T>(a: array?<T>, offset: Formats.int32, length: Formats.int32): (r: Result<Slice<T>>)
    ensures r.Ok? <==> Formats.Wrap32(offset as int + length as int) as int <= Capacity(a)
    ensures r.Ok? ==> r.value.buffer == a && r.value.offset == offset as int && r.value.length == length as int
    ensures r.Err? ==> r.error == InvalidArgument
  {
    if Formats.Wrap32(offset as int + length as int) as int > Capacity(a) then Err(InvalidArgument)
    else Ok(Slice(a, offset as int, length as int))
  }

  /** The constructor as it is evidently meant: it accepts exactly the windows that lie
    * inside the array. The rest of the model builds its windows with this one. */
  function Create<T>(a: array?<T>, offset: int, length: int): (r: Result<Slice<T>>)
    ensures r.Ok? <==> 0 <= offset && 0 <= length && offset + length <= Capacity(a)
    ensures r.Ok? ==> r.value.buffer == a && r.value.offset == offset && r.value.length == length
    ensures r.Err? ==> r.error == InvalidArgument
  {
    if offset < 0 || length < 0 || offset + length > Capacity(a) then Err(InvalidArgument)
    else Ok(Slice(a, offset, length))
  }

  /** A window with a non-negative offset and length that lies inside the array. */
  predicate WellFormed<T>(s: Slice<T>)
  {
    0 <= s.offset && 0 <= s.length && s.offset + s.length <= Capacity(s.buffer)
  }

  /** The elements a well-formed window shows. */
  function Content<T>(s: Slice<T>): (r: seq<T>)
    reads s.buffer
    requires WellFormed(s)
    ensures |r| == s.length
  {
    if s.buffer == null then [] else s.buffer[s.offset .. s.offset + s.length]
  }

  /** `new Slice<T>(array)`: the whole array, or the empty window over `null`. */
  function Whole<T>(a: array?<T>): (s: Slice<T>)
    reads a
    ensures WellFormed(s) && s.buffer == a && s.offset == 0
    ensures Content(s) == if a == null then [] else a[..]
  {
    Slice(a, 0, Capacity(a))
  }

  /** The indexer getter `Array[Offset + index]`, with the sum computed exactly. */
  function Get<T>(s: Slice<T>, index: int): (r: Result<T>)
    reads s.buffer
    ensures r.Ok? <==> s.buffer != null && 0 <= s.offset + index < s.buffer.Length
    ensures r.Err? ==> r.error == (if s.buffer == null then NullReference else IndexOutOfRange)
    ensures WellFormed(s) && 0 <= index < s.length ==> r == Ok(Content(s)[index])
  {
    if s.buffer == null then Err(NullReference)
    else if 0 <= s.offset + index < s.buffer.Length then Ok(s.buffer[s.offset + index])
    else Err(IndexOutOfRange)
  }

  /** The indexer getter as written: `Offset + index` wraps in 32-bit `int`. */
  function GetAsWritten<T>(s: Slice<T>, index: Formats.int32): (r: Result<T>)
    reads s.buffer
    ensures r.Ok? <==> s.buffer != null && 0 <= Formats.Wrap32(s.offset + index as int) as int < s.buffer.Length
    ensures r.Err? ==> r.error == (if s.buffer == null then NullReference else IndexOutOfRange)
  {
    if s.buffer == null then Err(NullReference)
    else
      var at := Formats.Wrap32(s.offset + index as int) as int;
      if 0 <= at < s.buffer.Length then Ok(s.buffer[at]) else Err(IndexOutOfRange)
  }

  /** On a window inside an array whose length is an `int`, the wrapped and the exact
    * indexer agree for every `int` index: a sum past `int.MaxValue` wraps to a negative
    * position, which is out of range just as the exact sum is. */
  lemma GetAgrees<T>(s: Slice<T>, index: Formats.int32)
    requires WellFormed(s) && Capacity(s.buffer) < 0x8000_0000
    ensures GetAsWritten(s, index) == Get(s, index as int)
  {
    var sum := s.offset + index as int;
    if sum >= 0x8000_0000 {
      assert Formats.Wrap32(sum) as int == sum - Bits.TwoTo32 by {
        Formats.WrapShift(sum - Bits.TwoTo32, 1);
      }
    }
  }

  /** The indexer setter writes through to the shared array. */
  method Set<T>(s: Slice<T>, index: int, value: T) returns (r: Option<Failure>)
    modifies s.buffer
    ensures r == None <==> s.buffer != null && 0 <= s.offset + index < s.buffer.Length
    ensures r == None ==> s.buffer[..] == old(s.buffer[..])[s.offset + index := value]
    ensures r != None ==> s.buffer == null || s.buffer[..] == old(s.buffer[..])
  {
    if s.buffer == null {
      r := Some(NullReference);
    } else if 0 <= s.offset + index < s.buffer.Length {
      s.buffer[s.offset + index] := value;
      r := None;
    } else {
      r := Some(IndexOutOfRange);
    }
  }

  function SubSlice<T>(s: Slice<T>, relativeIndex: int, length: int): Result<Slice<T>>
  {
    Create(s.buffer, s.offset + relativeIndex, length)
  }

  function SubSliceStart<T>(s: Slice<T>, relativeIndex: int): Result<Slice<T>>
  {
    Create(s.buffer, s.offset, relativeIndex)
  }

  function SubSliceEnd<T>(s: Slice<T>, relativeIndex: int): Result<Slice<T>>
  {
    Create(s.buffer, s.offset + relativeIndex, s.length - relativeIndex)
  }

  function Clamp(x: int, lo: int, hi: int): int
  {
    if x < lo then lo else if x > hi then hi else x
  }

  /** Enumeration, `Array.Skip(Offset).Take(Length)`; `Skip` throws on a null array. */
  function Enumerate<T>(s: Slice<T>): (r: Result<seq<T>>)
    reads s.buffer
    ensures r.Err? <==> s.buffer == null
  {
    if s.buffer == null then Err(ArgumentNull)
    else
      var from := Clamp(s.offset, 0, s.buffer.Length);
      var count := Clamp(s.length, 0, s.buffer.Length - from);
      Ok(s.buffer[from .. from + count])
  }

  /** Slice equality: the same array reference, offset and length. */
  predicate Equals<T>(s: Slice<T>, t: Slice<T>)
  {
    s.buffer == t.buffer && s.offset == t.offset && s.length == t.length
  }

  lemma EqualsIsIdentity<T>(s: Slice<T>, t: Slice<T>)
    ensures Equals(s, t) <==> s == t
  {
  }

  /** On a well-formed window over an array, enumeration yields exactly `length` elements
    * starting at `offset`, and they are what the indexer reads. */
  lemma EnumerateWellFormed<T>(s: Slice<T>)
    requires WellFormed(s) && s.buffer != null
    ensures Enumerate(s) == Ok(Content(s))
    ensures |Content(s)| == s.length
    ensures forall i :: 0 <= i < s.length ==> Get(s, i) == Ok(s.buffer[s.offset + i])
  {
  }

  /** The window for `SubSlice(r, l)`, when it fits. */
  lemma SubSliceContent<T>(s: Slice<T>, r: int, l: int)
    requires WellFormed(s) && 0 <= r && 0 <= l && r + l <= s.length
    ensures SubSlice(s, r, l).Ok? && WellFormed(SubSlice(s, r, l).value)
    ensures Content(SubSlice(s, r, l).value) == Content(s)[r .. r + l]
  {
    if s.buffer != null {
      var v := s.buffer[s.offset .. s.offset + s.length][r .. r + l];
      assert forall j :: 0 <= j < l ==> v[j] == s.buffer[s.offset + r + j];
    }
  }

  /** Cutting a window at `k` into `SubSliceStart(k)` and `SubSliceEnd(k)` loses and
    * duplicates nothing. */
  lemma SplitAt<T>(s: Slice<T>, k: int)
    requires WellFormed(s) && 0 <= k <= s.length
    ensures SubSliceStart(s, k).Ok? && SubSliceEnd(s, k).Ok?
    ensures WellFormed(SubSliceStart(s, k).value) && WellFormed(SubSliceEnd(s, k).value)
    ensures Content(SubSliceStart(s, k).value) == Content(s)[..k]
    ensures Content(SubSliceEnd(s, k).value) == Content(s)[k..]
    ensures Content(SubSliceStart(s, k).value) + Content(SubSliceEnd(s, k).value) == Content(s)
  {
    SubSliceContent(s, 0, k);
    SubSliceContent(s, k, s.length - k);
    assert SubSliceStart(s, k) == SubSlice(s, 0, k) && SubSliceEnd(s, k) == SubSlice(s, k, s.length - k);
    var c := Content(s);
    assert c[0 .. k] == c[..k] && c[k .. k + (s.length - k)] == c[k..];
    assert c[..k] + c[k..] == c;
  }

  /** Because negative offsets pass the guard as written, the indexer and the enumeration
    * can disagree: the window (-1, 1) reads index -1 through the indexer but enumerates the
    * first element. */
  lemma NegativeOffsetDisagrees<T>(a: array<T>)
    requires a.Length >= 1
    ensures CreateAsWritten(a, -1, 1).Ok?
    ensures Get(CreateAsWritten(a, -1, 1).value, 0) == Err(IndexOutOfRange)
    ensures Enumerate(CreateAsWritten(a, -1, 1).value) == Ok([a[0]])
    ensures Create(a, -1, 1).Err?
  {
    assert a[0..1] == [a[0]];
  }

  /** `int.MaxValue + 1` wraps to `int.MinValue`, so the guard as written accepts a
    * one-element window at `int.MaxValue` over an empty array, or over `null`. */
  lemma GuardOverflow<T>(a: array?<T>)
    requires a == null || a.Length == 0
    ensures CreateAsWritten(a, 0x7FFF_FFFF, 1).Ok?
    ensures !WellFormed(CreateAsWritten(a, 0x7FFF_FFFF, 1).value)
    ensures Create(a, 0x7FFF_FFFF, 1).Err?
  {
    Formats.WrapShift(0x8000_0000 - Bits.TwoTo32, 1);
  }

  /** An offset of `int.MinValue` with length 0 passes the guard, and the wrapped indexer
    * then reads the first element at index `int.MinValue`. */
  lemma WrappedIndexReadsFirst<T>(a: array<T>)
    requires a.Length >= 1
    ensures CreateAsWritten(a, -0x8000_0000, 0).Ok?
    ensures GetAsWritten(CreateAsWritten(a, -0x8000_0000, 0).value, -0x8000_0000) == Ok(a[0])
    ensures Get(CreateAsWritten(a, -0x8000_0000, 0).value, -0x8000_0000) == Err(IndexOutOfRange)
  {
    Formats.WrapShift(-0x1_0000_0000, 1);
  }

  /** Where `offset + length` neither wraps nor is negative in either part, the guard as
    * written and the intended one agree. */
  lemma CreateAgrees<T>(a: array?<T>, offset: Formats.int32, length: Formats.int32)
    requires 0 <= offset && 0 <= length && offset as int + length as int < 0x8000_0000
    ensures CreateAsWritten(a, offset, length) == Create(a, offset as int, length as int)
  {
  }
}
