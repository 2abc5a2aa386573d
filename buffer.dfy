/** The bounded drop-oldest sample buffer `ExtensibleBuffer<T>` and the
    untyped, tag-checked view `Buffer` (src/buffer.rs). */
module Buffers {
  import opened Rust
  import opened StreamFormats

  const BUFFER_SECS: nat := 2
  /** Capacity of every buffer: 192000 samples per second, two seconds. */
  const BUFFER_LENGTH: nat := 192_000 * BUFFER_SECS

  // ---------------------------------------------------------------------
  // Vec operations used by `extend`, on sequences.
  // ---------------------------------------------------------------------

  /** `Vec::rotate_left(mid)`: the first `mid` elements move, in order, to
      the end. Panics unless `mid <= v.len()`. */
  function RotateLeft<T>(v: seq<T>, mid: nat): (r: seq<T>)
    requires mid <= |v|
    ensures |r| == |v|
    ensures forall i :: 0 <= i < |v| - mid ==> r[i] == v[i + mid]
    ensures forall i :: |v| - mid <= i < |v| ==> r[i] == v[i + mid - |v|]
  {
    v[mid..] + v[..mid]
  }

  /** `Vec::splice(start.., items)`: everything from `start` on is replaced
      by `items`. Panics unless `start <= v.len()`. */
  function SpliceTail<T>(v: seq<T>, start: nat, items: seq<T>): (r: seq<T>)
    requires start <= |v|
    ensures |r| == start + |items|
    ensures r[..start] == v[..start] && r[start..] == items
  {
    v[..start] + items
  }

  /** The newest `n` elements of `s` (all of them when there are fewer),
      oldest first. */
  function Newest<T>(s: seq<T>, n: nat): (r: seq<T>)
    ensures |r| == Min(|s|, n)
    ensures r == s[|s| - |r|..]
  {
    if |s| <= n then s else s[|s| - n..]
  }

  /** The outcome of `extend(items, dataLen)` on a buffer whose vector holds
      `data`, with length field `len` and capacity `maxLen`: the new vector
      and length, or `None` where the Rust code panics (an unsigned
      subtraction below zero, or an out-of-bounds rotate, splice or slice). */
  function Extended<T>(data: seq<T>, len: nat, maxLen: nat, items: seq<T>, dataLen: nat): (r: Option<(seq<T>, nat)>)
    ensures r.Some? && len <= maxLen ==> r.value.1 <= maxLen
    decreases |items|
  {
    if items == [] then Some((data, len))
    else if len > maxLen then None
    else if len == maxLen then
      if dataLen <= maxLen && dataLen <= |data| && maxLen - dataLen <= |data| then
        Some((SpliceTail(RotateLeft(data, dataLen), maxLen - dataLen, items), len))
      else None
    else
      var usable := Min(dataLen, maxLen - len);
      if dataLen <= usable then Some((data + items, len + dataLen))
      else if usable > |items| then None
      else Extended(data + items[..usable], len + usable, maxLen, items[usable..], dataLen - usable)
  }

  /** An empty burst changes nothing, whatever `dataLen` says. */
  lemma ExtendEmptyIsNoop<T>(data: seq<T>, len: nat, maxLen: nat, dataLen: nat)
    ensures Extended(data, len, maxLen, [], dataLen) == Some((data, len))
  {
  }

  /** Room for the whole burst: the burst is appended and `len` grows by
      `dataLen`. */
  lemma ExtendWithRoom<T>(data: seq<T>, len: nat, maxLen: nat, items: seq<T>, dataLen: nat)
    requires items != [] && len < maxLen && dataLen <= maxLen - len
    ensures Extended(data, len, maxLen, items, dataLen) == Some((data + items, len + dataLen))
  {
  }

  /** Full buffer: the `dataLen` oldest samples are dropped and the burst is
      put at the tail; `len` stays at capacity. */
  lemma ExtendWhenFull<T>(data: seq<T>, maxLen: nat, items: seq<T>, dataLen: nat)
    requires items != [] && |data| == maxLen
    ensures Extended(data, maxLen, maxLen, items, dataLen).Some? <==> dataLen <= maxLen
    ensures dataLen <= maxLen ==>
      Extended(data, maxLen, maxLen, items, dataLen) == Some((data[dataLen..] + items, maxLen))
  {
    if dataLen <= maxLen {
      var rotated := RotateLeft(data, dataLen);
      assert rotated[..maxLen - dataLen] == data[dataLen..];
    }
  }

  /** A burst larger than the free space first fills the buffer, then the
      rest goes through the full-buffer branch. */
  lemma ExtendStraddling<T>(data: seq<T>, len: nat, maxLen: nat, items: seq<T>, dataLen: nat)
    requires len < maxLen && maxLen - len < dataLen && maxLen - len < |items|
    ensures Extended(data, len, maxLen, items, dataLen)
         == Extended(data + items[..maxLen - len], maxLen, maxLen, items[maxLen - len..], dataLen - (maxLen - len))
  {
  }

  /** `len` moves independently of what the vector holds: it is unchanged by
      an empty burst and otherwise becomes `min(len + dataLen, maxLen)`. */
  lemma ExtendLen<T>(data: seq<T>, len: nat, maxLen: nat, items: seq<T>, dataLen: nat)
    requires len <= maxLen && Extended(data, len, maxLen, items, dataLen).Some?
    ensures Extended(data, len, maxLen, items, dataLen).value.1
         == if items == [] then len else Min(len + dataLen, maxLen)
  {
  }

  /** Net effect of `extend` on a full buffer whose vector holds exactly
      `maxLen` samples: it panics exactly when the burst is longer than the
      capacity, and otherwise keeps the newest `maxLen` samples. */
  lemma FullNetEffect<T>(data: seq<T>, maxLen: nat, items: seq<T>)
    requires |data| == maxLen && items != []
    ensures Extended(data, maxLen, maxLen, items, |items|).Some? <==> |items| <= maxLen
    ensures |items| <= maxLen ==>
      Extended(data, maxLen, maxLen, items, |items|) == Some((Newest(data + items, maxLen), maxLen))
  {
    ExtendWhenFull(data, maxLen, items, |items|);
    if |items| <= maxLen {
      assert (data + items)[|items|..] == data[|items|..] + items;
    }
  }

  /** Net effect of `extend` on a non-full buffer with room for the whole
      burst: the burst is appended. */
  lemma RoomNetEffect<T>(data: seq<T>, maxLen: nat, items: seq<T>)
    requires |data| < maxLen && items != [] && |items| <= maxLen - |data|
    ensures Extended(data, |data|, maxLen, items, |items|)
         == Some((Newest(data + items, maxLen), Min(|data| + |items|, maxLen)))
  {
    ExtendWithRoom(data, |data|, maxLen, items, |items|);
  }

  /** Net effect of `extend` on a non-full buffer when the burst is larger
      than the free space: the buffer fills, then the rest goes through the
      full-buffer branch. */
  lemma StraddleNetEffect<T>(data: seq<T>, maxLen: nat, items: seq<T>)
    requires |data| < maxLen && maxLen - |data| < |items|
    ensures Extended(data, |data|, maxLen, items, |items|).Some? <==> |items| <= 2 * maxLen - |data|
    ensures |items| <= 2 * maxLen - |data| ==>
      Extended(data, |data|, maxLen, items, |items|) == Some((Newest(data + items, maxLen), maxLen))
  {
    var usable := maxLen - |data|;
    var filled, rest := data + items[..usable], items[usable..];
    assert filled + rest == data + items by {
      assert items[..usable] + rest == items;
    }
    ExtendStraddling(data, |data|, maxLen, items, |items|);
    FullNetEffect(filled, maxLen, rest);
  }

  /** Net effect of `extend` when the vector holds exactly `len` samples and
      the burst holds exactly `dataLen`: it panics exactly when the burst is
      longer than capacity plus free space, and otherwise keeps the newest
      `maxLen` samples of old and new together, with `len` matching. */
  lemma ExtendNetEffect<T>(data: seq<T>, maxLen: nat, items: seq<T>)
    requires |data| <= maxLen
    ensures Extended(data, |data|, maxLen, items, |items|).Some? <==> |items| <= 2 * maxLen - |data|
    ensures |items| <= 2 * maxLen - |data| ==>
      Extended(data, |data|, maxLen, items, |items|)
        == Some((Newest(data + items, maxLen), Min(|data| + |items|, maxLen)))
  {
    if items == [] {
      assert data + items == data;
    } else if |data| == maxLen {
      FullNetEffect(data, maxLen, items);
    } else if |items| <= maxLen - |data| {
      RoomNetEffect(data, maxLen, items);
    } else {
      StraddleNetEffect(data, maxLen, items);
    }
  }



  /** Keeping the newest `n` twice is keeping the newest `n` once. */
  lemma NewestOfNewest<T>(s: seq<T>, t: seq<T>, n: nat)
    ensures Newest(Newest(s, n) + t, n) == Newest(s + t, n)
  {
    var k := |s| - |Newest(s, n)|;
    assert s + t == s[..k] + (Newest(s, n) + t);
  }

  /** Flattening a sequence of bursts into one stream of samples. */
  function Concat<T>(bursts: seq<seq<T>>): (r: seq<T>)
    ensures bursts == [] ==> r == []
  {
    if bursts == [] then [] else bursts[0] + Concat(bursts[1..])
  }

  /** Feeding bursts one after the other to `extend`, as the capture loop does. */
  function ExtendAll<T>(data: seq<T>, len: nat, maxLen: nat, bursts: seq<seq<T>>): Option<(seq<T>, nat)>
    decreases |bursts|
  {
    if bursts == [] then Some((data, len))
    else match Extended(data, len, maxLen, bursts[0], |bursts[0]|)
      case None => None
      case Some(next) => ExtendAll(next.0, next.1, maxLen, bursts[1..])
  }

  /** Newest of the newest, across one more burst and the rest. */
  lemma NewestAcross<T>(data: seq<T>, b: seq<T>, rest: seq<T>, maxLen: nat)
    ensures Newest(Newest(data + b, maxLen) + rest, maxLen) == Newest(data + (b + rest), maxLen)
    ensures Min(|Newest(data + b, maxLen) + rest|, maxLen) == Min(|data + (b + rest)|, maxLen)
  {
    NewestOfNewest(data + b, rest, maxLen);
    assert data + b + rest == data + (b + rest);
  }

  /** However the bursts are sized (each at most the capacity), the buffer
      ends up holding the newest `maxLen` samples of everything it has seen,
      oldest first. */
  lemma {:induction false} ExtendAllKeepsNewest<T>(data: seq<T>, maxLen: nat, bursts: seq<seq<T>>)
    requires |data| <= maxLen
    requires forall i :: 0 <= i < |bursts| ==> |bursts[i]| <= maxLen
    decreases |bursts|
    ensures ExtendAll(data, |data|, maxLen, bursts)
         == Some((Newest(data + Concat(bursts), maxLen), Min(|data + Concat(bursts)|, maxLen)))
  {
    if bursts == [] {
      assert data + Concat(bursts) == data;
    } else {
      var b, rest := bursts[0], Concat(bursts[1..]);
      var next := Newest(data + b, maxLen);
      var nextLen: nat := |next|;
      ExtendNetEffect(data, maxLen, b);
      assert ExtendAll(data, |data|, maxLen, bursts) == ExtendAll(next, nextLen, maxLen, bursts[1..]);
      forall i | 0 <= i < |bursts[1..]|
        ensures |bursts[1..][i]| <= maxLen
      {
        assert bursts[1..][i] == bursts[i + 1];
      }
      ExtendAllKeepsNewest(next, maxLen, bursts[1..]);
      NewestAcross(data, b, rest, maxLen);
      assert Concat(bursts) == b + rest;
    }
  }

  /** A buffer of ten samples fed two bursts of four holds all eight. */
  lemma TwoBurstsScenario()
    ensures ExtendAll([], 0, 10, [[1, 2, 3, 4], [5, 6, 7, 8]]) == Some(([1, 2, 3, 4, 5, 6, 7, 8], 8))
  {
    var bursts: seq<seq<int>> := [[1, 2, 3, 4], [5, 6, 7, 8]];
    ExtendAllKeepsNewest([], 10, bursts);
    assert Concat(bursts) == [1, 2, 3, 4, 5, 6, 7, 8] by {
      assert bursts[1..][1..] == [];
    }
    assert [] + Concat(bursts) == Concat(bursts);
  }

  /** A third burst of four overflows it: the two oldest samples go and the
      newest ten of the twelve remain, oldest first. */
  lemma ThreeBurstsScenario()
    ensures ExtendAll([], 0, 10, [[1, 2, 3, 4], [5, 6, 7, 8], [9, 10, 11, 12]])
         == Some(([3, 4, 5, 6, 7, 8, 9, 10, 11, 12], 10))
  {
    var bursts: seq<seq<int>> := [[1, 2, 3, 4], [5, 6, 7, 8], [9, 10, 11, 12]];
    ExtendAllKeepsNewest([], 10, bursts);
    assert Concat(bursts) == [1, 2, 3, 4, 5, 6, 7, 8, 9, 10, 11, 12] by {
      assert bursts[1..][1..][1..] == [];
      assert Concat(bursts[1..][1..]) == [9, 10, 11, 12];
      assert Concat(bursts[1..]) == [5, 6, 7, 8, 9, 10, 11, 12];
    }
    assert [] + Concat(bursts) == Concat(bursts);
  }

  // ---------------------------------------------------------------------
  // ExtensibleBuffer<T>
  // ---------------------------------------------------------------------

  class ExtensibleBuffer<T> {
    var data: seq<T>
    var len: nat
    const maxLen: nat
    const sampleFormat: SampleFormat

    /** The bound every operation keeps: `len` never exceeds the capacity. */
    ghost predicate Valid()
      reads this
    {
      len <= maxLen
    }

    /** The vector holds exactly `len` samples. */
    predicate Consistent()
      reads this
    {
      |data| == len
    }

    /** `ExtensibleBuffer::new`: wraps `data`; it does not check `data`
        against the capacity. */
    constructor New(data: seq<T>, sampleFormat: SampleFormat)
      ensures this.data == data && len == |data| && Consistent()
      ensures maxLen == BUFFER_LENGTH && this.sampleFormat == sampleFormat
      ensures Valid() <==> |data| <= BUFFER_LENGTH
    {
      this.data := data;
      len := |data|;
      maxLen := BUFFER_LENGTH;
      this.sampleFormat := sampleFormat;
    }

    /** `ExtensibleBuffer::from_raw_parts`: takes the first `len` samples
        readable at the pointer (`memory`); asserts `len <= BUFFER_LENGTH`. */
    constructor FromRawParts(memory: seq<T>, len: nat, sampleFormat: SampleFormat)
      requires len <= BUFFER_LENGTH
      requires len <= |memory|
      ensures data == memory[..len] && this.len == len
      ensures maxLen == BUFFER_LENGTH && this.sampleFormat == sampleFormat
      ensures Valid() && Consistent()
    {
      data := memory[..len];
      this.len := len;
      maxLen := BUFFER_LENGTH;
      this.sampleFormat := sampleFormat;
    }

    function Len(): (r: nat)
      reads this
      ensures Consistent() ==> r == |data|
    {
      len
    }

    function IsEmpty(): (r: bool)
      reads this
      ensures r <==> len == 0
      ensures Consistent() ==> (r <==> data == [])
    {
      len == 0
    }

    /** `len_unused_buffer`: free space; the unsigned subtraction panics if
        `len` exceeds the capacity. */
    function LenUnusedBuffer(): (r: nat)
      reads this
      requires len <= maxLen
      ensures len + r == maxLen
    {
      maxLen - len
    }

    function HasUnusedBuffer(): (r: bool)
      reads this
      requires len <= maxLen
      ensures r <==> len < maxLen
    {
      LenUnusedBuffer() > 0
    }

    /** `as_slice`: the first `len` samples, or `None` when `len` exceeds the
        vector. */
    function AsSlice(): (r: Option<seq<T>>)
      reads this
      ensures r.None? <==> len > |data|
      ensures r.Some? ==> |r.value| == len && r.value <= data
      ensures Consistent() ==> r == Some(data)
    {
      if len > |data| then None
      else
        assert Consistent() ==> data[0..len] == data;
        Some(data[0..len])
    }

    /** `extend(items, dataLen)`, branch for branch: rotate and splice when
        full, append when there is room, fill-then-recurse otherwise. */
    method Extend(items: seq<T>, dataLen: nat)
      requires Valid()
      requires Extended(data, len, maxLen, items, dataLen).Some?
      modifies this
      ensures Valid()
      ensures Extended(old(data), old(len), maxLen, items, dataLen) == Some((data, len))
      ensures old(Consistent()) && |items| == dataLen ==>
        Consistent() && data == Newest(old(data) + items, maxLen)
      decreases |items|
    {
      ghost var data0, len0 := data, len;
      if |data| == len && |items| == dataLen {
        ExtendNetEffect(data, maxLen, items);
      }
      if items != [] {
        if !HasUnusedBuffer() {
          var startIndex := maxLen - dataLen;
          data := RotateLeft(data, dataLen);
          data := SpliceTail(data, startIndex, items);
          assert Extended(data0, len0, maxLen, items, dataLen) == Some((data, len));
        } else {
          var usable := Min(dataLen, LenUnusedBuffer());
          if dataLen <= usable {
            data := data + items;
            len := len + dataLen;
            assert Extended(data0, len0, maxLen, items, dataLen) == Some((data, len));
          } else {
            data := data + items[..usable];
            len := len + usable;
            assert Extended(data0, len0, maxLen, items, dataLen) == Extended(data, len, maxLen, items[usable..], dataLen - usable);
            Extend(items[usable..], dataLen - usable);
          }
        }
      }
    }
  }

  // ---------------------------------------------------------------------
  // Buffer: an untyped view of raw sample memory with a format tag.
  // ---------------------------------------------------------------------

  /** `memory` stands for the bytes readable at the raw data pointer. */
  datatype Buffer = Buffer(memory: seq<UInt8>, len: nat, sampleFormat: SampleFormat)
  {
    /** `Buffer::bytes`: the first `len * sample_size` bytes; reading past
        the memory behind the pointer is undefined behaviour. */
    function Bytes(): (r: seq<UInt8>)
      requires len * SampleSize(sampleFormat) <= |memory|
      ensures |r| == len * SampleSize(sampleFormat)
      ensures r <= memory
    {
      memory[..len * SampleSize(sampleFormat)]
    }

    /** `Buffer::as_slice::<T>`: the same memory seen as `len` samples of
        `T`, provided `T::FORMAT` is the stored format. */
    function AsSlice(target: SampleFormat): (r: Option<seq<UInt8>>)
      requires target == sampleFormat ==> len * SampleSize(sampleFormat) <= |memory|
      ensures r.Some? <==> target == sampleFormat
      ensures r.Some? ==> r.value == Bytes() && |r.value| == len * SampleSize(target)
    {
      if target == sampleFormat then Some(Bytes()) else None
    }
  }

  /** `Buffer::from_raw_parts`: asserts `len <= BUFFER_LENGTH`, then records
      the full `BUFFER_LENGTH` as the length instead of `len`. */
  function BufferFromRawParts(memory: seq<UInt8>, len: nat, sampleFormat: SampleFormat): (b: Buffer)
    requires len <= BUFFER_LENGTH
    ensures b.memory == memory && b.sampleFormat == sampleFormat
    ensures b.len == BUFFER_LENGTH
  {
    Buffer(memory, BUFFER_LENGTH, sampleFormat)
  }

  /** A format mismatch is found without touching the memory, however
      short it is: in particular for the `Buffer` that `from_raw_parts`
      builds from fewer than `BUFFER_LENGTH` samples. */
  lemma MismatchedFormatReadsNothing(memory: seq<UInt8>, len: nat, stored: SampleFormat, target: SampleFormat)
    requires len <= BUFFER_LENGTH && target != stored
    ensures BufferFromRawParts(memory, len, stored).AsSlice(target) == None
  {
  }

  /** Consequently `len` and `bytes` do not reflect the length given: a view
      built from fewer than `BUFFER_LENGTH` samples still spans
      `BUFFER_LENGTH` samples of memory. */
  lemma BufferLenIgnoresArgument(memory: seq<UInt8>, len: nat, sampleFormat: SampleFormat)
    requires len < BUFFER_LENGTH
    requires BUFFER_LENGTH * SampleSize(sampleFormat) <= |memory|
    ensures BufferFromRawParts(memory, len, sampleFormat).len != len
    ensures |BufferFromRawParts(memory, len, sampleFormat).Bytes()| > len * SampleSize(sampleFormat)
  {
  }
}
