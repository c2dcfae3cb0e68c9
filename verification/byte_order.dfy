/** `SwapByteOrder`: conversion of a buffer of fixed-size values between
    big- and little-endian order by reversing each value's bytes in place. */
module ByteOrder {

  newtype byte = x: int | 0 <= x < 256

  /** `s` back to front. */
  function Reverse(s: seq<byte>): (r: seq<byte>)
    ensures |r| == |s|
    ensures forall k :: 0 <= k < |s| ==> r[k] == s[|s| - 1 - k]
  {
    seq(|s|, k requires 0 <= k < |s| => s[|s| - 1 - k])
  }

  lemma ReverseReverse(s: seq<byte>)
    ensures Reverse(Reverse(s)) == s
  {
  }

  /** Every full chunk of `size` bytes reversed, from the front; the bytes
      after the last full chunk stay as they are. */
  function SwapChunks(b: seq<byte>, size: int): (r: seq<byte>)
    requires size >= 2
    ensures |r| == |b|
    decreases |b|
  {
    if |b| < size then b else Reverse(b[..size]) + SwapChunks(b[size..], size)
  }

  /** What `SwapByteOrder` leaves in the buffer: for values of fewer than
      two bytes nothing changes; otherwise the first `bufSize` bytes are
      swapped chunk by chunk. */
  function Swapped(buf: seq<byte>, size: int, bufSize: int): (r: seq<byte>)
    requires bufSize <= |buf|
    ensures |r| == |buf|
  {
    if size < 2 || bufSize <= 0 then buf else SwapChunks(buf[..bufSize], size) + buf[bufSize..]
  }

  /** The in-place loop of the source, on a copy of the buffer. The outer
      loop visits the `bufSize / size` full chunks (while a whole chunk
      still fits before `bufSize`); the inner loop exchanges the bytes at
      offsets `j` and `size - 1 - j` of the chunk. */
  method SwapByteOrder(buf: seq<byte>, size: int, bufSize: int) returns (out: seq<byte>)
    requires bufSize <= |buf|
    ensures out == Swapped(buf, size, bufSize)
  {
    if size < 2 {
      return buf;
    }
    var a := new byte[|buf|](k requires 0 <= k < |buf| => buf[k]);
    var base := 0;
    while base + size <= bufSize
      invariant 0 <= base <= |buf| && (if bufSize > 0 then base <= bufSize else base == 0)
      invariant a.Length == |buf|
      invariant a[base..] == buf[base..]
      invariant bufSize > 0 ==> SwapChunks(buf[..bufSize], size) == a[..base] + SwapChunks(buf[base..bufSize], size)
      decreases bufSize - base
    {
      ghost var before := a[..];
      ReverseChunkInPlace(a, base, size);
      OuterStep(before, a[..], buf, base, size, bufSize);
      base := base + size;
    }
    out := a[..];
    OuterDone(out, buf, base, size, bufSize);
  }

  /** One pass of the outer loop keeps its invariant. */
  lemma OuterStep(before: seq<byte>, after: seq<byte>, buf: seq<byte>, base: int, size: int, bufSize: int)
    requires size >= 2 && 0 <= base && base + size <= bufSize <= |buf| == |before| == |after|
    requires before[base..] == buf[base..]
    requires SwapChunks(buf[..bufSize], size) == before[..base] + SwapChunks(buf[base..bufSize], size)
    requires after[base..base + size] == Reverse(before[base..base + size])
    requires after[..base] == before[..base] && after[base + size..] == before[base + size..]
    ensures after[base + size..] == buf[base + size..]
    ensures SwapChunks(buf[..bufSize], size) == after[..base + size] + SwapChunks(buf[base + size..bufSize], size)
  {
    var chunk := buf[base..base + size];
    var rest := buf[base..bufSize];
    var tail := SwapChunks(buf[base + size..bufSize], size);
    assert before[base..base + size] == chunk;
    assert rest[..size] == chunk && rest[size..] == buf[base + size..bufSize];
    assert SwapChunks(rest, size) == Reverse(chunk) + tail;
    assert after[..base + size] == before[..base] + Reverse(chunk) by {
      assert after[..base + size] == after[..base] + after[base..base + size];
    }
    assert before[base + size..] == buf[base + size..];
  }

  /** Once no whole chunk fits, the array holds the swapped buffer. */
  lemma OuterDone(a: seq<byte>, buf: seq<byte>, base: int, size: int, bufSize: int)
    requires size >= 2 && bufSize <= |buf| == |a| && 0 <= base <= |buf|
    requires if bufSize > 0 then base <= bufSize else base == 0
    requires base + size > bufSize
    requires a[base..] == buf[base..]
    requires bufSize > 0 ==> SwapChunks(buf[..bufSize], size) == a[..base] + SwapChunks(buf[base..bufSize], size)
    ensures a == Swapped(buf, size, bufSize)
  {
    assert a == a[..base] + a[base..];
    if bufSize > 0 {
      assert SwapChunks(buf[base..bufSize], size) == buf[base..bufSize];
      assert buf[base..] == buf[base..bufSize] + buf[bufSize..];
      assert a == (a[..base] + buf[base..bufSize]) + buf[bufSize..];
    } else {
      assert a == buf[0..] == buf;
    }
  }

  /** The inner loop: the bytes at offsets `j` and `size - 1 - j` of the
      chunk at `base` change places, for `j` below `size / 2`. */
  method ReverseChunkInPlace(a: array<byte>, base: int, size: int)
    requires size >= 2 && 0 <= base && base + size <= a.Length
    modifies a
    ensures a[base..base + size] == Reverse(old(a[base..base + size]))
    ensures a[..base] == old(a[..base]) && a[base + size..] == old(a[base + size..])
  {
    ghost var orig := a[..];
    var j := 0;
    while j < size / 2
      invariant 0 <= j <= size / 2
      invariant |orig| == a.Length
      invariant a[..base] == orig[..base]
      invariant a[base + size..] == orig[base + size..]
      invariant SwappedUpTo(a[..], orig, base, size, j)
    {
      var lo, hi := base + j, base + size - j - 1;
      assert 2 * (size / 2) <= size;
      ghost var prev := a[..];
      var tmp := a[lo];
      a[lo] := a[hi];
      a[hi] := tmp;
      SwapStep(prev, a[..], orig, base, size, j);
      j := j + 1;
    }
    ChunkReversed(a[..], orig, base, size);
  }

  /** The offsets below `j` and from `size - j` of the chunk at `base`
      already hold their mirror bytes; the rest are as they were. */
  ghost predicate SwappedUpTo(cur: seq<byte>, orig: seq<byte>, base: int, size: int, j: int)
    requires 0 <= base && base + size <= |cur| == |orig|
  {
    forall m :: base <= m < base + size ==> cur[m] == Expected(orig, base, size, j, m)
  }

  /** The byte at position `m` of the chunk once `j` exchanges are done. */
  ghost function Expected(orig: seq<byte>, base: int, size: int, j: int, m: int): byte
    requires 0 <= base <= m < base + size <= |orig|
  {
    if m - base < j || m - base >= size - j then orig[2 * base + size - 1 - m] else orig[m]
  }

  lemma SwapStep(prev: seq<byte>, cur: seq<byte>, orig: seq<byte>, base: int, size: int, j: int)
    requires 0 <= base && base + size <= |prev| == |cur| == |orig|
    requires 0 <= j && 2 * j + 1 < size
    requires SwappedUpTo(prev, orig, base, size, j)
    requires cur == prev[base + j := prev[base + size - j - 1]][base + size - j - 1 := prev[base + j]]
    ensures SwappedUpTo(cur, orig, base, size, j + 1)
  {
    var lo, hi := base + j, base + size - j - 1;
    assert prev[lo] == orig[lo] && prev[hi] == orig[hi];
    forall m | base <= m < base + size
      ensures cur[m] == Expected(orig, base, size, j + 1, m)
    {
      assert prev[m] == Expected(orig, base, size, j, m);
      if m == lo {
        assert cur[m] == prev[hi];
      } else if m == hi {
        assert cur[m] == prev[lo];
      } else {
        assert cur[m] == prev[m];
      }
    }
  }

  /** After the inner loop the chunk at `base` holds the reversed bytes. */
  lemma ChunkReversed(a: seq<byte>, buf: seq<byte>, base: int, size: int)
    requires size >= 2 && 0 <= base && base + size <= |a| == |buf|
    requires SwappedUpTo(a, buf, base, size, size / 2)
    ensures a[base..base + size] == Reverse(buf[base..base + size])
  {
    forall m | base <= m < base + size
      ensures a[m] == buf[2 * base + size - 1 - m]
    {
      if !(m - base < size / 2 || m - base >= size - size / 2) {
        assert m - base == size - 1 - (m - base);
      }
    }
  }

  /** Values of a single byte are left alone. */
  lemma SingleByteUnchanged(buf: seq<byte>, size: int, bufSize: int)
    requires bufSize <= |buf| && size < 2
    ensures Swapped(buf, size, bufSize) == buf
  {
  }

  /** One step of `SwapChunks`: the first chunk reversed, then the rest. */
  lemma SwapChunksFirst(b: seq<byte>, size: int)
    requires size >= 2 && |b| >= size
    ensures SwapChunks(b, size)[..size] == Reverse(b[..size])
    ensures SwapChunks(b, size)[size..] == SwapChunks(b[size..], size)
  {
    var r, t := Reverse(b[..size]), SwapChunks(b[size..], size);
    assert SwapChunks(b, size) == r + t;
    assert (r + t)[..size] == r;
    assert (r + t)[size..] == t;
  }

  /** Swapping twice gives the buffer back. */
  lemma {:induction false} SwapChunksTwice(b: seq<byte>, size: int)
    requires size >= 2
    ensures SwapChunks(SwapChunks(b, size), size) == b
    decreases |b|
  {
    if |b| >= size {
      var once := SwapChunks(b, size);
      var twice := SwapChunks(once, size);
      SwapChunksFirst(b, size);
      SwapChunksFirst(once, size);
      ReverseReverse(b[..size]);
      SwapChunksTwice(b[size..], size);
      assert twice[..size] == b[..size];
      assert twice[size..] == b[size..];
      assert twice == twice[..size] + twice[size..];
      assert b == b[..size] + b[size..];
    }
  }

  lemma SwappedTwice(buf: seq<byte>, size: int, bufSize: int)
    requires bufSize <= |buf|
    ensures Swapped(Swapped(buf, size, bufSize), size, bufSize) == buf
  {
    if size >= 2 && bufSize > 0 {
      var s := Swapped(buf, size, bufSize);
      assert s[..bufSize] == SwapChunks(buf[..bufSize], size);
      assert s[bufSize..] == buf[bufSize..];
      SwapChunksTwice(buf[..bufSize], size);
      assert buf == buf[..bufSize] + buf[bufSize..];
    }
  }

  /** Chunk `i` of the result is chunk `i` of the input reversed. */
  lemma {:induction false} ChunkIsReversed(b: seq<byte>, size: int, i: nat, base: nat)
    requires size >= 2 && base == i * size && base + size <= |b|
    ensures SwapChunks(b, size)[base..base + size] == Reverse(b[base..base + size])
    decreases i
  {
    SwapChunksFirst(b, size);
    var whole := SwapChunks(b, size);
    if i == 0 {
      assert whole[base..base + size] == whole[..size];
    } else {
      assert base - size == (i - 1) * size;
      ChunkIsReversed(b[size..], size, i - 1, base - size);
      assert whole[base..base + size] == whole[size..][base - size..base];
      assert b[size..][base - size..base] == b[base..base + size];
    }
  }

  /** The bytes after the last full chunk are not touched: the result
      agrees with the input from the first position that does not begin a
      full chunk. */
  lemma {:induction false} TailUnchanged(b: seq<byte>, size: int, i: nat, k: nat)
    requires size >= 2 && k == i * size && k <= |b| && |b| - k < size
    ensures SwapChunks(b, size)[k..] == b[k..]
    decreases i
  {
    if |b| >= size {
      var r := Reverse(b[..size]);
      var t := SwapChunks(b[size..], size);
      assert i > 0;
      assert k - size == (i - 1) * size;
      TailUnchanged(b[size..], size, i - 1, k - size);
      assert (r + t)[k..] == t[k - size..];
    }
  }
}
