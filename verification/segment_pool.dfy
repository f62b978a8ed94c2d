/**
 * BigBuffer and BufferSegment: one large byte array carved into equal
 * segments, the free ones kept on a LIFO stack (a ConcurrentStack in the
 * source). The same class appears in src/Service/NetworkHost.cs,
 * src/ServerHost.cs and ServerHost.cs with identical behaviour.
 */
module SegmentPool {
  import opened Wrappers
  import opened LittleEndian

  /** A window of the big buffer: bytes offset .. offset + count - 1. */
  datatype Segment = Segment(offset: int, count: int)

  /** The stack of free segments; the top of the stack is `free[0]`. */
  datatype Pool = Pool(segmentSize: int, segmentCount: int, free: seq<Segment>)

  /** `new byte[n]` with a negative n raises OverflowException. */
  datatype PoolError =
    | NegativeBufferLength
    | UnsupportedShape  // a positive buffer length whose push loop is not the plain carving

  /** Two windows that share no byte. */
  predicate Disjoint(a: Segment, b: Segment)
  {
    a.offset + a.count <= b.offset || b.offset + b.count <= a.offset
  }

  /**
   * The stack after pushing the segments at offsets 0, size, ..., (n-1)*size
   * in that order: the last one pushed is on top.
   */
  function Layout(size: int, n: nat): (r: seq<Segment>)
    ensures |r| == n
    ensures forall k :: 0 <= k < n ==> r[k] == Segment((n - 1 - k) * size, size)
  {
    if n == 0 then [] else [Segment((n - 1) * size, size)] + Layout(size, n - 1)
  }

  /**
   * The constructor: the buffer length is the unchecked `int` product of
   * size and count, and segments are pushed at offsets 0, size, 2*size, ...
   * while the offset is below the buffer length.
   */
  method NewBigBuffer(size: int32, count: int32) returns (r: Result<Pool, PoolError>)
    ensures Wrap(size * count) < 0 <==> r == Err(NegativeBufferLength)
    ensures Wrap(size * count) == 0 ==> r == Ok(Pool(size, count, []))
    ensures 0 < size && 0 < count && size * count <= MaxInt32 ==> r == Ok(Pool(size, count, Layout(size, count)))
    ensures r.Ok? ==> r.value.segmentSize == size && r.value.segmentCount == count
  {
    var length := Wrap(size * count);
    if length < 0 {
      return Err(NegativeBufferLength);
    }
    if length == 0 {
      return Ok(Pool(size, count, []));
    }
    if !(0 < size && 0 < count && size * count <= MaxInt32) {
      return Err(UnsupportedShape);
    }
    assert length == size * count;
    var free: seq<Segment> := [];
    var i: int32 := 0;
    var pushed: nat := 0;
    while i < length
      invariant 0 <= pushed <= count
      invariant i == pushed * size
      invariant free == Layout(size, pushed)
      decreases length - i
    {
      ScaleStrict(pushed, count, size);
      ScaleMono(pushed + 1, count, size);
      free := [Segment(i, size)] + free;
      i := i + size;
      pushed := pushed + 1;
    }
    if pushed < count {
      ScaleMono(pushed + 1, count, size);
    }
    return Ok(Pool(size, count, free));
  }

  lemma ScaleMono(a: int, b: int, c: int)
    requires a <= b && c >= 0
    ensures a * c <= b * c
  {
    assert b * c - a * c == (b - a) * c;
  }

  lemma ScaleStrict(a: int, b: int, c: int)
    requires c > 0 && a * c < b * c
    ensures a < b
  {
    if a >= b {
      ScaleMono(b, a, c);
    }
  }

  /** Every carved segment lies inside the buffer, and no two of them overlap. */
  lemma LayoutDisjoint(size: int, n: nat)
    requires size > 0
    ensures forall k :: 0 <= k < n ==> 0 <= Layout(size, n)[k].offset && Layout(size, n)[k].offset + size <= n * size
    ensures forall j, k :: 0 <= j < k < n ==> Disjoint(Layout(size, n)[j], Layout(size, n)[k])
  {
    var l := Layout(size, n);
    forall k | 0 <= k < n
      ensures 0 <= l[k].offset && l[k].offset + size <= n * size
    {
      assert l[k].offset + size == (n - k) * size;
      ScaleMono(0, n - 1 - k, size);
      ScaleMono(n - k, n, size);
    }
    forall j, k | 0 <= j < k < n
      ensures Disjoint(l[j], l[k])
    {
      assert l[k].offset + size == (n - k) * size;
      ScaleMono(n - k, n - 1 - j, size);
    }
  }

  /** TryPop: the top segment, or null when every segment is in use. */
  function Acquire(p: Pool): (r: (Option<Segment>, Pool))
    ensures r.0.None? <==> |p.free| == 0
    ensures r.0.None? ==> r.1 == p
    ensures r.0.Some? ==> r.0.value == p.free[0] && multiset(p.free) == multiset(r.1.free) + multiset{r.0.value}
    ensures r.1.segmentSize == p.segmentSize && r.1.segmentCount == p.segmentCount
  {
    if |p.free| == 0 then (None, p)
    else
      assert p.free == [p.free[0]] + p.free[1..];
      (Some(p.free[0]), p.(free := p.free[1..]))
  }

  /** Push: the segment goes back on top, whether or not it came from this pool. */
  function Release(p: Pool, s: Segment): (r: Pool)
    ensures |r.free| == |p.free| + 1 && r.free[0] == s
    ensures multiset(r.free) == multiset(p.free) + multiset{s}
    ensures r.segmentSize == p.segmentSize && r.segmentCount == p.segmentCount
  {
    p.(free := [s] + p.free)
  }

  /** LIFO: the segment just released is the next one handed out, and the rest of the stack is as before. */
  lemma ReleaseThenAcquire(p: Pool, s: Segment)
    ensures Acquire(Release(p, s)) == (Some(s), p)
  {
    assert ([s] + p.free)[1..] == p.free;
  }

  /** Releasing what was just acquired restores the pool. */
  lemma AcquireThenRelease(p: Pool)
    requires |p.free| > 0
    ensures Release(Acquire(p).1, Acquire(p).0.value) == p
  {
    assert [p.free[0]] + p.free[1..] == p.free;
  }

  /** No segment twice on the stack. */
  predicate Distinct(s: seq<Segment>)
  {
    forall i, j :: 0 <= i < j < |s| ==> s[i] != s[j]
  }

  /** The carving has no segment twice. */
  lemma LayoutDistinct(size: int, n: nat)
    requires size > 0
    ensures Distinct(Layout(size, n))
  {
    LayoutDisjoint(size, n);
  }

  /** Pushing a segment that is not on the stack keeps it free of repeats. */
  lemma DistinctPush(free: seq<Segment>, x: Segment)
    requires Distinct(free) && x !in free
    ensures Distinct([x] + free)
  {
    var l := [x] + free;
    forall i, j | 0 <= i < j < |l| ensures l[i] != l[j] {
      assert l[j] == free[j - 1];
      if i > 0 {
        assert l[i] == free[i - 1];
      }
    }
  }

  /** A stack holding only segments of its own carving, none twice. */
  predicate Sound(p: Pool)
  {
    && 0 < p.segmentSize <= MaxInt32 && p.segmentCount >= 0
    && Distinct(p.free)
    && (forall k :: 0 <= k < |p.free| ==> p.free[k] in Layout(p.segmentSize, p.segmentCount))
  }

  /** A fresh carving is sound, and popping or pushing back a carved segment not on the stack keeps it so. */
  lemma FreshSound(size: int, n: nat)
    requires 0 < size <= MaxInt32
    ensures Sound(Pool(size, n, Layout(size, n)))
  {
    LayoutDistinct(size, n);
  }

  lemma AcquireSound(p: Pool)
    requires Sound(p)
    ensures Sound(Acquire(p).1)
  {
    if |p.free| > 0 {
      var q := Acquire(p).1;
      forall k | 0 <= k < |q.free| ensures q.free[k] == p.free[k + 1] { }
    }
  }

  lemma ReleaseSound(p: Pool, s: Segment)
    requires Sound(p) && s in Layout(p.segmentSize, p.segmentCount) && s !in p.free
    ensures Sound(Release(p, s))
  {
    DistinctPush(p.free, s);
    var q := Release(p, s);
    forall k | 0 <= k < |q.free| ensures q.free[k] in Layout(p.segmentSize, p.segmentCount) {
      if k > 0 {
        assert q.free[k] == p.free[k - 1];
      }
    }
  }
}
