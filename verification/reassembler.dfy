/**
 * The framing NetworkParser evidently intends: requests are a four-byte
 * length followed by that many bytes, and however the byte stream of a
 * connection is cut into chunks, every request is delivered once, whole
 * and in order, and bytes after a request are kept for the next one.
 */
module Reassembler {
  import opened LittleEndian
  import opened FrameParser

  /** Every complete request at the front of `b`, and the bytes left over. */
  function ExtractAll(b: seq<byte>): (r: (seq<seq<byte>>, seq<byte>))
    ensures |r.1| <= |b|
    decreases |b|
  {
    if |b| < 4 then ([], b)
    else
      var n := DecodeLE(b[..4]);
      if n < 0 || |b| - 4 < n then ([], b)
      else
        var (later, rest) := ExtractAll(b[4 + n..]);
        ([b[4..4 + n]] + later, rest)
  }

  /** Whether `b` begins with a whole request, length prefix included. */
  predicate StartsWithFrame(b: seq<byte>)
  {
    |b| >= 4 && 0 <= DecodeLE(b[..4]) <= |b| - 4
  }

  /** One request in front of any bytes is delivered first, the rest as those bytes alone would be. */
  lemma ExtractFrame(payload: seq<byte>, tail: seq<byte>)
    requires |payload| <= MaxInt32
    ensures ExtractAll(Frame(payload) + tail) == ([payload] + ExtractAll(tail).0, ExtractAll(tail).1)
  {
    var b := Frame(payload) + tail;
    assert b[..4] == EncodeLE(|payload|);
    DecodeEncode(|payload|);
    assert b[4..4 + |payload|] == payload;
    assert b[4 + |payload|..] == tail;
  }

  /** One step of extraction, in terms of StartsWithFrame. */
  lemma ExtractStep(b: seq<byte>)
    ensures !StartsWithFrame(b) ==> ExtractAll(b) == ([], b)
    ensures StartsWithFrame(b) ==>
      var n := DecodeLE(b[..4]);
      ExtractAll(b) == ([b[4..4 + n]] + ExtractAll(b[4 + n..]).0, ExtractAll(b[4 + n..]).1)
  {
  }

  /** A whole request at the front of `b`, with its bytes and what follows it named. */
  lemma ExtractFront(b: seq<byte>, head: seq<byte>, tail: seq<byte>)
    requires StartsWithFrame(b)
    requires head == b[4..4 + DecodeLE(b[..4])] && tail == b[4 + DecodeLE(b[..4])..]
    ensures ExtractAll(b) == ([head] + ExtractAll(tail).0, ExtractAll(tail).1)
  {
  }

  /**
   * Appending bytes never disturbs what was already extracted: extracting
   * from a + b is extracting from a, then from its leftover followed by b.
   */
  lemma {:induction false} ExtractAppend(a: seq<byte>, b: seq<byte>)
    ensures ExtractAll(a + b) == (ExtractAll(a).0 + ExtractAll(ExtractAll(a).1 + b).0, ExtractAll(ExtractAll(a).1 + b).1)
    decreases |a|
  {
    ExtractStep(a);
    if StartsWithFrame(a) {
      var n: int := DecodeLE(a[..4]);
      var head := a[4..4 + n];
      var tail := a[4 + n..];
      ExtractFront(a, head, tail);
      var ab := a + b;
      assert ab[..4] == a[..4];
      assert DecodeLE(ab[..4]) == n;
      assert StartsWithFrame(ab);
      assert ab[4..4 + n] == head;
      DropAppend(a, b, 4 + n);
      ExtractFront(ab, head, tail + b);
      ExtractAppend(tail, b);
      var x := ExtractAll(tail);
      var y := ExtractAll(x.1 + b);
      var z := ExtractAll(tail + b);
      assert z == (x.0 + y.0, y.1);
      assert ExtractAll(a) == ([head] + x.0, x.1);
      assert ExtractAll(ab) == ([head] + z.0, z.1);
      Assoc([head], x.0, y.0);
    } else {
      assert [] + ExtractAll(a + b).0 == ExtractAll(a + b).0;
    }
  }

  lemma DropAppend<T>(a: seq<T>, b: seq<T>, k: nat)
    requires k <= |a|
    ensures (a + b)[k..] == a[k..] + b
  {
  }

  lemma Assoc<T>(a: seq<T>, b: seq<T>, c: seq<T>)
    ensures a + (b + c) == a + b + c
  {
  }

  /** What is left over never starts with a whole request. */
  lemma {:induction false} ExtractionStopsShort(b: seq<byte>)
    ensures !StartsWithFrame(ExtractAll(b).1)
    decreases |b|
  {
    ExtractStep(b);
    if StartsWithFrame(b) {
      ExtractionStopsShort(b[4 + DecodeLE(b[..4])..]);
    }
  }

  /** A connection: the leftover bytes carried from one chunk to the next. */
  function Push(pending: seq<byte>, chunk: seq<byte>): (r: (seq<seq<byte>>, seq<byte>))
    ensures |r.1| <= |pending| + |chunk|
    ensures !StartsWithFrame(r.1)
  {
    ExtractionStopsShort(pending + chunk);
    ExtractAll(pending + chunk)
  }

  /** Every chunk of a connection pushed in turn, with the requests delivered along the way. */
  function FeedAll(pending: seq<byte>, chunks: seq<seq<byte>>): (r: (seq<seq<byte>>, seq<byte>))
    decreases |chunks|
  {
    if |chunks| == 0 then ([], pending)
    else
      var (now, rest) := Push(pending, chunks[0]);
      var (later, left) := FeedAll(rest, chunks[1..]);
      (now + later, left)
  }

  function Concat(chunks: seq<seq<byte>>): seq<byte>
    decreases |chunks|
  {
    if |chunks| == 0 then [] else chunks[0] + Concat(chunks[1..])
  }

  /**
   * Chunking is invisible: feeding chunks one by one to a connection with
   * no whole request pending is extracting from all their bytes at once.
   */
  lemma {:induction false} FeedAllIsExtractAll(pending: seq<byte>, chunks: seq<seq<byte>>)
    requires !StartsWithFrame(pending)
    ensures FeedAll(pending, chunks) == ExtractAll(pending + Concat(chunks))
    decreases |chunks|
  {
    if |chunks| == 0 {
      assert pending + Concat(chunks) == pending;
      ExtractStep(pending);
    } else {
      var head := pending + chunks[0];
      var tail := Concat(chunks[1..]);
      var (now, rest) := Push(pending, chunks[0]);
      assert (now, rest) == ExtractAll(head);
      FeedAllIsExtractAll(rest, chunks[1..]);
      var (later, left) := FeedAll(rest, chunks[1..]);
      assert (later, left) == ExtractAll(rest + tail);
      assert FeedAll(pending, chunks) == (now + later, left);
      ExtractAppend(head, tail);
      Assoc(pending, chunks[0], tail);
      assert head + tail == pending + Concat(chunks);
    }
  }

  /** The bytes a sequence of requests puts on the wire, back to back. */
  function EncodeFrames(payloads: seq<seq<byte>>): (r: seq<byte>)
    requires forall k :: 0 <= k < |payloads| ==> |payloads[k]| <= MaxInt32
    decreases |payloads|
  {
    if |payloads| == 0 then [] else Frame(payloads[0]) + EncodeFrames(payloads[1..])
  }

  /** Back-to-back requests are extracted as exactly those requests, nothing left over. */
  lemma {:induction false} ExtractEncoded(payloads: seq<seq<byte>>)
    requires forall k :: 0 <= k < |payloads| ==> |payloads[k]| <= MaxInt32
    ensures ExtractAll(EncodeFrames(payloads)) == (payloads, [])
    decreases |payloads|
  {
    if |payloads| > 0 {
      ExtractFrame(payloads[0], EncodeFrames(payloads[1..]));
      ExtractEncoded(payloads[1..]);
      assert [payloads[0]] + payloads[1..] == payloads;
    }
  }

  /**
   * However a connection's bytes are cut into chunks, the requests the
   * client wrote are delivered exactly, in order, with nothing left pending.
   */
  lemma ReassembleAnyChunking(payloads: seq<seq<byte>>, chunks: seq<seq<byte>>)
    requires forall k :: 0 <= k < |payloads| ==> |payloads[k]| <= MaxInt32
    requires Concat(chunks) == EncodeFrames(payloads)
    ensures FeedAll([], chunks) == (payloads, [])
  {
    FeedAllIsExtractAll([], chunks);
    assert [] + Concat(chunks) == EncodeFrames(payloads);
    ExtractEncoded(payloads);
  }
}
