/**
 * The receive side of the socket hosts NetworkHost
 * (src/Service/NetworkHost.cs, which frames requests with NetworkParser)
 * and ServerHost (src/ServerHost.cs, which hands each chunk over as it
 * arrived). Every accepted connection holds one segment of the big buffer
 * for its receive operation until it closes. Sockets are numbered in
 * accept order; the operating system's completions are the operations.
 */
module ReceiveHost {
  import opened Wrappers
  import opened LittleEndian
  import opened Codecs
  import opened SegmentPool
  import opened FrameParser

  datatype Host = Host(
    framed: bool,                 // NetworkHost when true, ServerHost otherwise
    pool: Pool,
    armed: map<nat, Segment>,     // the segment of each open connection's receive operation
    parsers: map<nat, Parser>,    // NetworkHost's parser per connection
    nextSocket: nat)

  /** Buffer segment size and count both hosts construct their BigBuffer with. */
  const BufferSegmentSize: int32 := 1024
  const MaxBufferSegment: int32 := 1000

  /** Held segments: each from the carving, not free, and held by one connection only. */
  predicate HeldOk(h: Host)
  {
    && h.pool.segmentCount >= 0
    && (forall s :: s in h.armed ==> h.armed[s] in Layout(h.pool.segmentSize, h.pool.segmentCount) && h.armed[s] !in h.pool.free)
    && (forall s, t :: s in h.armed && t in h.armed && s != t ==> h.armed[s] != h.armed[t])
  }

  /** Connection bookkeeping: socket numbers are issued in order, and NetworkHost has one parser per open connection. */
  predicate SocketsOk(h: Host)
  {
    && (forall s :: s in h.armed ==> s < h.nextSocket)
    && (h.framed ==> h.parsers.Keys == h.armed.Keys)
  }

  /**
   * The accounting the host keeps: every segment of the carving is either
   * free, once, or held by exactly one open connection.
   */
  predicate Valid(h: Host)
  {
    Sound(h.pool) && HeldOk(h) && |h.pool.free| + |h.armed| == h.pool.segmentCount && SocketsOk(h)
  }

  /** Start: a fresh big buffer with no connection open. */
  function Start(framed: bool, pool: Pool): (h: Host)
    requires 0 < pool.segmentSize <= MaxInt32 && pool.segmentCount >= 0
    requires pool.free == Layout(pool.segmentSize, pool.segmentCount)
    ensures Valid(h) && |h.armed| == 0 && |h.pool.free| == pool.segmentCount
  {
    var h := Host(framed, pool, map[], map[], 0);
    FreshSound(pool.segmentSize, pool.segmentCount);
    h
  }

  /** Start as both hosts do it: a buffer of 1000 segments of 1024 bytes, all free. */
  method StartHost(framed: bool) returns (h: Host)
    ensures Valid(h) && h.framed == framed && |h.armed| == 0
    ensures h.pool.segmentSize == 1024 && |h.pool.free| == 1000
    ensures forall k :: 0 <= k < 1000 ==> h.pool.free[k] == Segment((999 - k) * 1024, 1024)
  {
    var r := NewBigBuffer(BufferSegmentSize, MaxBufferSegment);
    assert r.Ok?;
    h := Start(framed, r.value);
  }

  /** The host once the next socket is accepted and given the top free segment. */
  function Opened(h: Host): Host
    requires |h.pool.free| > 0
  {
    var s := h.nextSocket;
    h.(pool := h.pool.(free := h.pool.free[1..]),
       armed := h.armed[s := h.pool.free[0]],
       parsers := if h.framed then h.parsers[s := Init()] else h.parsers,
       nextSocket := s + 1)
  }

  lemma OpenedValid(h: Host)
    requires Valid(h) && |h.pool.free| > 0
    ensures Valid(Opened(h))
  {
    var h' := Opened(h);
    var s := h.nextSocket;
    var seg := h.pool.free[0];
    assert s !in h.armed;
    assert |h'.armed| == |h.armed| + 1;
    forall k | 0 <= k < |h'.pool.free|
      ensures h'.pool.free[k] in Layout(h.pool.segmentSize, h.pool.segmentCount) && h'.pool.free[k] != seg
    {
      assert h'.pool.free[k] == h.pool.free[k + 1];
    }
    forall t | t in h'.armed
      ensures h'.armed[t] in Layout(h.pool.segmentSize, h.pool.segmentCount) && h'.armed[t] !in h'.pool.free
    {
      if t != s {
        assert h'.armed[t] == h.armed[t];
        assert h.armed[t] !in h.pool.free;
      }
    }
    forall t, u | t in h'.armed && u in h'.armed && t != u
      ensures h'.armed[t] != h'.armed[u]
    {
      if t == s {
        assert h.armed[u] !in h.pool.free;
      } else if u == s {
        assert h.armed[t] !in h.pool.free;
      }
    }
  }

  /**
   * ProcessAccepted: NetworkHost first gives the connection a fresh parser;
   * then a segment is popped for its receive operation, and an empty stack
   * makes the use of the null segment raise.
   */
  function Accept(h: Host): (r: Result<(nat, Host), SystemError>)
    requires Valid(h)
    ensures r.Err? <==> |h.pool.free| == 0
    ensures r.Err? ==> r.error == NullReference && |h.armed| == h.pool.segmentCount
    ensures r.Ok? ==> var (s, h') := r.value;
      && s !in h.armed && h'.armed == h.armed[s := h.pool.free[0]]
      && h'.pool.free == h.pool.free[1..]
      && (h.framed ==> h'.parsers == h.parsers[s := Init()])
      && Valid(h')
  {
    match Acquire(h.pool)
    case (None, _) => Err(NullReference)
    case (Some(seg), pool) =>
      OpenedValid(h);
      Ok((h.nextSocket, Opened(h)))
  }

  /** The host once connection `s` is closed and its segment pushed back. */
  function Closed(h: Host, s: nat): Host
    requires s in h.armed
  {
    h.(pool := Release(h.pool, h.armed[s]), armed := h.armed - {s}, parsers := h.parsers - {s})
  }

  lemma ClosedValid(h: Host, s: nat)
    requires Valid(h) && s in h.armed
    ensures Valid(Closed(h, s))
  {
    var h' := Closed(h, s);
    assert h'.armed.Keys == h.armed.Keys - {s};
    assert |h'.armed| == |h.armed| - 1;
    ReleaseSound(h.pool, h.armed[s]);
    ClosedHeld(h, s);
  }

  lemma ClosedHeld(h: Host, s: nat)
    requires HeldOk(h) && s in h.armed
    ensures HeldOk(Closed(h, s))
  {
    var h' := Closed(h, s);
    forall t | t in h'.armed
      ensures h'.armed[t] !in h'.pool.free
    {
      assert h'.armed[t] == h.armed[t] && t != s;
    }
  }

  /**
   * ProcessReceived. Zero bytes: the peer closed, so the parser is dropped
   * and the segment pushed back. Otherwise NetworkHost runs the chunk
   * through the parser and hands over each request it reports, and
   * ServerHost hands over the chunk itself; the segment stays with the
   * connection for its next receive. The result lists what the request
   * handler is given, as the bytes from the stream's cursor onward.
   */
  function Received(h: Host, s: nat, data: seq<byte>): (r: Result<(seq<seq<byte>>, Host), SystemError>)
    requires Valid(h) && s in h.armed && |data| <= h.armed[s].count
    ensures |data| == 0 ==>
      && r.Ok? && r.value.0 == []
      && r.value.1.armed == h.armed - {s}
      && r.value.1.pool.free == [h.armed[s]] + h.pool.free
    ensures |data| > 0 && r.Ok? ==> r.value.1.armed == h.armed && r.value.1.pool == h.pool
    ensures |data| > 0 && !h.framed ==> r == Ok(([data], h))
    ensures h.framed && |data| > 0 ==> (r.Err? <==> Drain(Receive(h.parsers[s], data)).Err?)
    ensures h.framed && |data| > 0 && r.Ok? ==>
      var drained := Drain(Receive(h.parsers[s], data)).value;
      && r.value.0 == seq(|drained.0|, k requires 0 <= k < |drained.0| => Unread(drained.0[k]))
      && r.value.1.parsers == h.parsers[s := drained.1]
    ensures r.Ok? ==> Valid(r.value.1)
  {
    if |data| == 0 then
      ClosedValid(h, s);
      Ok(([], Closed(h, s)))
    else if h.framed then
      match Drain(Receive(h.parsers[s], data))
      case Err(e) => Err(e)
      case Ok((frames, p)) =>
        Ok((seq(|frames|, k requires 0 <= k < |frames| => Unread(frames[k])), h.(parsers := h.parsers[s := p])))
    else Ok(([data], h))
  }

  lemma CarvedCount(p: Pool, seg: Segment)
    requires p.segmentCount >= 0 && seg in Layout(p.segmentSize, p.segmentCount)
    ensures seg.count == p.segmentSize
  {
    var l := Layout(p.segmentSize, p.segmentCount);
    var k :| 0 <= k < |l| && l[k] == seg;
  }

  /** No two open connections receive into overlapping bytes of the big buffer. */
  lemma HeldSegmentsDisjoint(h: Host, s: nat, t: nat)
    requires Valid(h) && s in h.armed && t in h.armed && s != t
    ensures Disjoint(h.armed[s], h.armed[t])
    ensures 0 <= h.armed[s].offset && h.armed[s].offset + h.armed[s].count <= h.pool.segmentSize * h.pool.segmentCount
  {
    var l := Layout(h.pool.segmentSize, h.pool.segmentCount);
    LayoutDisjoint(h.pool.segmentSize, h.pool.segmentCount);
    var i :| 0 <= i < |l| && l[i] == h.armed[s];
    var j :| 0 <= j < |l| && l[j] == h.armed[t];
    assert i != j;
    if i < j {
      assert Disjoint(l[i], l[j]);
    } else {
      assert Disjoint(l[j], l[i]);
    }
  }

  /** One completion the operating system reports. */
  datatype Event = AcceptEvent | ReceiveEvent(socket: nat, data: seq<byte>)

  /** Whether the operating system may report this event now. */
  predicate Possible(h: Host, e: Event)
  {
    e.ReceiveEvent? ==> e.socket in h.armed && |e.data| <= h.armed[e.socket].count
  }

  /**
   * Any run of events: each handled in turn, stopping at the first
   * exception, and also, with the state reached so far, at the first event
   * the operating system could not report in that state.
   */
  function Run(h: Host, events: seq<Event>): (r: Result<Host, SystemError>)
    requires Valid(h)
    ensures r.Ok? ==> Valid(r.value) && r.value.pool.segmentCount == h.pool.segmentCount
    decreases |events|
  {
    if |events| == 0 then Ok(h)
    else if !Possible(h, events[0]) then Ok(h)
    else
      var step := match events[0]
        case AcceptEvent => (match Accept(h) case Err(e) => Err(e) case Ok((_, h')) => Ok(h'))
        case ReceiveEvent(s, data) => (match Received(h, s, data) case Err(e) => Err(e) case Ok((_, h')) => Ok(h'));
      match step
      case Err(e) => Err(e)
      case Ok(h') => Run(h', events[1..])
  }

  /**
   * In every state any run of events reaches from a fresh start, open
   * connections receive into pairwise disjoint windows of the big buffer.
   */
  lemma RunKeepsSegmentsDisjoint(framed: bool, pool: Pool, events: seq<Event>, s: nat, t: nat)
    requires 0 < pool.segmentSize <= MaxInt32 && pool.segmentCount >= 0
    requires pool.free == Layout(pool.segmentSize, pool.segmentCount)
    ensures var r := Run(Start(framed, pool), events);
      r.Ok? && s in r.value.armed && t in r.value.armed && s != t ==> Disjoint(r.value.armed[s], r.value.armed[t])
  {
    var r := Run(Start(framed, pool), events);
    if r.Ok? && s in r.value.armed && t in r.value.armed && s != t {
      HeldSegmentsDisjoint(r.value, s, t);
    }
  }

  /** A connection that closes right after being accepted leaves the pool exactly as it found it. */
  lemma AcceptThenCloseRestores(h: Host)
    requires Valid(h) && |h.pool.free| > 0
    ensures var (s, h1) := Accept(h).value;
      var r := Received(h1, s, []);
      r.Ok? && r.value.1.pool == h.pool && r.value.1.armed == h.armed
  {
    assert h.nextSocket !in h.armed;
    OpenCloseRestores(h);
  }

  lemma OpenCloseRestores(h: Host)
    requires |h.pool.free| > 0 && h.nextSocket !in h.armed
    ensures Closed(Opened(h), h.nextSocket).pool == h.pool
    ensures Closed(Opened(h), h.nextSocket).armed == h.armed
  {
    assert [h.pool.free[0]] + h.pool.free[1..] == h.pool.free;
  }

  /**
   * On NetworkHost, a request of at least four bytes that arrives whole in
   * the first chunk of a connection is handed to the handler with the
   * cursor right after its length prefix: the handler reads exactly the request.
   */
  lemma FirstChunkRequestDelivered(h: Host, payload: seq<byte>)
    requires Valid(h) && h.framed && |h.pool.free| > 0
    requires 4 <= |payload| && 4 + |payload| <= h.pool.free[0].count
    ensures var (s, h1) := Accept(h).value;
      && Received(h1, s, Frame(payload)).Ok?
      && Received(h1, s, Frame(payload)).value.0 == [payload]
  {
    var (s, h1) := Accept(h).value;
    assert h1.parsers[s] == Init() && h1.armed[s] == h.pool.free[0];
    CarvedCount(h.pool, h.pool.free[0]);
    FreshParserDelivers(h1, s, payload);
  }

  lemma FreshParserDelivers(h: Host, s: nat, payload: seq<byte>)
    requires Valid(h) && h.framed && s in h.armed && h.parsers[s] == Init()
    requires 4 <= |payload| && 4 + |payload| <= h.armed[s].count
    ensures Received(h, s, Frame(payload)).Ok? && Received(h, s, Frame(payload)).value.0 == [payload]
  {
    FirstRequestRead(payload);
    var drained := Drain(Receive(Init(), Frame(payload)));
    var r := Received(h, s, Frame(payload));
    assert r.value.0 == seq(|drained.value.0|, k requires 0 <= k < |drained.value.0| => Unread(drained.value.0[k]));
  }
}
