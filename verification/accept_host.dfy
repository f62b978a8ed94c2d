/**
 * The earlier ServerHost (ServerHost.cs at the repository root): each
 * pending accept operation takes its segment of the big buffer when it is
 * posted, and keeps it as the receive operation of the connection it
 * accepts. Event-argument objects are numbered in creation order.
 */
module AcceptHost {
  import opened Wrappers
  import opened LittleEndian
  import opened Codecs
  import opened SegmentPool

  datatype Phase = Accepting | Receiving(socket: nat)

  /** One WrappedSocketEvent: the segment popped for it (null when none was free) and what it is waiting for. */
  datatype Args = Args(segment: Option<Segment>, phase: Phase)

  datatype Host = Host(pool: Pool, args: map<nat, Args>, nextArgs: nat, nextSocket: nat)

  /** The event-argument objects that hold a segment. */
  function Holding(h: Host): (r: set<nat>)
    ensures forall a :: a in r <==> a in h.args && h.args[a].segment.Some?
  {
    set a | a in h.args && h.args[a].segment.Some?
  }

  /** The pending accept operations. */
  function Listening(h: Host): (r: set<nat>)
    ensures forall a :: a in r <==> a in h.args && h.args[a].phase.Accepting?
  {
    set a | a in h.args && h.args[a].phase.Accepting?
  }

  /** Held segments: each from the carving, not free, and held by one object only. */
  predicate HeldOk(h: Host)
  {
    && h.pool.segmentCount >= 0
    && (forall a :: a in h.args && h.args[a].segment.Some? ==>
          h.args[a].segment.value in Layout(h.pool.segmentSize, h.pool.segmentCount) && h.args[a].segment.value !in h.pool.free)
    && (forall a, b :: a in h.args && b in h.args && a != b && h.args[a].segment.Some? && h.args[b].segment.Some? ==>
          h.args[a].segment.value != h.args[b].segment.value)
  }

  /** Objects are numbered in creation order, and a connection always has its segment. */
  predicate ArgsOk(h: Host)
  {
    && (forall a :: a in h.args ==> a < h.nextArgs)
    && (forall a :: a in h.args && h.args[a].phase.Receiving? ==> h.args[a].segment.Some?)
  }

  /** Every carved segment is free once or held by one event-argument object. */
  predicate Valid(h: Host)
  {
    Sound(h.pool) && HeldOk(h) && |h.pool.free| + |Holding(h)| == h.pool.segmentCount && ArgsOk(h)
  }

  /** AcceptAsync: a new event-argument object, given the top free segment or null, posted as a pending accept. */
  function Post(h: Host): (r: Host)
    requires Valid(h)
    ensures Valid(r) && r.pool.segmentCount == h.pool.segmentCount
    ensures r.pool == Acquire(h.pool).1 && r.args == h.args[h.nextArgs := Args(Acquire(h.pool).0, Accepting)]
    ensures r.nextSocket == h.nextSocket
    ensures Listening(r) == Listening(h) + {h.nextArgs} && h.nextArgs !in Listening(h)
  {
    PostValid(h);
    Posted(h)
  }

  function Posted(h: Host): Host
  {
    h.(pool := Acquire(h.pool).1, args := h.args[h.nextArgs := Args(Acquire(h.pool).0, Accepting)], nextArgs := h.nextArgs + 1)
  }

  lemma PostValid(h: Host)
    requires Valid(h)
    ensures Valid(Posted(h))
    ensures Listening(Posted(h)) == Listening(h) + {h.nextArgs} && h.nextArgs !in Listening(h)
  {
    AcquireSound(h.pool);
    PostHeld(h);
    PostCounted(h);
    PostListening(h);
  }

  lemma PostCounted(h: Host)
    requires ArgsOk(h) && |h.pool.free| + |Holding(h)| == h.pool.segmentCount
    ensures |Posted(h).pool.free| + |Holding(Posted(h))| == h.pool.segmentCount
  {
    var id := h.nextArgs;
    var r := Posted(h);
    assert id !in h.args;
    if |h.pool.free| > 0 {
      assert Holding(r) == Holding(h) + {id};
    } else {
      assert Holding(r) == Holding(h);
    }
  }

  lemma PostListening(h: Host)
    requires ArgsOk(h)
    ensures Listening(Posted(h)) == Listening(h) + {h.nextArgs} && h.nextArgs !in Listening(h)
  {
    assert h.nextArgs !in h.args;
  }

  lemma PostHeld(h: Host)
    requires Sound(h.pool) && HeldOk(h) && ArgsOk(h)
    ensures HeldOk(Posted(h)) && ArgsOk(Posted(h))
  {
    var id := h.nextArgs;
    var r := Posted(h);
    assert id !in h.args;
    if |h.pool.free| > 0 {
      var seg := h.pool.free[0];
      assert seg in Layout(h.pool.segmentSize, h.pool.segmentCount);
      forall a | a in r.args && r.args[a].segment.Some?
        ensures r.args[a].segment.value !in r.pool.free
      {
        if a != id {
          assert h.args[a].segment.value !in h.pool.free;
        } else {
          assert seg !in h.pool.free[1..] by {
            forall k | 0 <= k < |h.pool.free| - 1 ensures h.pool.free[1..][k] != seg {
              assert h.pool.free[k + 1] != h.pool.free[0];
            }
          }
        }
      }
      forall a, b | a in r.args && b in r.args && a != b && r.args[a].segment.Some? && r.args[b].segment.Some?
        ensures r.args[a].segment.value != r.args[b].segment.value
      {
        if a == id {
          assert h.args[b].segment.value !in h.pool.free;
        } else if b == id {
          assert h.args[a].segment.value !in h.pool.free;
        }
      }
    }
  }

  /** Start's loop: `backlog` accepts posted one after the other. */
  function PostMany(h: Host, n: nat): (r: Host)
    requires Valid(h)
    ensures Valid(r) && r.pool.segmentCount == h.pool.segmentCount
    ensures |Listening(r)| == |Listening(h)| + n
    ensures |r.pool.free| == Max(|h.pool.free| - n, 0)
    ensures |Holding(r)| == |Holding(h)| + Min(n, |h.pool.free|)
    decreases n
  {
    if n == 0 then h else PostMany(Post(h), n - 1)
  }

  /** Start: a fresh buffer, then the backlog of pending accepts (none when the backlog is not positive). */
  function Start(pool: Pool, backlog: int32): (h: Host)
    requires 0 < pool.segmentSize <= MaxInt32 && pool.segmentCount >= 0
    requires pool.free == Layout(pool.segmentSize, pool.segmentCount)
    ensures Valid(h) && |Listening(h)| == Max(backlog, 0)
    ensures |Holding(h)| == Min(Max(backlog, 0), pool.segmentCount)
    ensures |h.pool.free| == Max(pool.segmentCount - Max(backlog, 0), 0)
  {
    FreshSound(pool.segmentSize, pool.segmentCount);
    var h0 := Host(pool, map[], 0, 0);
    assert Holding(h0) == {};
    assert Listening(h0) == {};
    PostMany(h0, Max(backlog, 0))
  }

  /**
   * ProcessAccepted: post the replacement accept first, then point the
   * completed object's buffer at its own segment and start receiving; a
   * null segment makes that raise.
   */
  function Accepted(h: Host, a: nat): (r: Result<(nat, Host), SystemError>)
    requires Valid(h) && a in h.args && h.args[a].phase.Accepting?
    ensures r.Err? <==> h.args[a].segment.None?
    ensures r.Err? ==> r.error == NullReference
    ensures r.Ok? ==> var (s, h') := r.value;
      && Valid(h')
      && a in h'.args && h'.args[a] == Args(h.args[a].segment, Receiving(s))
      && |Listening(h')| == |Listening(h)|
    ensures r.Ok? ==>
      && r.value.0 == h.nextSocket
      && r.value.1.pool == Acquire(h.pool).1
      && r.value.1.args == h.args[h.nextArgs := Args(Acquire(h.pool).0, Accepting)][a := Args(h.args[a].segment, Receiving(h.nextSocket))]
  {
    if h.args[a].segment.None? then Err(NullReference)
    else
      AcceptedValid(h, a);
      Ok((h.nextSocket, Connected(Post(h), a)))
  }

  function Connected(h: Host, a: nat): Host
    requires a in h.args
  {
    h.(args := h.args[a := Args(h.args[a].segment, Receiving(h.nextSocket))], nextSocket := h.nextSocket + 1)
  }

  lemma AcceptedValid(h: Host, a: nat)
    requires Valid(h) && a in h.args && h.args[a].phase.Accepting? && h.args[a].segment.Some?
    ensures Valid(Connected(Post(h), a)) && |Listening(Connected(Post(h), a))| == |Listening(h)|
  {
    var h1 := Post(h);
    assert h1.args[a] == h.args[a];
    ConnectedValid(h1, a);
    assert a in Listening(h) && a != h.nextArgs;
  }

  lemma ConnectedValid(h: Host, a: nat)
    requires Valid(h) && a in h.args && h.args[a].phase.Accepting? && h.args[a].segment.Some?
    ensures Valid(Connected(h, a)) && Listening(Connected(h, a)) == Listening(h) - {a}
  {
    var h' := Connected(h, a);
    assert forall b :: b in h'.args ==> h'.args[b].segment == h.args[b].segment;
    assert Holding(h') == Holding(h);
    assert HeldOk(h');
  }

  /**
   * ProcessReceived: zero bytes pushes the segment back and drops the
   * object; otherwise the chunk is handed to the handler as it arrived and
   * the object receives again.
   */
  function Received(h: Host, a: nat, data: seq<byte>): (r: (seq<seq<byte>>, Host))
    requires Valid(h) && a in h.args && h.args[a].phase.Receiving?
    requires |data| <= h.args[a].segment.value.count
    ensures Valid(r.1)
    ensures |data| > 0 ==> r == ([data], h)
    ensures |data| == 0 ==>
      && r.0 == [] && r.1.args == h.args - {a}
      && r.1.pool.free == [h.args[a].segment.value] + h.pool.free
  {
    if |data| > 0 then ([data], h)
    else
      ClosedValid(h, a);
      ([], Closed(h, a))
  }

  function Closed(h: Host, a: nat): Host
    requires a in h.args && h.args[a].segment.Some?
  {
    h.(pool := Release(h.pool, h.args[a].segment.value), args := h.args - {a})
  }

  lemma ClosedValid(h: Host, a: nat)
    requires Valid(h) && a in h.args && h.args[a].segment.Some?
    ensures Valid(Closed(h, a))
  {
    var seg := h.args[a].segment.value;
    var h' := Closed(h, a);
    ReleaseSound(h.pool, seg);
    assert Holding(h') == Holding(h) - {a};
    forall b | b in h'.args && h'.args[b].segment.Some?
      ensures h'.args[b].segment.value !in h'.pool.free
    {
      assert h.args[b].segment.value != seg;
    }
  }

  /**
   * A segment is bound when the accept is posted, not when it completes: on
   * a one-segment buffer with a backlog of two, the second pending accept
   * holds null, and a connection it accepts is refused with an exception
   * even after the first connection has closed and freed the segment.
   */
  lemma RefusedWhileSegmentFree()
    ensures var h0 := Start(Pool(1024, 1, Layout(1024, 1)), 2);
      && 1 in h0.args && h0.args[1].phase.Accepting?
      && Accepted(h0, 0).Ok?
      && var (s, h1) := Accepted(h0, 0).value;
      && 0 in h1.args && h1.args[0].phase.Receiving?
      && var h2 := Received(h1, 0, []).1;
      && |h2.pool.free| == 1
      && 1 in h2.args && h2.args[1].phase.Accepting?
      && Accepted(h2, 1) == Err(NullReference)
  {
    var pool := Pool(1024, 1, Layout(1024, 1));
    assert Layout(1024, 1) == [Segment(0, 1024)];
    var h0 := Start(pool, 2);
    var e := Host(pool, map[], 0, 0);
    FreshSound(1024, 1);
    assert Holding(e) == {} && Listening(e) == {};
    assert Valid(e);
    var e1 := Post(e);
    assert e1.args == map[0 := Args(Some(Segment(0, 1024)), Accepting)] && e1.pool.free == [];
    var e2 := Post(e1);
    assert e2.args == map[0 := Args(Some(Segment(0, 1024)), Accepting), 1 := Args(None, Accepting)];
    assert h0 == PostMany(e, 2) == e2;
    var (s, h1) := Accepted(h0, 0).value;
    assert h1.args[1] == h0.args[1];
  }
}
