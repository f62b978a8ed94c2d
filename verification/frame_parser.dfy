/**
 * NetworkParser (src/Service/NetworkHost.cs): a MemoryStream that collects
 * the chunks of one connection and reports when a length-prefixed request
 * is complete. The stream is modelled exactly as its content, its cursor
 * and the parser's three counters, because what the parser reports depends
 * on where each chunk lands.
 */
module FrameParser {
  import opened Wrappers
  import opened LittleEndian
  import opened Codecs

  datatype Parser = Parser(
    content: seq<byte>,   // the MemoryStream's bytes (its Length is |content|)
    position: nat,        // the MemoryStream's cursor
    received: int32,      // bytes received since the last reset
    messageLength: int32, // the length prefix once read, -1 before
    splitted: bool)       // waiting for the rest of a request

  /** A fresh parser, and the state every reported request leads back to. */
  predicate Idle(p: Parser)
  {
    p.received == 0 && p.messageLength == -1 && !p.splitted
  }

  function Init(): (p: Parser)
    ensures Idle(p) && |p.content| == 0
  {
    Parser([], 0, 0, -1, false)
  }

  function Zeros(n: nat): (r: seq<byte>)
    ensures |r| == n && forall i :: 0 <= i < n ==> r[i] == 0
  {
    if n == 0 then [] else [0] + Zeros(n - 1)
  }

  /**
   * MemoryStream.Write at a cursor: bytes under the chunk are replaced, the
   * stream grows when the chunk runs past its end, and a cursor beyond the
   * end leaves a gap of zero bytes.
   */
  function WriteAt(content: seq<byte>, pos: nat, chunk: seq<byte>): (r: seq<byte>)
    ensures |r| == Max(|content|, pos + |chunk|)
    ensures forall i :: 0 <= i < |r| ==>
      r[i] == (if pos <= i < pos + |chunk| then chunk[i - pos] else if i < |content| then content[i] else 0)
  {
    var padded := if pos <= |content| then content else content + Zeros(pos - |content|);
    padded[..pos] + chunk + (if pos + |chunk| <= |padded| then padded[pos + |chunk|..] else [])
  }

  /** Remaining: the bytes received beyond a four-byte length prefix (an `int` subtraction). */
  function Remaining(p: Parser): int32
  {
    Wrap(p.received - 4)
  }

  /**
   * Receive: rewind to 0 unless a length prefix is pending, copy the chunk
   * at the cursor, and add its length to the received count.
   */
  function Receive(p: Parser, chunk: seq<byte>): (r: Parser)
    ensures var at := if p.messageLength == -1 then 0 else p.position;
      && r.content == WriteAt(p.content, at, chunk)
      && r.position == at + |chunk|
    ensures r.received == Wrap(p.received + |chunk|)
    ensures r.messageLength == p.messageLength && r.splitted == p.splitted
  {
    var at := if p.messageLength == -1 then 0 else p.position;
    p.(content := WriteAt(p.content, at, chunk), position := at + |chunk|, received := Wrap(p.received + |chunk|))
  }

  /**
   * ReadLength: only when no prefix is known and at least four bytes beyond
   * a prefix have arrived, read an Int32 at the cursor.
   */
  function ReadLength(p: Parser): (r: Result<Parser, SystemError>)
    ensures p.messageLength != -1 || Remaining(p) < 4 ==> r == Ok(p)
    ensures r.Err? ==> r.error == EndOfStream && |p.content| < p.position + 4
    ensures r.Ok? && r.value != p ==>
      && p.position + 4 <= |p.content|
      && r.value == p.(messageLength := DecodeLE(p.content[p.position..p.position + 4]), position := p.position + 4)
    ensures p.messageLength == -1 && Remaining(p) >= 4 ==>
      && (r.Err? <==> |p.content| < p.position + 4)
      && (r.Ok? ==> r.value.position == p.position + 4 && r.value.messageLength == DecodeLE(p.content[p.position..p.position + 4]))
  {
    if p.messageLength != -1 then Ok(p)
    else if Remaining(p) < 4 then Ok(p)
    else if |p.content| < p.position + 4 then Err(EndOfStream)
    else Ok(p.(messageLength := DecodeLE(p.content[p.position..p.position + 4]), position := p.position + 4))
  }

  /** Whether a known prefix is covered by the bytes received so far. */
  predicate Complete(p: Parser)
  {
    p.messageLength > -1 && Remaining(p) >= p.messageLength
  }

  /**
   * The MessageAvailable property. While split, report completion and move
   * the cursor to just past the prefix. With no prefix, rewind, try to read
   * one, and when the request is not complete move the cursor to Remaining
   * (which raises when Remaining is negative) and mark the parser split.
   * Otherwise, that is right after a report, reset the counters.
   */
  function MessageAvailable(p: Parser): (r: Result<(bool, Parser), SystemError>)
    ensures r.Ok? && r.value.0 ==>
      var q := r.value.1;
      && (p.splitted || p.messageLength == -1)
      && Complete(q) && !q.splitted && q.position == 4 && q.received == p.received
    ensures !p.splitted && p.messageLength != -1 ==> r == Ok((false, p.(messageLength := -1, received := 0)))
    ensures p.splitted ==> r == Ok((Complete(p), if Complete(p) then p.(position := 4, splitted := false) else p))
    ensures r.Err? ==> !p.splitted && p.messageLength == -1
    ensures !p.splitted && p.messageLength == -1 ==>
      var read := ReadLength(p.(position := 0));
      && (read.Err? ==> r == Err(read.error))
      && (read.Ok? && Complete(read.value) ==> r == Ok((true, read.value)))
      && (read.Ok? && !Complete(read.value) ==>
            && (r.Err? <==> Remaining(p) < 0)
            && (r.Err? ==> r.error == NegativePosition)
            && (r.Ok? ==> r.value == (false, read.value.(position := Remaining(p), splitted := true))))
  {
    if p.splitted then
      if Complete(p) then Ok((true, p.(position := 4, splitted := false))) else Ok((false, p))
    else if p.messageLength == -1 then
      match ReadLength(p.(position := 0))
      case Err(e) => Err(e)
      case Ok(q) =>
        if Complete(q) then Ok((true, q))
        else if Remaining(q) < 0 then Err(NegativePosition)
        else Ok((false, q.(position := Remaining(q), splitted := true)))
    else Ok((false, p.(messageLength := -1, received := 0)))
  }

  /** 0 for the state right after a report, 1 otherwise. */
  function Rank(p: Parser): nat
  {
    if !p.splitted && p.messageLength != -1 then 0 else 1
  }

  /**
   * ProcessReceived's loop: ask MessageAvailable until it says no, handing
   * the parser to the request handler each time it says yes. The result
   * lists the parser as each handler call saw it, and the parser after the loop.
   */
  function Drain(p: Parser): (r: Result<(seq<Parser>, Parser), SystemError>)
    ensures r.Ok? ==> |r.value.0| <= 1
    ensures r.Ok? && |r.value.0| == 1 ==> Idle(r.value.1) && Complete(r.value.0[0]) && r.value.0[0].position == 4
    ensures r.Ok? && |r.value.0| == 0 ==> r.value.1.splitted || Idle(r.value.1)
    decreases Rank(p)
  {
    match MessageAvailable(p)
    case Err(e) => Err(e)
    case Ok((false, q)) => Ok(([], q))
    case Ok((true, q)) =>
      match Drain(q)
      case Err(e) => Err(e)
      case Ok((frames, s)) => Ok(([q] + frames, s))
  }

  /** A request as the client puts it on the wire: its length, then its bytes. */
  function Frame(payload: seq<byte>): (r: seq<byte>)
    requires |payload| <= MaxInt32
    ensures |r| == 4 + |payload| && r[4..] == payload
  {
    EncodeLE(|payload|) + payload
  }

  /**
   * A request of at least four bytes that arrives in one chunk, on a parser
   * at rest, is reported once, with its bytes right after the cursor; the
   * parser is then back at rest, so any bytes that followed the request in
   * the same chunk are forgotten.
   */
  lemma WholeFrameDetected(p: Parser, payload: seq<byte>, extra: seq<byte>)
    requires Idle(p)
    requires 4 <= |payload| && 4 + |payload| + |extra| <= MaxInt32
    ensures var r := Drain(Receive(p, Frame(payload) + extra));
      && r.Ok? && |r.value.0| == 1 && Idle(r.value.1)
      && r.value.0[0].messageLength == |payload|
      && r.value.0[0].content[4..4 + |payload|] == payload
  {
    var chunk := Frame(payload) + extra;
    var p1 := Receive(p, chunk);
    assert p1.received == |chunk|;
    assert p1.content[..|chunk|] == chunk by {
      forall i | 0 <= i < |chunk| ensures p1.content[i] == chunk[i] { }
    }
    var p2 := p1.(position := 0);
    assert p2.content[0..4] == EncodeLE(|payload|) by {
      assert chunk[..4] == EncodeLE(|payload|);
    }
    DecodeEncode(|payload|);
    assert ReadLength(p2) == Ok(p2.(messageLength := |payload|, position := 4));
    var q := p2.(messageLength := |payload|, position := 4);
    assert q.content[4..4 + |payload|] == payload by {
      assert chunk[4..4 + |payload|] == payload;
    }
  }

  /** The bytes a handler reads from a parser: its content from the cursor on. */
  function Unread(p: Parser): (r: seq<byte>)
    ensures p.position <= |p.content| ==> r == p.content[p.position..]
    ensures p.position > |p.content| ==> r == []
  {
    if p.position <= |p.content| then p.content[p.position..] else []
  }

  /** On a fresh connection, a whole request in the first chunk is read by the handler exactly. */
  lemma FirstRequestRead(payload: seq<byte>)
    requires 4 <= |payload| && 4 + |payload| <= MaxInt32
    ensures var r := Drain(Receive(Init(), Frame(payload)));
      r.Ok? && |r.value.0| == 1 && Unread(r.value.0[0]) == payload
  {
    var chunk := Frame(payload);
    WholeFrameDetected(Init(), payload, []);
    assert chunk + [] == chunk;
    var p1 := Receive(Init(), chunk);
    assert p1.content == chunk;
    var q := Drain(p1).value.0[0];
    assert q.content == chunk;
  }

  /** A parser that lost the length prefix: split, with no prefix to ever compare against. */
  predicate Stalled(p: Parser)
  {
    p.splitted && p.messageLength == -1
  }

  /** A first chunk shorter than a length prefix moves the cursor below zero, which raises. */
  lemma ShortChunkFaults(p: Parser, chunk: seq<byte>)
    requires Idle(p) && |chunk| < 4
    ensures Drain(Receive(p, chunk)) == Err(NegativePosition)
  {
  }

  /**
   * A first chunk of four to seven bytes, for instance a whole request
   * shorter than four bytes, leaves the parser split with no length.
   */
  lemma ShortChunkStalls(p: Parser, chunk: seq<byte>)
    requires Idle(p) && 4 <= |chunk| < 8
    ensures Drain(Receive(p, chunk)).Ok?
    ensures Drain(Receive(p, chunk)).value.0 == [] && Stalled(Drain(Receive(p, chunk)).value.1)
  {
  }

  /** From a stalled parser, no chunk whatever is ever reported and the stall persists. */
  lemma StallPersists(p: Parser, chunk: seq<byte>)
    requires Stalled(p)
    ensures Drain(Receive(p, chunk)).Ok?
    ensures Drain(Receive(p, chunk)).value.0 == [] && Stalled(Drain(Receive(p, chunk)).value.1)
  {
  }

  /** One connection: each chunk received in turn, then the MessageAvailable loop. */
  function Feed(p: Parser, chunks: seq<seq<byte>>): (r: Result<(seq<Parser>, Parser), SystemError>)
    ensures r.Ok? ==> |r.value.0| <= |chunks|
    decreases |chunks|
  {
    if |chunks| == 0 then Ok(([], p))
    else
      match Drain(Receive(p, chunks[0]))
      case Err(e) => Err(e)
      case Ok((frames, q)) =>
        match Feed(q, chunks[1..])
        case Err(e) => Err(e)
        case Ok((later, s)) => Ok((frames + later, s))
  }

  /** A connection whose parser has stalled never reports another request. */
  lemma {:induction false} StalledConnectionIsDead(p: Parser, chunks: seq<seq<byte>>)
    requires Stalled(p)
    ensures Feed(p, chunks).Ok? && Feed(p, chunks).value.0 == [] && Stalled(Feed(p, chunks).value.1)
    decreases |chunks|
  {
    if |chunks| > 0 {
      StallPersists(p, chunks[0]);
      var q := Drain(Receive(p, chunks[0])).value.1;
      StalledConnectionIsDead(q, chunks[1..]);
    }
  }

  /**
   * A request split after a first chunk of at least eight bytes: the
   * parser reads the prefix, parks the cursor at Remaining, four bytes short
   * of the end of what arrived, and the next chunk is written there.
   */
  lemma SplitContinuationLandsEarly(p: Parser, first: seq<byte>, second: seq<byte>)
    requires Idle(p) && 8 <= |first| && |first| + |second| <= MaxInt32
    requires DecodeLE(first[..4]) > |first| - 4
    ensures var r := Drain(Receive(p, first));
      && r.Ok? && r.value.0 == [] && r.value.1.splitted && r.value.1.position == |first| - 4
      && var s := Receive(r.value.1, second);
      && s.content[|first| - 4..|first| - 4 + |second|] == second
      && s.received == |first| + |second|
  {
    var p1 := Receive(p, first);
    assert p1.content[..4] == first[..4];
    var s := Receive(Drain(p1).value.1, second);
    assert s.content[|first| - 4..|first| - 4 + |second|] == second;
  }

  /** The parser after the first eight bytes of the request 1, 2, 3, 4, 5, 6. */
  lemma SplitFirstHalf()
    ensures Drain(Receive(Init(), [6, 0, 0, 0, 1, 2, 3, 4])) == Ok(([], Parser([6, 0, 0, 0, 1, 2, 3, 4], 4, 8, 6, true)))
  {
    var p1 := Receive(Init(), [6, 0, 0, 0, 1, 2, 3, 4]);
    assert p1.content == [6, 0, 0, 0, 1, 2, 3, 4];
    assert DecodeLE([6, 0, 0, 0]) == 6;
    assert p1.content[0..4] == [6, 0, 0, 0];
  }

  /** The parser after the last two bytes: the report, with 5, 6 written over 1, 2. */
  lemma SplitSecondHalf()
    ensures var q := Parser([6, 0, 0, 0, 5, 6, 3, 4], 4, 10, 6, false);
      Drain(Receive(Parser([6, 0, 0, 0, 1, 2, 3, 4], 4, 8, 6, true), [5, 6])) == Ok(([q], q.(messageLength := -1, received := 0)))
  {
    var p2 := Receive(Parser([6, 0, 0, 0, 1, 2, 3, 4], 4, 8, 6, true), [5, 6]);
    assert p2.content == [6, 0, 0, 0, 5, 6, 3, 4];
    assert p2 == Parser([6, 0, 0, 0, 5, 6, 3, 4], 6, 10, 6, true);
    assert Remaining(p2) == 6;
    var q := Parser([6, 0, 0, 0, 5, 6, 3, 4], 4, 10, 6, false);
    assert MessageAvailable(p2) == Ok((true, q));
    assert Drain(q) == Ok(([], q.(messageLength := -1, received := 0)));
    assert [q] + [] == [q];
  }

  /**
   * The six-byte request 1, 2, 3, 4, 5, 6 arriving as eight bytes then two
   * is reported with the bytes 5, 6, 3, 4 after its prefix, four bytes
   * shorter than its prefix claims.
   */
  lemma SplitFrameCorrupts()
    ensures var whole := Frame([1, 2, 3, 4, 5, 6]);
      && var r1 := Drain(Receive(Init(), whole[..8]));
      && r1.Ok? && r1.value.0 == []
      && var r2 := Drain(Receive(r1.value.1, whole[8..]));
      && r2.Ok? && |r2.value.0| == 1
      && r2.value.0[0].content[4..] == [5, 6, 3, 4]
      && r2.value.0[0].messageLength == 6
  {
    assert EncodeLE(6) == [6, 0, 0, 0];
    var whole := Frame([1, 2, 3, 4, 5, 6]);
    assert whole == [6, 0, 0, 0, 1, 2, 3, 4, 5, 6];
    assert whole[..8] == [6, 0, 0, 0, 1, 2, 3, 4];
    assert whole[8..] == [5, 6];
    SplitFirstHalf();
    SplitSecondHalf();
  }
}
