/**
 * Per-parameter sub-frames `[LE int32 length][codec bytes]`: the client
 * writes one per argument (ServiceClient.SerializeParam) and the invoker
 * reads one per declared parameter (MethodProxy.DeserializeParam, the same
 * code as TypeDescription.MethodDescription.DeserializeParam).
 * A stream being read is modelled by its unread bytes.
 */
module ParamFrames {
  import opened Wrappers
  import opened LittleEndian
  import opened Codecs
  import opened Faults

  /**
   * SerializeParam on a stream positioned at its end: a four-byte length
   * placeholder, the codec bytes, then the placeholder back-patched with the
   * number of codec bytes (cast to `int`), the position left at the end.
   */
  function SerializeParam<V>(c: Codec<V>, stream: seq<byte>, v: V): (r: seq<byte>)
    ensures |r| == |stream| + 4 + |c.serialize(v)|
    ensures r[..|stream|] == stream
    ensures r[|stream| + 4..] == c.serialize(v)
    ensures |c.serialize(v)| <= MaxInt32 ==> DecodeLE(r[|stream|..|stream| + 4]) == |c.serialize(v)|
  {
    var body := c.serialize(v);
    var length := Wrap(|body|);
    DecodeEncode(length);
    var r := stream + EncodeLE(length) + body;
    assert r[|stream|..|stream| + 4] == EncodeLE(length);
    r
  }

  /** The sub-frames of a whole argument list, in order. */
  function Frames<V>(c: Codec<V>, args: seq<V>): seq<byte>
  {
    if |args| == 0 then [] else SerializeParam(c, [], args[0]) + Frames(c, args[1..])
  }

  /** The generated client proxy: one SerializeParam call per argument, left to right. */
  function SerializeAll<V>(c: Codec<V>, stream: seq<byte>, args: seq<V>): seq<byte>
    decreases |args|
  {
    if |args| == 0 then stream else SerializeAll(c, SerializeParam(c, stream, args[0]), args[1..])
  }

  /** The proxy's stream ends up holding the argument sub-frames, in argument order. */
  lemma {:induction false} SerializeAllAppendsFrames<V>(c: Codec<V>, stream: seq<byte>, args: seq<V>)
    ensures SerializeAll(c, stream, args) == stream + Frames(c, args)
    decreases |args|
  {
    if |args| > 0 {
      var next := SerializeParam(c, stream, args[0]);
      assert next == stream + SerializeParam(c, [], args[0]);
      SerializeAllAppendsFrames(c, next, args[1..]);
    }
  }

  /** Every argument's encoding fits the int32 length prefix. */
  predicate FitInt32<V>(c: Codec<V>, args: seq<V>)
  {
    forall i :: 0 <= i < |args| ==> |c.serialize(args[i])| <= MaxInt32
  }

  /** The declared parameter types that match the runtime types of `args`. */
  function TypesOf<V>(c: Codec<V>, args: seq<V>): (ts: seq<TypeName>)
    ensures |ts| == |args|
    ensures forall i :: 0 <= i < |args| ==> ts[i] == c.typeOf(args[i])
  {
    seq(|args|, i requires 0 <= i < |args| => c.typeOf(args[i]))
  }

  /**
   * DeserializeParam: ReadInt32 (end of stream when fewer than four bytes
   * remain), ReadBytes(length) (a negative length is rejected; at most
   * `length` bytes, fewer at the end of the stream), and the codec applied to
   * exactly those bytes.
   */
  function DeserializeParam<V>(c: Codec<V>, t: TypeName, input: seq<byte>): (r: Result<(V, seq<byte>), Fault>)
    ensures |input| < 4 ==> r == Err(System(EndOfStream))
    ensures |input| >= 4 && DecodeLE(input[..4]) < 0 ==> r == Err(System(NegativeCount))
    ensures r.Ok? ==>
      && 4 <= |input| - |r.value.1| <= 4 + DecodeLE(input[..4])
      && IsSuffix(r.value.1, input)
      && c.deserialize(t, input[4..|input| - |r.value.1|]) == Ok(r.value.0)
    ensures |input| >= 4 && DecodeLE(input[..4]) >= 0 ==>
      var n := Min(DecodeLE(input[..4]), |input| - 4);
      && (r.Ok? <==> c.deserialize(t, input[4..4 + n]).Ok?)
      && (r.Ok? ==> r.value.1 == input[4 + n..])
      && (r.Err? ==> r.error == CodecFailed(c.deserialize(t, input[4..4 + n]).error))
  {
    if |input| < 4 then Err(System(EndOfStream))
    else
      var length := DecodeLE(input[..4]);
      if length < 0 then Err(System(NegativeCount))
      else
        var n := Min(length, |input| - 4);
        match c.deserialize(t, input[4..4 + n])
        case Err(m) => Err(CodecFailed(m))
        case Ok(v) => Ok((v, input[4 + n..]))
  }

  /** A parameter written by SerializeParam is read back by DeserializeParam, consuming exactly its frame. */
  lemma DeserializeSerialize<V(!new)>(c: Codec<V>, v: V, rest: seq<byte>)
    requires RoundTrips(c)
    requires |c.serialize(v)| <= MaxInt32
    ensures DeserializeParam(c, c.typeOf(v), SerializeParam(c, [], v) + rest) == Ok((v, rest))
  {
    var body := c.serialize(v);
    var input := SerializeParam(c, [], v) + rest;
    assert input[..4] == SerializeParam(c, [], v)[..4];
    assert input[4..4 + |body|] == body;
    assert input[4 + |body|..] == rest;
  }

  /**
   * The extractor built for a parametered method: one DeserializeParam per
   * declared parameter type, in declaration order, each reading where the
   * previous one stopped; the first failure aborts the extraction.
   */
  function ExtractParams<V>(c: Codec<V>, types: seq<TypeName>, input: seq<byte>): (r: Result<(seq<V>, seq<byte>), Fault>)
    ensures r.Ok? ==> |r.value.0| == |types|
    ensures r.Ok? ==> IsSuffix(r.value.1, input)
    ensures |types| > 0 && DeserializeParam(c, types[0], input).Err? ==> r == Err(DeserializeParam(c, types[0], input).error)
  {
    if |types| == 0 then Ok(([], input))
    else
      var first := DeserializeParam(c, types[0], input);
      if first.Err? then Err(first.error)
      else
        var rest := first.value.1;
        var others := ExtractParams(c, types[1..], rest);
        if others.Err? then Err(others.error)
        else
          SuffixOfSuffix(input, rest, others.value.1);
          Ok(([first.value.0] + others.value.0, others.value.1))
  }

  /**
   * Extracting `first + second` is extracting `first`, then `second` from
   * where it stopped: the values come in declaration order, and a failure
   * anywhere aborts the whole extraction with that failure.
   */
  lemma {:induction false} ExtractConcat<V>(c: Codec<V>, first: seq<TypeName>, second: seq<TypeName>, input: seq<byte>)
    ensures var front := ExtractParams(c, first, input);
      ExtractParams(c, first + second, input) ==
        if front.Err? then Err(front.error)
        else
          var back := ExtractParams(c, second, front.value.1);
          if back.Err? then Err(back.error) else Ok((front.value.0 + back.value.0, back.value.1))
    decreases |first|
  {
    if |first| == 0 {
      assert first + second == second;
      var back := ExtractParams(c, second, input);
      if back.Ok? {
        assert [] + back.value.0 == back.value.0;
      }
    } else {
      assert (first + second)[1..] == first[1..] + second;
      assert (first + second)[0] == first[0];
      var head := DeserializeParam(c, first[0], input);
      if head.Ok? {
        ExtractConcat(c, first[1..], second, head.value.1);
        var tail := ExtractParams(c, first[1..], head.value.1);
        if tail.Ok? {
          var back := ExtractParams(c, second, tail.value.1);
          if back.Ok? {
            assert [head.value.0] + (tail.value.0 + back.value.0) == ([head.value.0] + tail.value.0) + back.value.0;
          }
        }
      }
    }
  }

  /**
   * A parameter that fails to decode, after the ones declared before it
   * were read, makes the whole extraction fail with that failure, whatever
   * is declared after it, so the method is never called.
   */
  lemma AbortsOnAnyFailure<V>(c: Codec<V>, before: seq<TypeName>, t: TypeName, after: seq<TypeName>, input: seq<byte>)
    requires ExtractParams(c, before, input).Ok?
    requires DeserializeParam(c, t, ExtractParams(c, before, input).value.1).Err?
    ensures ExtractParams(c, before + [t] + after, input)
         == Err(DeserializeParam(c, t, ExtractParams(c, before, input).value.1).error)
  {
    var left := [t] + after;
    assert before + [t] + after == before + left;
    var rest := ExtractParams(c, before, input).value.1;
    assert left[0] == t;
    assert ExtractParams(c, left, rest) == Err(DeserializeParam(c, t, rest).error);
    ExtractConcat(c, before, left, input);
  }

  /** `b` is what is left of `a` after reading some bytes from its front. */
  predicate IsSuffix(b: seq<byte>, a: seq<byte>)
  {
    |b| <= |a| && b == a[|a| - |b|..]
  }

  lemma SuffixOfSuffix(a: seq<byte>, b: seq<byte>, c: seq<byte>)
    requires IsSuffix(b, a) && IsSuffix(c, b)
    ensures IsSuffix(c, a)
  {
  }

  /**
   * Round trip of the whole parameter list: the invoker decodes the client's
   * sub-frames into the same arguments in the same order, and leaves any
   * trailing bytes unread.
   */
  lemma {:induction false} ExtractFrames<V(!new)>(c: Codec<V>, args: seq<V>, rest: seq<byte>)
    requires RoundTrips(c)
    requires FitInt32(c, args)
    ensures ExtractParams(c, TypesOf(c, args), Frames(c, args) + rest) == Ok((args, rest))
  {
    if |args| > 0 {
      var tail := Frames(c, args[1..]) + rest;
      assert Frames(c, args) + rest == SerializeParam(c, [], args[0]) + tail;
      DeserializeSerialize(c, args[0], tail);
      assert TypesOf(c, args)[1..] == TypesOf(c, args[1..]);
      ExtractFrames(c, args[1..], rest);
      assert [args[0]] + args[1..] == args;
    }
  }
}
