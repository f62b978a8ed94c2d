/**
 * The invoker built once per reflected method: MethodProxy in
 * src/Service/MethodProxy.cs and its twin MethodDescription in
 * src/TypeDescription.cs. The IL they emit is modelled by its observable
 * contract: decode every declared parameter, call the method with the
 * decoded arguments in index order, serialize a non-void result.
 */
module Invoker {
  import opened Wrappers
  import opened LittleEndian
  import opened Codecs
  import opened Faults
  import opened ParamFrames

  /**
   * What reflection reports about one method of a registered instance.
   * `body` is the method itself: its result, or the message it throws.
   * For a void method the result is a placeholder that is never written.
   */
  datatype MethodInfo<!V> = MethodInfo(
    name: string,
    isPublic: bool,
    isStatic: bool,
    declaredHere: bool,
    paramTypes: seq<TypeName>,
    returnsVoid: bool,
    body: seq<V> -> Result<V, string>)

  /**
   * The emitted wrapper: call the method; a void return (mapped to
   * PlaceHolderType) is popped, anything else is serialized to the output.
   * Returns the bytes written to the output stream.
   */
  function Invoke<V>(c: Codec<V>, m: MethodInfo<V>, args: seq<V>): (r: Result<seq<byte>, Fault>)
    ensures r.Err? <==> m.body(args).Err?
    ensures r.Err? ==> r.error == Thrown(m.body(args).error)
    ensures r.Ok? && m.returnsVoid ==> r.value == []
    ensures r.Ok? && !m.returnsVoid ==> r.value == c.serialize(m.body(args).value)
  {
    match m.body(args)
    case Err(msg) => Err(Thrown(msg))
    case Ok(v) => Ok(if m.returnsVoid then [] else c.serialize(v))
  }

  /**
   * Execute: a parameterless method is called straight away; otherwise every
   * parameter is extracted first and only then is the method called.
   */
  function Execute<V(!new)>(c: Codec<V>, m: MethodInfo<V>, input: seq<byte>): (r: Result<seq<byte>, Fault>)
    ensures |m.paramTypes| > 0 && ExtractParams(c, m.paramTypes, input).Err? ==>
      r == Err(ExtractParams(c, m.paramTypes, input).error)
    ensures r.Ok? && m.returnsVoid ==> r.value == []
    ensures |m.paramTypes| > 0 && ExtractParams(c, m.paramTypes, input).Ok? ==>
      r == Invoke(c, m, ExtractParams(c, m.paramTypes, input).value.0)
  {
    if |m.paramTypes| == 0 then Invoke(c, m, [])
    else
      match ExtractParams(c, m.paramTypes, input)
      case Err(e) => Err(e)
      case Ok((args, _)) => Invoke(c, m, args)
  }

  /** A method with no parameters never reads its input stream. */
  lemma ParameterlessIgnoresInput<V(!new)>(c: Codec<V>, m: MethodInfo<V>, input: seq<byte>, other: seq<byte>)
    requires |m.paramTypes| == 0
    ensures Execute(c, m, input) == Execute(c, m, other)
    ensures Execute(c, m, input) == Invoke(c, m, [])
  {
  }

  /**
   * Fed the sub-frames of arguments of the declared types, the invoker calls
   * the method with exactly those arguments, in the same order.
   */
  lemma ExecuteDecodedArguments<V(!new)>(c: Codec<V>, m: MethodInfo<V>, args: seq<V>, rest: seq<byte>)
    requires RoundTrips(c)
    requires FitInt32(c, args)
    requires m.paramTypes == TypesOf(c, args)
    ensures Execute(c, m, Frames(c, args) + rest) == Invoke(c, m, args)
  {
    ExtractFrames(c, args, rest);
  }
}
