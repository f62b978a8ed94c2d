/**
 * The calling side: ServiceClient in src/Client/ServiceClient.cs (framed
 * requests, sub-framed parameters) and the older ServiceProxy classes in
 * src/ServiceProxy.cs and ServiceProxy.cs (unframed requests, one raw
 * argument). The generated interface proxies are modelled by the request
 * they build.
 */
module CallClient {
  import opened Wrappers
  import opened LittleEndian
  import opened Codecs
  import opened Faults
  import opened ParamFrames
  import opened Dispatch

  /** The return type a void interface method is called with. */
  const PlaceHolderType: TypeName := "PlaceHolderType"

  /** The literal argument sent for a parameterless method by the older proxies. */
  const EmptyArgument: string := "<EMPTY>"

  /**
   * CallServiceMethod's request burst: a four-byte placeholder, the
   * namespace and method strings and the parameter bytes, then the
   * placeholder back-patched with the burst length minus 4 (both `int`
   * computations are unchecked).
   */
  function FramedRequest(f: StringFormat, ns: string, methodName: string, paramBytes: seq<byte>): (r: seq<byte>)
    ensures |r| == 4 + |f.write(ns)| + |f.write(methodName)| + |paramBytes|
    ensures r[4..] == f.write(ns) + f.write(methodName) + paramBytes
    ensures |r| <= MaxInt32 ==> DecodeLE(r[..4]) == |r| - 4
  {
    var body := f.write(ns) + f.write(methodName) + paramBytes;
    var messageLength := Wrap(4 + |body|);
    var header := Wrap(messageLength - 4);
    DecodeEncode(header);
    var r := EncodeLE(header) + body;
    assert r[..4] == EncodeLE(header);
    r
  }

  /** The generated ServiceClient proxy: every argument serialized in order into one stream, then one framed call. */
  function ProxyRequest<V>(p: Platform<V>, ns: string, methodName: string, args: seq<V>): seq<byte>
  {
    FramedRequest(p.strings, ns, methodName, SerializeAll(p.codec, [], args))
  }

  /**
   * The framed request, past its length prefix, reads back as the namespace,
   * the method name and the sub-frames of the arguments, in order.
   */
  lemma ProxyRequestDecodes<V(!new)>(p: Platform<V>, ns: string, methodName: string, args: seq<V>)
    requires SelfDelimiting(p.strings) && RoundTrips(p.codec) && FitInt32(p.codec, args)
    ensures var req := ProxyRequest(p, ns, methodName, args);
      && ReadHeader(p.strings, req[4..]) == Some((ns, methodName, Frames(p.codec, args)))
      && ExtractParams(p.codec, TypesOf(p.codec, args), Frames(p.codec, args)) == Ok((args, []))
  {
    SerializeAllAppendsFrames(p.codec, [], args);
    assert [] + Frames(p.codec, args) == Frames(p.codec, args);
    ReadWrittenHeader(p.strings, ns, methodName, Frames(p.codec, args));
    ExtractFrames(p.codec, args, []);
    assert Frames(p.codec, args) + [] == Frames(p.codec, args);
  }

  /**
   * The older CallMethod request: namespace and method strings, then the
   * codec bytes of the argument unless it is null; no length prefix and no
   * per-parameter sub-frame.
   */
  function UnframedRequest<V>(p: Platform<V>, ns: string, methodName: string, param: Option<V>): seq<byte>
  {
    p.strings.write(ns) + p.strings.write(methodName) + (if param.None? then [] else p.codec.serialize(param.value))
  }

  /** The dispatcher reads the unframed request's header; the rest is the raw codec bytes of the argument. */
  lemma UnframedRequestDecodes<V>(p: Platform<V>, ns: string, methodName: string, param: Option<V>)
    requires SelfDelimiting(p.strings)
    ensures ReadHeader(p.strings, UnframedRequest(p, ns, methodName, param))
         == Some((ns, methodName, if param.None? then [] else p.codec.serialize(param.value)))
  {
    ReadWrittenHeader(p.strings, ns, methodName, if param.None? then [] else p.codec.serialize(param.value));
  }

  /**
   * The argument the older generated proxies pass to CallMethod: the literal
   * "<EMPTY>" for a parameterless method, otherwise the first argument only
   * (ServiceProxy.cs); `None` is a null reference.
   */
  function ForwardedArgument<V>(c: Codec<V>, args: seq<Option<V>>): (r: Option<V>)
    ensures |args| == 0 ==> r == Some(c.boxString(EmptyArgument))
    ensures |args| > 0 ==> r == args[0]
  {
    if |args| == 0 then Some(c.boxString(EmptyArgument)) else args[0]
  }

  /** Arguments after the first never reach the wire. */
  lemma TrailingArgumentsDropped<V>(p: Platform<V>, ns: string, methodName: string, args: seq<Option<V>>, others: seq<Option<V>>)
    requires |args| > 0 && |others| > 0 && args[0] == others[0]
    ensures UnframedRequest(p, ns, methodName, ForwardedArgument(p.codec, args))
         == UnframedRequest(p, ns, methodName, ForwardedArgument(p.codec, others))
  {
  }

  /**
   * How a client reads the response: the size of its receive buffer, whether
   * a remote error message is annotated with namespace and method, and
   * whether a PlaceHolderType result is returned without decoding.
   */
  datatype ClientVariant = ClientVariant(bufferSize: nat, annotate: bool, voidShortcut: bool)

  /** ServiceClient.CallServiceMethod: pooled 1024-byte buffer. */
  const FramedClient := ClientVariant(1024, true, true)
  /** CallMethod of src/ServiceProxy.cs: pooled 1024-byte buffer. */
  const PooledProxy := ClientVariant(1024, false, true)
  /** CallMethod of ServiceProxy.cs: fresh 2048-byte buffer, the result always decoded. */
  const LegacyProxy := ClientVariant(2048, false, false)

  datatype CallOutcome<!V> =
    | Returned(value: Option<V>)   // the decoded result; None is default(TOut)
    | RemoteError(message: string) // the exception raised for a failure envelope
    | LocalError(fault: Fault)     // any other exception on the client

  function RemoteMessage(variant: ClientVariant, ns: string, methodName: string, text: string): string
  {
    if variant.annotate then "Remote exception " + ns + "." + methodName + " : " + text else text
  }

  /** The single Stream.Read into the receive buffer, assuming the whole response is available. */
  function ReadOnce(response: seq<byte>, bufferSize: nat): (r: seq<byte>)
    ensures |r| == Min(|response|, bufferSize) && r == response[..|r|]
  {
    response[..Min(|response|, bufferSize)]
  }

  /**
   * Decoding the response: length = bytes read - 1, success iff the first
   * byte of the buffer is 1. A read of zero bytes leaves the first byte of
   * the buffer from its previous use (`stale`) and makes any use of the
   * negative length throw.
   */
  function DecodeResponse<V>(p: Platform<V>, variant: ClientVariant, ns: string, methodName: string,
                             resultType: TypeName, stale: byte, response: seq<byte>): (r: CallOutcome<V>)
    ensures var bytes := ReadOnce(response, variant.bufferSize);
      && (|bytes| > 0 ==> (r.RemoteError? <==> bytes[0] != 1))
      && (r.RemoteError? ==> |bytes| > 0 && r.message == RemoteMessage(variant, ns, methodName, p.text.getString(bytes[1..])))
      && (r.Returned? && r.value.Some? ==> |bytes| > 0 && p.codec.deserialize(resultType, bytes[1..]) == Ok(r.value.value))
      && (r.Returned? && r.value.None? ==> variant.voidShortcut && resultType == PlaceHolderType)
  {
    var bytes := ReadOnce(response, variant.bufferSize);
    var first := if |bytes| > 0 then bytes[0] else stale;
    if first != 1 then
      if |bytes| == 0 then LocalError(System(OutOfBounds))
      else RemoteError(RemoteMessage(variant, ns, methodName, p.text.getString(bytes[1..])))
    else if variant.voidShortcut && resultType == PlaceHolderType then Returned(None)
    else if |bytes| == 0 then LocalError(System(OutOfBounds))
    else
      match p.codec.deserialize(resultType, bytes[1..])
      case Err(m) => LocalError(CodecFailed(m))
      case Ok(v) => Returned(Some(v))
  }

  /** At most bufferSize - 1 payload bytes are ever seen: a longer response is cut at the buffer's end. */
  lemma PayloadBounded<V>(p: Platform<V>, variant: ClientVariant, ns: string, methodName: string,
                          resultType: TypeName, stale: byte, response: seq<byte>)
    requires |response| > variant.bufferSize > 0
    ensures var r := DecodeResponse(p, variant, ns, methodName, resultType, stale, response);
      && (r.RemoteError? ==> r.message == RemoteMessage(variant, ns, methodName, p.text.getString(response[1..variant.bufferSize])))
      && (r.Returned? && r.value.Some? ==> p.codec.deserialize(resultType, response[1..variant.bufferSize]) == Ok(r.value.value))
  {
    assert ReadOnce(response, variant.bufferSize)[1..] == response[1..variant.bufferSize];
  }

  /** A success envelope carrying a serialized value that fits the buffer decodes to that value. */
  lemma SuccessEnvelopeDecodes<V(!new)>(p: Platform<V>, variant: ClientVariant, ns: string, methodName: string, stale: byte, v: V)
    requires RoundTrips(p.codec)
    requires 1 + |p.codec.serialize(v)| <= variant.bufferSize
    requires !(variant.voidShortcut && p.codec.typeOf(v) == PlaceHolderType)
    ensures DecodeResponse(p, variant, ns, methodName, p.codec.typeOf(v), stale, [1] + p.codec.serialize(v)) == Returned(Some(v))
  {
    var response: seq<byte> := [1] + p.codec.serialize(v);
    assert ReadOnce(response, variant.bufferSize) == response;
    assert response[1..] == p.codec.serialize(v);
  }

  /** The success envelope of a void method, status byte alone, yields default without decoding. */
  lemma VoidEnvelopeDecodes<V>(p: Platform<V>, variant: ClientVariant, ns: string, methodName: string, stale: byte)
    requires variant.voidShortcut && variant.bufferSize > 0
    ensures DecodeResponse(p, variant, ns, methodName, PlaceHolderType, stale, [1]) == Returned(None)
  {
  }

  /**
   * A failure envelope from the dispatcher reaches the caller as a remote
   * error carrying the server's message (annotated with namespace and
   * method by ServiceClient).
   */
  lemma FailureEnvelopeDecodes<V>(p: Platform<V>, variant: ClientVariant, ns: string, methodName: string,
                                  resultType: TypeName, stale: byte, fault: Fault)
    requires TextRoundTrips(p.text) && OneBytePerChar(p.text)
    requires 1 + |Message(p.systemText, fault)| <= variant.bufferSize
    ensures FailureEnvelope(p, fault).Sent?
    ensures DecodeResponse(p, variant, ns, methodName, resultType, stale, FailureEnvelope(p, fault).response)
         == RemoteError(RemoteMessage(variant, ns, methodName, Message(p.systemText, fault)))
  {
    FailureCarriesMessage(p, fault);
    var msg := Message(p.systemText, fault);
    var response := [0] + p.text.getBytes(msg);
    assert ReadOnce(response, variant.bufferSize) == response;
    assert response[1..] == p.text.getBytes(msg);
  }

  /**
   * The client's view of a call to an unregistered namespace, when the
   * dispatcher is given the request body after its length prefix: a remote
   * error that names the namespace.
   */
  lemma UnknownNamespaceSeenByClient<V(!new)>(p: Platform<V>, reg: Registry<V>, ns: string, methodName: string, args: seq<V>,
                                              resultType: TypeName, stale: byte)
    requires SelfDelimiting(p.strings) && TextRoundTrips(p.text) && OneBytePerChar(p.text)
    requires ns !in reg
    requires 1 + |"Unknow namespace " + ns| <= FramedClient.bufferSize
    ensures var served := ServeRequest(p, reg, ProxyRequest(p, ns, methodName, args)[4..]);
      && served.Sent?
      && DecodeResponse(p, FramedClient, ns, methodName, resultType, stale, served.response)
         == RemoteError("Remote exception " + ns + "." + methodName + " : " + "Unknow namespace " + ns)
  {
    var request := ProxyRequest(p, ns, methodName, args)[4..];
    var paramBytes := SerializeAll(p.codec, [], args);
    assert request == p.strings.write(ns) + p.strings.write(methodName) + paramBytes;
    UnknownNamespaceResponse(p, reg, ns, methodName, paramBytes);
    var envelope := FailureEnvelope(p, UnknownNamespace(ns));
    FailureEnvelopeDecodes(p, FramedClient, ns, methodName, resultType, stale, UnknownNamespace(ns));
    FailureCarriesMessage(p, UnknownNamespace(ns));
    assert ServeRequest(p, reg, request) == envelope;
  }
}
