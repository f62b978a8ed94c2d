/**
 * The namespace dispatcher and its response envelope: ServiceRegistry in
 * src/Service/ServiceRegistry.cs. src/Servant.cs and Servant.cs are the
 * same dispatcher over TypeDescription tables.
 */
module Dispatch {
  import opened Wrappers
  import opened LittleEndian
  import opened Codecs
  import opened Faults
  import opened ParamFrames
  import opened Invoker
  import opened MethodTable

  /** The namespace table: namespace to the method table of its instance. */
  type Registry<!V> = map<string, Table<V>>

  /**
   * AddClass (Register / Serve return the registry itself): the registry
   * after the call, and the exception raised, if any. The method table is
   * built before it is added, so a failing build leaves the registry as it was.
   */
  function AddClass<V>(reg: Registry<V>, ns: string, infos: seq<MethodInfo<V>>): (r: (Registry<V>, Option<Fault>))
    ensures ns in reg ==> r == (reg, Some(DuplicateNamespace(ns)))
    ensures r.1.Some? ==> r.0 == reg
    ensures r.1.None? <==> ns !in reg && FreshNames({}, infos)
    ensures r.1.None? ==> r.0.Keys == reg.Keys + {ns}
    ensures r.1.None? ==> forall k :: k in reg ==> r.0[k] == reg[k]
    ensures r.1.None? ==> r.0[ns].Keys == ExposedNames(infos)
  {
    if ns in reg then (reg, Some(DuplicateNamespace(ns)))
    else
      match Build(infos)
      case Err(e) => (reg, Some(e))
      case Ok(t) => (reg[ns := t], None)
  }

  /** CallMethod: an unregistered namespace raises before any method lookup. */
  function CallMethod<V(!new)>(c: Codec<V>, reg: Registry<V>, ns: string, methodName: string, input: seq<byte>): (r: Result<seq<byte>, Fault>)
    ensures ns !in reg ==> r == Err(UnknownNamespace(ns))
    ensures ns in reg && methodName !in reg[ns] ==> r == Err(UnknownMethod(methodName))
  {
    if ns !in reg then Err(UnknownNamespace(ns))
    else MethodTable.CallMethod(c, reg[ns], methodName, input)
  }

  /**
   * The request header: BinaryReader.ReadString twice from position 0; the
   * bytes after the method name are the parameter input.
   */
  function ReadHeader(f: StringFormat, request: seq<byte>): Option<(string, string, seq<byte>)>
  {
    match f.read(request)
    case None => None
    case Some((ns, afterNs)) =>
      match f.read(afterNs)
      case None => None
      case Some((methodName, rest)) => Some((ns, methodName, rest))
  }

  /** A header written with BinaryWriter.Write(string) is read back, with the parameter bytes intact. */
  lemma ReadWrittenHeader(f: StringFormat, ns: string, methodName: string, rest: seq<byte>)
    requires SelfDelimiting(f)
    ensures ReadHeader(f, f.write(ns) + f.write(methodName) + rest) == Some((ns, methodName, rest))
  {
    assert f.write(ns) + f.write(methodName) + rest == f.write(ns) + (f.write(methodName) + rest);
  }

  /** What happens to one request: exactly one response is sent, or an exception escapes the handler. */
  datatype Served = Sent(response: seq<byte>) | Escaped(fault: Fault)

  /**
   * The catch block: byte 0 of the output becomes 0 and the message is
   * appended, writing as many bytes of its encoding as the message has
   * characters; an encoding shorter than that makes the write itself throw.
   */
  function FailureEnvelope<V>(p: Platform<V>, fault: Fault): (r: Served)
    ensures var msg := Message(p.systemText, fault);
      && (r.Escaped? <==> |p.text.getBytes(msg)| < |msg|)
      && (r.Sent? ==> r.response == [0] + p.text.getBytes(msg)[..|msg|])
  {
    var msg := Message(p.systemText, fault);
    var bytes := p.text.getBytes(msg);
    if |bytes| < |msg| then Escaped(System(OutOfBounds))
    else Sent([0] + bytes[..|msg|])
  }

  /**
   * ServeRequest: read namespace and method (outside the try block), write
   * the success byte 1, dispatch with the rest of the request as input, and
   * on an exception turn the envelope into a failure one.
   */
  function ServeRequest<V(!new)>(p: Platform<V>, reg: Registry<V>, request: seq<byte>): (r: Served)
    ensures ReadHeader(p.strings, request).None? ==> r.Escaped?
    ensures ReadHeader(p.strings, request).Some? && NoShorterThanText(p.text) ==> r.Sent?
    ensures r.Sent? ==> |r.response| >= 1 && (r.response[0] == 1 || r.response[0] == 0)
    ensures r.Sent? ==> var (ns, methodName, rest) := ReadHeader(p.strings, request).value;
      && (r.response[0] == 1 <==> CallMethod(p.codec, reg, ns, methodName, rest).Ok?)
      && (r.response[0] == 1 ==> r.response[1..] == CallMethod(p.codec, reg, ns, methodName, rest).value)
      && (r.response[0] == 0 ==>
            var msg := Message(p.systemText, CallMethod(p.codec, reg, ns, methodName, rest).error);
            && |msg| <= |p.text.getBytes(msg)|
            && |r.response| == 1 + |msg| && r.response[1..] == p.text.getBytes(msg)[..|msg|])
  {
    match ReadHeader(p.strings, request)
    case None => Escaped(System(BadStringHeader))
    case Some((ns, methodName, rest)) =>
      match CallMethod(p.codec, reg, ns, methodName, rest)
      case Ok(out) => Sent([1] + out)
      case Err(e) => FailureEnvelope(p, e)
  }

  /** With a single-byte code page the failure envelope carries the whole message. */
  lemma FailureCarriesMessage<V>(p: Platform<V>, fault: Fault)
    requires OneBytePerChar(p.text)
    ensures FailureEnvelope(p, fault) == Sent([0] + p.text.getBytes(Message(p.systemText, fault)))
  {
    var msg := Message(p.systemText, fault);
    assert p.text.getBytes(msg)[..|msg|] == p.text.getBytes(msg);
  }

  /**
   * A calling namespace that was never registered gets a failure envelope
   * naming it, whatever the method and parameters.
   */
  lemma UnknownNamespaceResponse<V(!new)>(p: Platform<V>, reg: Registry<V>, ns: string, methodName: string, rest: seq<byte>)
    requires SelfDelimiting(p.strings) && OneBytePerChar(p.text)
    requires ns !in reg
    ensures ServeRequest(p, reg, p.strings.write(ns) + p.strings.write(methodName) + rest)
         == Sent([0] + p.text.getBytes("Unknow namespace " + ns))
  {
    ReadWrittenHeader(p.strings, ns, methodName, rest);
    FailureCarriesMessage(p, UnknownNamespace(ns));
  }

  lemma UnknownMethodResponse<V(!new)>(p: Platform<V>, reg: Registry<V>, ns: string, methodName: string, rest: seq<byte>)
    requires SelfDelimiting(p.strings) && OneBytePerChar(p.text)
    requires ns in reg && methodName !in reg[ns]
    ensures ServeRequest(p, reg, p.strings.write(ns) + p.strings.write(methodName) + rest)
         == Sent([0] + p.text.getBytes("Unknow method name : " + methodName))
  {
    ReadWrittenHeader(p.strings, ns, methodName, rest);
    FailureCarriesMessage(p, UnknownMethod(methodName));
  }

  /**
   * A request for a registered method whose parameters are the sub-frames of
   * arguments of the declared types is answered with status 1 followed by
   * the method's serialized result (nothing for a void method), or, when the
   * method throws, with status 0 followed by its message.
   */
  lemma RegisteredCallResponse<V(!new)>(p: Platform<V>, reg: Registry<V>, ns: string, methodName: string, args: seq<V>, rest: seq<byte>)
    requires WellBehaved(p) && OneBytePerChar(p.text)
    requires ns in reg && methodName in reg[ns]
    requires FitInt32(p.codec, args) && reg[ns][methodName].paramTypes == TypesOf(p.codec, args)
    ensures var m := reg[ns][methodName];
      ServeRequest(p, reg, p.strings.write(ns) + p.strings.write(methodName) + Frames(p.codec, args) + rest)
      == match m.body(args)
         case Ok(v) => Sent([1] + (if m.returnsVoid then [] else p.codec.serialize(v)))
         case Err(msg) => Sent([0] + p.text.getBytes(msg))
  {
    var m := reg[ns][methodName];
    var params := Frames(p.codec, args) + rest;
    assert p.strings.write(ns) + p.strings.write(methodName) + Frames(p.codec, args) + rest
        == p.strings.write(ns) + p.strings.write(methodName) + params;
    ReadWrittenHeader(p.strings, ns, methodName, params);
    ExecuteDecodedArguments(p.codec, m, args, rest);
    if m.body(args).Err? {
      FailureCarriesMessage(p, Thrown(m.body(args).error));
    }
  }

  /**
   * Registering a namespace twice fails and keeps the first registration:
   * calls into that namespace behave exactly as before.
   */
  lemma DuplicateKeepsFirst<V(!new)>(c: Codec<V>, reg: Registry<V>, ns: string, first: seq<MethodInfo<V>>, second: seq<MethodInfo<V>>, methodName: string, input: seq<byte>)
    requires AddClass(reg, ns, first).1.None?
    ensures var reg1 := AddClass(reg, ns, first).0;
      && AddClass(reg1, ns, second) == (reg1, Some(DuplicateNamespace(ns)))
      && CallMethod(c, AddClass(reg1, ns, second).0, ns, methodName, input) == CallMethod(c, reg1, ns, methodName, input)
  {
  }

  /** After a successful registration, a call reaches the exposed method of that name. */
  lemma RegisteredMethodIsCalled<V(!new)>(c: Codec<V>, reg: Registry<V>, ns: string, infos: seq<MethodInfo<V>>, i: nat, input: seq<byte>)
    requires AddClass(reg, ns, infos).1.None?
    requires i < |infos| && Exposed(infos[i])
    ensures CallMethod(c, AddClass(reg, ns, infos).0, ns, infos[i].name, input) == Execute(c, infos[i], input)
  {
  }
}
