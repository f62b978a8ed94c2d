/** The exceptions the runtime raises or lets through, and their messages. */
module Faults {
  import opened Codecs

  datatype Fault =
    | UnknownNamespace(ns: string)        // raised by the dispatcher's CallMethod
    | UnknownMethod(name: string)         // raised by a method table's CallMethod
    | DuplicateNamespace(ns: string)      // raised by AddClass
    | System(error: SystemError)          // raised by the .NET base library
    | CodecFailed(message: string)        // raised by the protobuf codec
    | Thrown(message: string)             // raised by the invoked service method

  /** `Exception.Message` of each fault. */
  function Message(systemText: SystemError -> string, f: Fault): string
  {
    match f
    case UnknownNamespace(ns) => "Unknow namespace " + ns
    case UnknownMethod(name) => "Unknow method name : " + name
    case DuplicateNamespace(ns) => "Namespace already used " + ns + ", consider using an empty namespace"
    case System(e) => systemText(e)
    case CodecFailed(m) => m
    case Thrown(m) => m
  }
}
