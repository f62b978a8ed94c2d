/**
 * The external encoders the runtime relies on, kept abstract: the
 * protobuf value codec, the length-prefixed string format of
 * BinaryWriter.Write(string) / BinaryReader.ReadString, and the text
 * encoding `Encoding.Default`. Each is a record of functions; the
 * round-trip behaviour the runtime takes for granted is a predicate
 * that lemmas assume as a hypothesis.
 */
module Codecs {
  import opened Wrappers
  import opened LittleEndian

  /** The name of a .NET type, as reflection reports it. */
  type TypeName = string

  /**
   * protobuf's `Serializer.Serialize(stream, value)` and
   * `Serializer.Deserialize<T>(stream)`; a failed deserialization carries
   * the exception message. `typeOf` is the runtime type of a value and
   * `boxString` the value of a .NET string.
   */
  datatype Codec<!V> = Codec(
    serialize: V -> seq<byte>,
    deserialize: (TypeName, seq<byte>) -> Result<V, string>,
    typeOf: V -> TypeName,
    boxString: string -> V)

  /** Deserializing at a value's own type gives the value back. */
  ghost predicate RoundTrips<V(!new)>(c: Codec<V>)
  {
    forall v :: c.deserialize(c.typeOf(v), c.serialize(v)) == Ok(v)
  }

  /**
   * `BinaryWriter.Write(string)` and `BinaryReader.ReadString()`: `read`
   * takes the unread bytes of a stream and yields the string and the bytes
   * left after it, or `None` when the reader throws.
   */
  datatype StringFormat = StringFormat(
    write: string -> seq<byte>,
    read: seq<byte> -> Option<(string, seq<byte>)>)

  /** A written string is read back whatever bytes follow it. */
  ghost predicate SelfDelimiting(f: StringFormat)
  {
    forall s, rest :: f.read(f.write(s) + rest) == Some((s, rest))
  }

  /** `Encoding.Default.GetBytes` / `Encoding.Default.GetString`. */
  datatype TextEncoding = TextEncoding(
    getBytes: string -> seq<byte>,
    getString: seq<byte> -> string)

  ghost predicate TextRoundTrips(t: TextEncoding)
  {
    forall s :: t.getString(t.getBytes(s)) == s
  }

  /** A single-byte code page: one byte per character. */
  ghost predicate OneBytePerChar(t: TextEncoding)
  {
    forall s :: |t.getBytes(s)| == |s|
  }

  /** At least one byte per character (a character being a Unicode scalar value), as UTF-8 and every ANSI code page give. */
  ghost predicate NoShorterThanText(t: TextEncoding)
  {
    forall s :: |t.getBytes(s)| >= |s|
  }

  /** Exceptions raised by the .NET base library rather than by this runtime. */
  datatype SystemError =
    | EndOfStream        // BinaryReader read past the end of its stream
    | NegativeCount      // ReadBytes / MemoryStream given a negative count
    | BadStringHeader    // ReadString failed
    | DuplicateKey       // Dictionary.Add with a key already present
    | OutOfBounds        // Stream.Write / GetString with count beyond the buffer
    | NegativePosition   // Stream.Position set below zero
    | NullReference      // a member accessed through a null reference

  /** Everything the runtime delegates to the platform. */
  datatype Platform<!V> = Platform(
    codec: Codec<V>,
    strings: StringFormat,
    text: TextEncoding,
    systemText: SystemError -> string)

  ghost predicate WellBehaved<V(!new)>(p: Platform<V>)
  {
    RoundTrips(p.codec) && SelfDelimiting(p.strings) && TextRoundTrips(p.text)
  }
}
