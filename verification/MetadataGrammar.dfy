/** The metadata block as a language: a printer and a parser on byte strings, and the proof
    that they are inverse to each other. The imperative codec is proved against these. */
module MetadataGrammar {
  import opened Base
  import opened LittleEndian
  import opened Metadata

  /** The outcome of a parser: a value read from the front of the input and the input that is
      left, or failure. Every failure of the block carries the same status code. */
  datatype Parsed<+T> = Fail | Got(value: T, rest: seq<byte>) {
    predicate IsFailure() {
      Fail?
    }

    function PropagateFailure<U>(): Parsed<U>
      requires Fail?
    {
      Fail
    }

    function Extract(): (T, seq<byte>)
      requires Got?
    {
      (value, rest)
    }
  }

  // ---------------------------------------------------------------- printers

  function U64Bytes(v: u64): seq<byte> {
    Le(8, v)
  }

  function OptionalU32Bytes(v: Option<u32>): seq<byte> {
    match v
    case None => [0]
    case Some(n) => [1] + Le(4, n)
  }

  function OptionalUuidBytes(v: Option<UUID>): seq<byte> {
    match v
    case None => [0]
    case Some(id) => [1] + (Le(8, id.msb) + Le(8, id.lsb))
  }

  function TextBytes(t: Text): seq<byte> {
    Le(4, |t|) + t
  }

  function OptionalTextBytes(v: Option<Text>): seq<byte> {
    match v
    case None => [0]
    case Some(t) => [1] + TextBytes(t)
  }

  function OptionalCodeBytes(v: Option<byte>): seq<byte> {
    match v
    case None => [0]
    case Some(c) => [1] + [c]
  }

  function EncodingBytes(e: PayloadEncoding): seq<byte> {
    match e
    case Standard(format) => [0] + [format]
    case Custom(id, contentType) => [1] + (TextBytes(id) + TextBytes(contentType))
  }

  function OptionalEncodingBytes(v: Option<PayloadEncoding>): seq<byte> {
    match v
    case None => [0]
    case Some(e) => [1] + EncodingBytes(e)
  }

  /** The thirteen fields in block order, with the given texts for source and sink. */
  function Fields(m: FrameMetadata, source: Text, sink: Text): (fields: seq<seq<byte>>)
    ensures |fields| == 13
  {
    [ U64Bytes(m.attributes.id.msb),
      U64Bytes(m.attributes.id.lsb),
      [MessageTypeByte(m.attributes.messageType)],
      [PriorityByte(m.attributes.priority)],
      OptionalU32Bytes(m.attributes.ttl),
      TextBytes(source),
      TextBytes(sink),
      OptionalEncodingBytes(m.encoding),
      OptionalUuidBytes(m.attributes.requestId),
      OptionalTextBytes(m.attributes.traceparent),
      OptionalTextBytes(m.attributes.token),
      OptionalU32Bytes(m.attributes.permissionLevel),
      OptionalCodeBytes(m.attributes.commStatus)
    ]
  }

  function Concat(parts: seq<seq<byte>>, rest: seq<byte>): seq<byte> {
    if parts == [] then rest else parts[0] + Concat(parts[1..], rest)
  }

  function Block(m: FrameMetadata, source: Text, sink: Text): seq<byte> {
    Concat(Fields(m, source, sink), [])
  }

  /** The block the encoder writes: URIs in the library's own spelling. */
  function EncodedBlock(lib: Library, m: FrameMetadata): seq<byte> {
    Block(m, lib.uriText(m.attributes.source), lib.SinkText(m.attributes.sink))
  }

  predicate FitsText(t: Text) {
    |t| < U32_LIMIT
  }

  predicate FitsOptionalText(t: Option<Text>) {
    t.Some? ==> FitsText(t.value)
  }

  predicate FitsEncoding(e: Option<PayloadEncoding>) {
    match e
    case Some(Custom(id, contentType)) => FitsText(id) && FitsText(contentType)
    case _ => true
  }

  /** Every string of the block is short enough for its 32-bit length field. */
  predicate Fits(m: FrameMetadata, source: Text, sink: Text) {
    && FitsText(source)
    && FitsText(sink)
    && FitsEncoding(m.encoding)
    && FitsOptionalText(m.attributes.traceparent)
    && FitsOptionalText(m.attributes.token)
  }

  predicate Encodable(lib: Library, m: FrameMetadata) {
    Fits(m, lib.uriText(m.attributes.source), lib.SinkText(m.attributes.sink))
  }

  // ----------------------------------------------------------------- parsers

  function ParseBytes(s: seq<byte>, len: nat): Parsed<seq<byte>> {
    if |s| < len then Fail else Got(s[..len], s[len..])
  }

  function ParseU8(s: seq<byte>): Parsed<byte> {
    if s == [] then Fail else Got(s[0], s[1..])
  }

  function ParseU64(s: seq<byte>): Parsed<u64> {
    var (bytes, rest) :- ParseBytes(s, 8);
    Got(ReadU64(bytes), rest)
  }

  function ParseText(lib: Library, s: seq<byte>): Parsed<Text> {
    var (lenBytes, s1) :- ParseBytes(s, 4);
    var (text, rest) :- ParseBytes(s1, ReadU32(lenBytes));
    if lib.isUtf8(text) then Got(text, rest) else Fail
  }

  function ParseOptionalU32(s: seq<byte>): Parsed<Option<u32>> {
    var (flag, s1) :- ParseU8(s);
    match flag
    case 0 => Got(None, s1)
    case 1 =>
      var (bytes, rest) :- ParseBytes(s1, 4);
      Got(Some(ReadU32(bytes)), rest)
    case _ => Fail
  }

  function ParseUuid(lib: Library, s: seq<byte>): Parsed<UUID> {
    var (msb, s1) :- ParseU64(s);
    var (lsb, rest) :- ParseU64(s1);
    if lib.isUuid(msb, lsb) then Got(UUID(msb, lsb), rest) else Fail
  }

  function ParseOptionalUuid(lib: Library, s: seq<byte>): Parsed<Option<UUID>> {
    var (flag, s1) :- ParseU8(s);
    match flag
    case 0 => Got(None, s1)
    case 1 =>
      var (id, rest) :- ParseUuid(lib, s1);
      Got(Some(id), rest)
    case _ => Fail
  }

  function ParseOptionalText(lib: Library, s: seq<byte>): Parsed<Option<Text>> {
    var (flag, s1) :- ParseU8(s);
    match flag
    case 0 => Got(None, s1)
    case 1 =>
      var (text, rest) :- ParseText(lib, s1);
      Got(Some(text), rest)
    case _ => Fail
  }

  function ParseOptionalCode(lib: Library, s: seq<byte>): Parsed<Option<byte>> {
    var (flag, s1) :- ParseU8(s);
    match flag
    case 0 => Got(None, s1)
    case 1 =>
      var (code, rest) :- ParseU8(s1);
      if lib.isCode(code) then Got(Some(code), rest) else Fail
    case _ => Fail
  }

  function ParseMessageType(s: seq<byte>): Parsed<MessageType> {
    var (b, rest) :- ParseU8(s);
    match ByteMessageType(b)
    case Ok(t) => Got(t, rest)
    case Err(_) => Fail
  }

  function ParsePriority(s: seq<byte>): Parsed<Priority> {
    var (b, rest) :- ParseU8(s);
    match BytePriority(b)
    case Ok(p) => Got(p, rest)
    case Err(_) => Fail
  }

  function ParseEncoding(lib: Library, s: seq<byte>): Parsed<PayloadEncoding> {
    var (kind, s1) :- ParseU8(s);
    match kind
    case 0 =>
      var (format, rest) :- ParseU8(s1);
      if lib.isFormat(format) then Got(Standard(format), rest) else Fail
    case 1 =>
      var (id, s2) :- ParseText(lib, s1);
      var (contentType, rest) :- ParseText(lib, s2);
      if lib.isCustomEncoding(id, contentType) then Got(Custom(id, contentType), rest) else Fail
    case _ => Fail
  }

  function ParseOptionalEncoding(lib: Library, s: seq<byte>): Parsed<Option<PayloadEncoding>> {
    var (flag, s1) :- ParseU8(s);
    match flag
    case 0 => Got(None, s1)
    case 1 =>
      var (e, rest) :- ParseEncoding(lib, s1);
      Got(Some(e), rest)
    case _ => Fail
  }

  function SourceOf(lib: Library, text: Text): Result<UUri> {
    match lib.parseUri(text)
    case Some(uri) => Ok(uri)
    case None => Err(InvalidArgument)
  }

  function SinkOf(lib: Library, text: Text): Result<Option<UUri>> {
    if text == [] then Ok(None) else
      var uri :- SourceOf(lib, text);
      Ok(Some(uri))
  }

  function ParseSource(lib: Library, s: seq<byte>): Parsed<UUri> {
    var (text, rest) :- ParseText(lib, s);
    match SourceOf(lib, text)
    case Ok(uri) => Got(uri, rest)
    case Err(_) => Fail
  }

  function ParseSink(lib: Library, s: seq<byte>): Parsed<Option<UUri>> {
    var (text, rest) :- ParseText(lib, s);
    match SinkOf(lib, text)
    case Ok(sink) => Got(sink, rest)
    case Err(_) => Fail
  }

  /** The whole block, read from the front of `s`; the fields come in block order. */
  function ParseMetadata(lib: Library, s: seq<byte>): Parsed<FrameMetadata> {
    var (id, s1) :- ParseUuid(lib, s);
    var (messageType, s2) :- ParseMessageType(s1);
    var (priority, s3) :- ParsePriority(s2);
    var (ttl, s4) :- ParseOptionalU32(s3);
    var (source, s5) :- ParseSource(lib, s4);
    var (sink, s6) :- ParseSink(lib, s5);
    var (encoding, s7) :- ParseOptionalEncoding(lib, s6);
    var (requestId, s8) :- ParseOptionalUuid(lib, s7);
    var (traceparent, s9) :- ParseOptionalText(lib, s8);
    var (token, s10) :- ParseOptionalText(lib, s9);
    var (permissionLevel, s11) :- ParseOptionalU32(s10);
    var (commStatus, rest) :- ParseOptionalCode(lib, s11);
    Got(FrameMetadata(Attributes(id, messageType, priority, ttl, source, sink, requestId,
                                 traceparent, token, permissionLevel, commStatus), encoding), rest)
  }

  /** A block is accepted when it parses with nothing left over. */
  function DecodedBlock(lib: Library, block: seq<byte>): Result<FrameMetadata> {
    match ParseMetadata(lib, block)
    case Got(m, rest) => if rest == [] then Ok(m) else Err(InvalidArgument)
    case Fail => Err(InvalidArgument)
  }

  // ------------------------------------- each parser inverts its printer exactly

  lemma BytesExact(s: seq<byte>, bs: seq<byte>, rest: seq<byte>)
    ensures ParseBytes(s, |bs|) == Got(bs, rest) <==> s == bs + rest
  {
    if s == bs + rest {
      assert s[..|bs|] == bs && s[|bs|..] == rest;
    }
  }

  lemma U8Exact(s: seq<byte>, b: byte, rest: seq<byte>)
    ensures ParseU8(s) == Got(b, rest) <==> s == [b] + rest
  {
  }

  lemma U64Exact(s: seq<byte>, v: u64, rest: seq<byte>)
    ensures ParseU64(s) == Got(v, rest) <==> s == U64Bytes(v) + rest
  {
    if s == U64Bytes(v) + rest {
      U64RoundTrip(v);
      BytesExact(s, U64Bytes(v), rest);
    }
    if ParseU64(s) == Got(v, rest) {
      LeOfValue(s[..8]);
      BytesExact(s, s[..8], rest);
    }
  }

  lemma TextExact(lib: Library, s: seq<byte>, t: Text, rest: seq<byte>)
    ensures ParseText(lib, s) == Got(t, rest) <==>
            FitsText(t) && lib.isUtf8(t) && s == TextBytes(t) + rest
  {
    if FitsText(t) && s == TextBytes(t) + rest {
      U32RoundTrip(|t|);
      assert s == Le(4, |t|) + (t + rest);
      BytesExact(s, Le(4, |t|), t + rest);
      BytesExact(t + rest, t, rest);
    }
    if ParseText(lib, s) == Got(t, rest) {
      LeOfValue(s[..4]);
      BytesExact(s[4..], t, rest);
      assert s == s[..4] + s[4..];
    }
  }

  lemma OptionalU32Exact(s: seq<byte>, v: Option<u32>, rest: seq<byte>)
    ensures ParseOptionalU32(s) == Got(v, rest) <==> s == OptionalU32Bytes(v) + rest
  {
    if s == OptionalU32Bytes(v) + rest {
      if v.Some? {
        U32RoundTrip(v.value);
        BytesExact(s[1..], Le(4, v.value), rest);
      }
    }
    if ParseOptionalU32(s) == Got(v, rest) && v.Some? {
      LeOfValue(s[1..5]);
      BytesExact(s[1..], s[1..5], rest);
    }
  }

  lemma UuidExact(lib: Library, s: seq<byte>, v: UUID, rest: seq<byte>)
    ensures ParseUuid(lib, s) == Got(v, rest) <==>
            lib.ValidUuid(v) && s == U64Bytes(v.msb) + (U64Bytes(v.lsb) + rest)
  {
    U64Exact(s, v.msb, U64Bytes(v.lsb) + rest);
    U64Exact(U64Bytes(v.lsb) + rest, v.lsb, rest);
    if ParseUuid(lib, s) == Got(v, rest) {
      var s1 := ParseU64(s).rest;
      U64Exact(s, v.msb, s1);
      U64Exact(s1, v.lsb, rest);
    }
  }

  lemma OptionalUuidExact(lib: Library, s: seq<byte>, v: Option<UUID>, rest: seq<byte>)
    ensures ParseOptionalUuid(lib, s) == Got(v, rest) <==>
            lib.ValidOptionalUuid(v) && s == OptionalUuidBytes(v) + rest
  {
    if v.Some? && s != [] {
      UuidExact(lib, s[1..], v.value, rest);
      var two := U64Bytes(v.value.msb) + U64Bytes(v.value.lsb);
      assert two + rest == U64Bytes(v.value.msb) + (U64Bytes(v.value.lsb) + rest);
      assert [1] + two + rest == [1] + (two + rest);
      U8Exact(s, 1, two + rest);
    }
  }

  lemma OptionalTextExact(lib: Library, s: seq<byte>, v: Option<Text>, rest: seq<byte>)
    ensures ParseOptionalText(lib, s) == Got(v, rest) <==>
            FitsOptionalText(v) && lib.ValidOptionalText(v) && s == OptionalTextBytes(v) + rest
  {
    if v.Some? && s != [] {
      TextExact(lib, s[1..], v.value, rest);
      assert [1] + TextBytes(v.value) + rest == [1] + (TextBytes(v.value) + rest);
      U8Exact(s, 1, TextBytes(v.value) + rest);
    }
  }

  lemma OptionalCodeExact(lib: Library, s: seq<byte>, v: Option<byte>, rest: seq<byte>)
    ensures ParseOptionalCode(lib, s) == Got(v, rest) <==>
            (v.Some? ==> lib.isCode(v.value)) && s == OptionalCodeBytes(v) + rest
  {
    if v.Some? && s != [] {
      U8Exact(s[1..], v.value, rest);
      assert [1] + [v.value] + rest == [1] + ([v.value] + rest);
      U8Exact(s, 1, [v.value] + rest);
    }
  }

  lemma MessageTypeExact(s: seq<byte>, t: MessageType, rest: seq<byte>)
    ensures ParseMessageType(s) == Got(t, rest) <==> s == [MessageTypeByte(t)] + rest
  {
    U8Exact(s, MessageTypeByte(t), rest);
  }

  lemma PriorityExact(s: seq<byte>, p: Priority, rest: seq<byte>)
    ensures ParsePriority(s) == Got(p, rest) <==> s == [PriorityByte(p)] + rest
  {
    U8Exact(s, PriorityByte(p), rest);
  }

  lemma EncodingExact(lib: Library, s: seq<byte>, e: PayloadEncoding, rest: seq<byte>)
    ensures ParseEncoding(lib, s) == Got(e, rest) <==>
            FitsEncoding(Some(e)) && lib.ValidEncoding(Some(e)) && s == EncodingBytes(e) + rest
  {
    match e
    case Standard(format) =>
      if s != [] {
        U8Exact(s[1..], format, rest);
        assert [0] + [format] + rest == [0] + ([format] + rest);
        U8Exact(s, 0, [format] + rest);
      }
    case Custom(id, contentType) =>
      if s != [] {
        var second := TextBytes(contentType) + rest;
        var body := TextBytes(id) + TextBytes(contentType);
        assert body + rest == TextBytes(id) + second;
        assert [1] + body + rest == [1] + (body + rest);
        U8Exact(s, 1, body + rest);
        TextExact(lib, s[1..], id, second);
        TextExact(lib, second, contentType, rest);
        if ParseEncoding(lib, s) == Got(e, rest) {
          var s2 := ParseText(lib, s[1..]).rest;
          TextExact(lib, s[1..], id, s2);
          TextExact(lib, s2, contentType, rest);
        }
      }
  }

  lemma OptionalEncodingExact(lib: Library, s: seq<byte>, v: Option<PayloadEncoding>, rest: seq<byte>)
    ensures ParseOptionalEncoding(lib, s) == Got(v, rest) <==>
            FitsEncoding(v) && lib.ValidEncoding(v) && s == OptionalEncodingBytes(v) + rest
  {
    if v.Some? && s != [] {
      EncodingExact(lib, s[1..], v.value, rest);
      assert [1] + EncodingBytes(v.value) + rest == [1] + (EncodingBytes(v.value) + rest);
      U8Exact(s, 1, EncodingBytes(v.value) + rest);
    }
  }
}
