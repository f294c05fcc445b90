/** The metadata encoder and decoder as they run: the encoder pushes to a byte vector, the
    decoder advances a cursor over a byte slice. */
module MetadataCodec {
  import opened Base
  import opened LittleEndian
  import opened Metadata
  import opened MetadataGrammar
  import opened MetadataTheorems

  /** The growing `Vec<u8>` of the encoder. */
  class ByteVec {
    var bytes: seq<byte>

    constructor ()
      ensures bytes == []
    {
      bytes := [];
    }

    method Push(b: byte)
      modifies this
      ensures bytes == old(bytes) + [b]
    {
      bytes := bytes + [b];
    }

    method Extend(bs: seq<byte>)
      modifies this
      ensures bytes == old(bytes) + bs
    {
      bytes := bytes + bs;
    }
  }

  /** The `&mut &[u8]` of the decoder: what is still to be read. */
  class Cursor {
    var rest: seq<byte>

    constructor (bytes: seq<byte>)
      ensures rest == bytes
    {
      rest := bytes;
    }
  }

  /** The outcome of a `take` on a cursor that held `before` and now holds `after`: it is what
      the parser says, and on success the cursor stands just behind the value. */
  ghost predicate Took<T(!new)>(r: Result<T>, after: seq<byte>, parsed: Parsed<T>) {
    match parsed
    case Got(value, rest) => r == Ok(value) && after == rest
    case Fail => r == Err(InvalidArgument)
  }

  // ----------------------------------------------------------------- encoder

  method WriteU64(dst: ByteVec, value: u64)
    modifies dst
    ensures dst.bytes == old(dst.bytes) + U64Bytes(value)
  {
    dst.Extend(Le(8, value));
  }

  method WriteOptionalU32(dst: ByteVec, value: Option<u32>)
    modifies dst
    ensures dst.bytes == old(dst.bytes) + OptionalU32Bytes(value)
  {
    match value
    case Some(n) =>
      dst.Push(1);
      dst.Extend(Le(4, n));
    case None => dst.Push(0);
  }

  method WriteOptionalUuid(dst: ByteVec, value: Option<UUID>)
    modifies dst
    ensures dst.bytes == old(dst.bytes) + OptionalUuidBytes(value)
  {
    match value
    case Some(id) =>
      dst.Push(1);
      WriteU64(dst, id.msb);
      WriteU64(dst, id.lsb);
    case None => dst.Push(0);
  }

  method AppendString(dst: ByteVec, value: Text) returns (r: Result<()>)
    modifies dst
    ensures r == if FitsText(value) then Ok(()) else Err(InvalidArgument)
    ensures dst.bytes == if r.Ok? then old(dst.bytes) + TextBytes(value) else old(dst.bytes)
  {
    var len :- TryU32(|value|);
    dst.Extend(Le(4, len));
    dst.Extend(value);
    return Ok(());
  }

  method WriteOptionalString(dst: ByteVec, value: Option<Text>) returns (r: Result<()>)
    modifies dst
    ensures r == if FitsOptionalText(value) then Ok(()) else Err(InvalidArgument)
    ensures r.Ok? ==> dst.bytes == old(dst.bytes) + OptionalTextBytes(value)
  {
    match value
    case Some(text) =>
      dst.Push(1);
      var _ :- AppendString(dst, text);
      return Ok(());
    case None =>
      dst.Push(0);
      return Ok(());
  }

  method WriteOptionalCode(dst: ByteVec, value: Option<byte>)
    modifies dst
    ensures dst.bytes == old(dst.bytes) + OptionalCodeBytes(value)
  {
    match value
    case Some(code) =>
      dst.Push(1);
      dst.Push(code);
    case None => dst.Push(0);
  }

  method EncodePayloadEncoding(dst: ByteVec, encoding: PayloadEncoding) returns (r: Result<()>)
    modifies dst
    ensures r == if FitsEncoding(Some(encoding)) then Ok(()) else Err(InvalidArgument)
    ensures r.Ok? ==> dst.bytes == old(dst.bytes) + EncodingBytes(encoding)
  {
    match encoding
    case Standard(format) =>
      dst.Push(0);
      dst.Push(format);
      return Ok(());
    case Custom(id, contentType) =>
      dst.Push(1);
      var _ :- AppendString(dst, id);
      var _ :- AppendString(dst, contentType);
      return Ok(());
  }

  method EncodeOptionalEncoding(dst: ByteVec, encoding: Option<PayloadEncoding>) returns (r: Result<()>)
    modifies dst
    ensures r == if FitsEncoding(encoding) then Ok(()) else Err(InvalidArgument)
    ensures r.Ok? ==> dst.bytes == old(dst.bytes) + OptionalEncodingBytes(encoding)
  {
    if encoding.Some? {
      dst.Push(1);
      r := EncodePayloadEncoding(dst, encoding.value);
    } else {
      dst.Push(0);
      r := Ok(());
    }
  }

  /** What has been pushed after the first `k` fields. */
  ghost function Pushed(fields: seq<seq<byte>>, k: nat): seq<byte>
    requires k <= |fields|
  {
    if k == 0 then [] else Pushed(fields, k - 1) + fields[k - 1]
  }

  lemma {:induction false} PushedIsConcat(fields: seq<seq<byte>>, k: nat)
    requires k <= |fields|
    ensures Pushed(fields, k) == Concat(fields[..k], [])
  {
    if k > 0 {
      PushedIsConcat(fields, k - 1);
      assert fields[..k] == fields[..k - 1] + [fields[k - 1]];
      ConcatAppend(fields[..k - 1], fields[k - 1]);
    }
  }

  /** The first seven fields: identity, class, lifetime and the two URIs. */
  method WriteRouting(dst: ByteVec, a: Attributes, source: Text, sink: Text, ghost fields: seq<seq<byte>>)
    returns (r: Result<()>)
    requires RoutingFields(fields, a, source, sink) && dst.bytes == []
    modifies dst
    ensures r == if FitsText(source) && FitsText(sink) then Ok(()) else Err(InvalidArgument)
    ensures r.Ok? ==> dst.bytes == Pushed(fields, 7)
  {
    hide TextBytes, U64Bytes, OptionalU32Bytes, FitsText;
    assert Pushed(fields, 0) == [];
    WriteU64(dst, a.id.msb);
    assert dst.bytes == Pushed(fields, 1);
    WriteU64(dst, a.id.lsb);
    assert dst.bytes == Pushed(fields, 2);
    dst.Push(MessageTypeByte(a.messageType));
    assert dst.bytes == Pushed(fields, 3);
    dst.Push(PriorityByte(a.priority));
    assert dst.bytes == Pushed(fields, 4);
    WriteOptionalU32(dst, a.ttl);
    assert dst.bytes == Pushed(fields, 5);
    var _ :- AppendString(dst, source);
    assert dst.bytes == Pushed(fields, 6);
    r := AppendString(dst, sink);
  }

  /** The last six fields: encoding, correlation, tracing, permission and status. */
  method WriteOptions(dst: ByteVec, m: FrameMetadata, ghost fields: seq<seq<byte>>) returns (r: Result<()>)
    requires OptionFields(fields, m) && dst.bytes == Pushed(fields, 7)
    modifies dst
    ensures r == if FitsEncoding(m.encoding) && FitsOptionalText(m.attributes.traceparent) && FitsOptionalText(m.attributes.token)
                 then Ok(()) else Err(InvalidArgument)
    ensures r.Ok? ==> dst.bytes == Pushed(fields, 13)
  {
    hide OptionalU32Bytes, OptionalEncodingBytes, OptionalUuidBytes, OptionalTextBytes, OptionalCodeBytes,
      FitsEncoding, FitsOptionalText;
    var a := m.attributes;
    var _ :- EncodeOptionalEncoding(dst, m.encoding);
    assert dst.bytes == Pushed(fields, 8);
    WriteOptionalUuid(dst, a.requestId);
    assert dst.bytes == Pushed(fields, 9);
    var _ :- WriteOptionalString(dst, a.traceparent);
    assert dst.bytes == Pushed(fields, 10);
    var _ :- WriteOptionalString(dst, a.token);
    assert dst.bytes == Pushed(fields, 11);
    WriteOptionalU32(dst, a.permissionLevel);
    assert dst.bytes == Pushed(fields, 12);
    WriteOptionalCode(dst, a.commStatus);
    return Ok(());
  }

  /** Succeeds exactly when every string fits its length field, and then writes the block of the
      metadata with the URIs in the library's spelling and the empty text for an absent sink. */
  method EncodeMetadata(lib: Library, m: FrameMetadata) returns (r: Result<seq<byte>>)
    ensures r == if Encodable(lib, m) then Ok(EncodedBlock(lib, m)) else Err(InvalidArgument)
  {
    hide TextBytes, U64Bytes, OptionalU32Bytes, OptionalEncodingBytes, OptionalUuidBytes, OptionalTextBytes,
      OptionalCodeBytes, FitsText, FitsEncoding, FitsOptionalText, Fields, Concat, Pushed;
    var source := lib.uriText(m.attributes.source);
    var sink := match m.attributes.sink case Some(uri) => lib.uriText(uri) case None => [];
    ghost var fields := Fields(m, source, sink);
    FieldList(m, source, sink);
    var bytes := new ByteVec();
    var _ :- WriteRouting(bytes, m.attributes, source, sink, fields);
    var _ :- WriteOptions(bytes, m, fields);
    PushedIsConcat(fields, 13);
    assert fields[..13] == fields;
    return Ok(bytes.bytes);
  }

  // ----------------------------------------------------------------- decoder

  method TakeBytes(src: Cursor, len: nat) returns (r: Result<seq<byte>>)
    modifies src
    ensures Took(r, src.rest, ParseBytes(old(src.rest), len))
    ensures r.Err? ==> src.rest == old(src.rest)
  {
    if |src.rest| < len {
      return Err(InvalidArgument);
    }
    var bytes := src.rest[..len];
    src.rest := src.rest[len..];
    return Ok(bytes);
  }

  method TakeU8(src: Cursor) returns (r: Result<byte>)
    modifies src
    ensures Took(r, src.rest, ParseU8(old(src.rest)))
    ensures r.Err? ==> src.rest == old(src.rest)
  {
    if src.rest == [] {
      return Err(InvalidArgument);
    }
    var value := src.rest[0];
    src.rest := src.rest[1..];
    return Ok(value);
  }

  method TakeU64(src: Cursor) returns (r: Result<u64>)
    modifies src
    ensures Took(r, src.rest, ParseU64(old(src.rest)))
  {
    var bytes :- TakeBytes(src, 8);
    return Ok(ReadU64(bytes));
  }

  method TakeString(lib: Library, src: Cursor) returns (r: Result<Text>)
    modifies src
    ensures Took(r, src.rest, ParseText(lib, old(src.rest)))
  {
    var lenBytes :- TakeBytes(src, 4);
    var bytes :- TakeBytes(src, ReadU32(lenBytes));
    if !lib.isUtf8(bytes) {
      return Err(InvalidArgument);
    }
    return Ok(bytes);
  }

  method TakeOptionalU32(src: Cursor) returns (r: Result<Option<u32>>)
    modifies src
    ensures Took(r, src.rest, ParseOptionalU32(old(src.rest)))
  {
    var flag :- TakeU8(src);
    match flag
    case 0 => return Ok(None);
    case 1 =>
      var bytes :- TakeBytes(src, 4);
      return Ok(Some(ReadU32(bytes)));
    case _ => return Err(InvalidArgument);
  }

  method TakeUuid(lib: Library, src: Cursor) returns (r: Result<UUID>)
    modifies src
    ensures Took(r, src.rest, ParseUuid(lib, old(src.rest)))
  {
    var msb :- TakeU64(src);
    var lsb :- TakeU64(src);
    if !lib.isUuid(msb, lsb) {
      return Err(InvalidArgument);
    }
    return Ok(UUID(msb, lsb));
  }

  method TakeOptionalUuid(lib: Library, src: Cursor) returns (r: Result<Option<UUID>>)
    modifies src
    ensures Took(r, src.rest, ParseOptionalUuid(lib, old(src.rest)))
  {
    var flag :- TakeU8(src);
    match flag
    case 0 => return Ok(None);
    case 1 =>
      var id :- TakeUuid(lib, src);
      return Ok(Some(id));
    case _ => return Err(InvalidArgument);
  }

  method TakeOptionalString(lib: Library, src: Cursor) returns (r: Result<Option<Text>>)
    modifies src
    ensures Took(r, src.rest, ParseOptionalText(lib, old(src.rest)))
  {
    var flag :- TakeU8(src);
    match flag
    case 0 => return Ok(None);
    case 1 =>
      var text :- TakeString(lib, src);
      return Ok(Some(text));
    case _ => return Err(InvalidArgument);
  }

  method TakeOptionalCode(lib: Library, src: Cursor) returns (r: Result<Option<byte>>)
    modifies src
    ensures Took(r, src.rest, ParseOptionalCode(lib, old(src.rest)))
  {
    var flag :- TakeU8(src);
    match flag
    case 0 => return Ok(None);
    case 1 =>
      var code :- TakeU8(src);
      if !lib.isCode(code) {
        return Err(InvalidArgument);
      }
      return Ok(Some(code));
    case _ => return Err(InvalidArgument);
  }

  method DecodePayloadEncoding(lib: Library, src: Cursor) returns (r: Result<PayloadEncoding>)
    modifies src
    ensures Took(r, src.rest, ParseEncoding(lib, old(src.rest)))
  {
    var kind :- TakeU8(src);
    match kind
    case 0 =>
      var format :- TakeU8(src);
      if !lib.isFormat(format) {
        return Err(InvalidArgument);
      }
      return Ok(Standard(format));
    case 1 =>
      var id :- TakeString(lib, src);
      var contentType :- TakeString(lib, src);
      if !lib.isCustomEncoding(id, contentType) {
        return Err(InvalidArgument);
      }
      return Ok(Custom(id, contentType));
    case _ => return Err(InvalidArgument);
  }

  method TakeMessageType(src: Cursor) returns (r: Result<MessageType>)
    modifies src
    ensures Took(r, src.rest, ParseMessageType(old(src.rest)))
  {
    var b :- TakeU8(src);
    return ByteMessageType(b);
  }

  method TakePriority(src: Cursor) returns (r: Result<Priority>)
    modifies src
    ensures Took(r, src.rest, ParsePriority(old(src.rest)))
  {
    var b :- TakeU8(src);
    return BytePriority(b);
  }

  method TakeSource(lib: Library, src: Cursor) returns (r: Result<UUri>)
    modifies src
    ensures Took(r, src.rest, ParseSource(lib, old(src.rest)))
  {
    var text :- TakeString(lib, src);
    match lib.parseUri(text)
    case Some(uri) => return Ok(uri);
    case None => return Err(InvalidArgument);
  }

  method TakeSink(lib: Library, src: Cursor) returns (r: Result<Option<UUri>>)
    modifies src
    ensures Took(r, src.rest, ParseSink(lib, old(src.rest)))
  {
    var text :- TakeString(lib, src);
    if text == [] {
      return Ok(None);
    }
    match lib.parseUri(text)
    case Some(uri) => return Ok(Some(uri));
    case None => return Err(InvalidArgument);
  }

  method TakeOptionalEncoding(lib: Library, src: Cursor) returns (r: Result<Option<PayloadEncoding>>)
    modifies src
    ensures Took(r, src.rest, ParseOptionalEncoding(lib, old(src.rest)))
  {
    var flag :- TakeU8(src);
    match flag
    case 0 => return Ok(None);
    case 1 =>
      var e :- DecodePayloadEncoding(lib, src);
      return Ok(Some(e));
    case _ => return Err(InvalidArgument);
  }

  /** Accepts exactly the blocks of the grammar, with no bytes left over. */
  method DecodeMetadata(lib: Library, block: seq<byte>) returns (r: Result<FrameMetadata>)
    ensures r == DecodedBlock(lib, block)
  {
    hide ParseUuid, ParseMessageType, ParsePriority, ParseOptionalU32, ParseSource, ParseSink,
      ParseOptionalEncoding, ParseOptionalUuid, ParseOptionalText, ParseOptionalCode;
    var src := new Cursor(block);
    var id :- TakeUuid(lib, src);
    var messageType :- TakeMessageType(src);
    var priority :- TakePriority(src);
    var ttl :- TakeOptionalU32(src);
    var source :- TakeSource(lib, src);
    var sink :- TakeSink(lib, src);
    var encoding :- TakeOptionalEncoding(lib, src);
    var requestId :- TakeOptionalUuid(lib, src);
    var traceparent :- TakeOptionalString(lib, src);
    var token :- TakeOptionalString(lib, src);
    var permissionLevel :- TakeOptionalU32(src);
    var commStatus :- TakeOptionalCode(lib, src);
    if src.rest != [] {
      return Err(InvalidArgument);
    }
    return Ok(FrameMetadata(Attributes(id, messageType, priority, ttl, source, sink, requestId, traceparent,
                                       token, permissionLevel, commStatus), encoding));
  }
}
