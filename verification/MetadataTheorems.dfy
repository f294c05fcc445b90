/** What the metadata block promises as a format: it round-trips, it is unambiguous, and no
    accepted block is a proper prefix of another. */
module MetadataTheorems {
  import opened Base
  import opened LittleEndian
  import opened Metadata
  import opened MetadataGrammar

  lemma ConcatStep(parts: seq<seq<byte>>, k: nat, rest: seq<byte>)
    requires k < |parts|
    ensures Concat(parts[k..], rest) == parts[k] + Concat(parts[k + 1..], rest)
  {
    assert parts[k..][1..] == parts[k + 1..];
  }

  lemma {:induction false} ConcatRest(parts: seq<seq<byte>>, rest: seq<byte>)
    ensures Concat(parts, rest) == Concat(parts, []) + rest
  {
    if parts != [] {
      ConcatRest(parts[1..], rest);
      assert parts[0] + (Concat(parts[1..], []) + rest) == parts[0] + Concat(parts[1..], []) + rest;
    }
  }

  lemma {:induction false} ConcatAppend(parts: seq<seq<byte>>, part: seq<byte>)
    ensures Concat(parts + [part], []) == Concat(parts, []) + part
  {
    if parts == [] {
      assert parts + [part] == [part];
      assert [part][1..] == [];
    } else {
      ConcatAppend(parts[1..], part);
      assert (parts + [part])[1..] == parts[1..] + [part];
      assert parts[0] + (Concat(parts[1..], []) + part) == parts[0] + Concat(parts[1..], []) + part;
    }
  }

  /** `source` and `sink` are spellings of the URIs of `m` that the library accepts. */
  predicate Spells(lib: Library, m: FrameMetadata, source: Text, sink: Text) {
    && lib.isUtf8(source) && SourceOf(lib, source) == Ok(m.attributes.source)
    && lib.isUtf8(sink) && SinkOf(lib, sink) == Ok(m.attributes.sink)
  }

  /** `block` is the block of `m` with some accepted spelling of its two URIs. */
  predicate IsBlockOf(lib: Library, block: seq<byte>, m: FrameMetadata, source: Text, sink: Text) {
    && Spells(lib, m, source, sink)
    && Fits(m, source, sink)
    && block == Block(m, source, sink)
  }

  predicate RoutingFields(f: seq<seq<byte>>, a: Attributes, source: Text, sink: Text) {
    && |f| == 13
    && f[0] == U64Bytes(a.id.msb) && f[1] == U64Bytes(a.id.lsb)
    && f[2] == [MessageTypeByte(a.messageType)] && f[3] == [PriorityByte(a.priority)]
    && f[4] == OptionalU32Bytes(a.ttl) && f[5] == TextBytes(source) && f[6] == TextBytes(sink)
  }

  predicate OptionFields(f: seq<seq<byte>>, m: FrameMetadata) {
    && |f| == 13
    && f[7] == OptionalEncodingBytes(m.encoding) && f[8] == OptionalUuidBytes(m.attributes.requestId)
    && f[9] == OptionalTextBytes(m.attributes.traceparent) && f[10] == OptionalTextBytes(m.attributes.token)
    && f[11] == OptionalU32Bytes(m.attributes.permissionLevel) && f[12] == OptionalCodeBytes(m.attributes.commStatus)
  }

  /** Which field is where. */
  lemma FieldList(m: FrameMetadata, source: Text, sink: Text)
    ensures RoutingFields(Fields(m, source, sink), m.attributes, source, sink)
    ensures OptionFields(Fields(m, source, sink), m)
  {
    hide TextBytes, U64Bytes, OptionalU32Bytes, OptionalEncodingBytes, OptionalUuidBytes, OptionalTextBytes,
      OptionalCodeBytes;
  }

  /** The block in bytes: the values of the two enumerations, the presence flags, the widths, and the
      empty string for an absent sink. */
  lemma BlockInBytes(lib: Library, m: FrameMetadata)
    ensures var a, f := m.attributes, Fields(m, lib.uriText(m.attributes.source), lib.SinkText(m.attributes.sink));
            && EncodedBlock(lib, m) == Concat(f, [])
            && f[0] == Le(8, a.id.msb) && f[1] == Le(8, a.id.lsb)
            && f[2] == [match a.messageType case Publish => 1 case Notification => 2 case Request => 3 case Response => 4]
            && f[3] == [match a.priority
                        case CS0 => 0 case CS1 => 1 case CS2 => 2 case CS3 => 3 case CS4 => 4 case CS5 => 5 case CS6 => 6]
            && f[4] == (match a.ttl case None => [0] case Some(v) => [1] + Le(4, v))
            && f[5] == Le(4, |lib.uriText(a.source)|) + lib.uriText(a.source)
            && f[6] == (match a.sink case None => [0, 0, 0, 0] case Some(uri) => Le(4, |lib.uriText(uri)|) + lib.uriText(uri))
            && f[7] == (match m.encoding
                        case None => [0]
                        case Some(Standard(format)) => [1, 0, format]
                        case Some(Custom(id, contentType)) => [1, 1] + (Le(4, |id|) + id) + (Le(4, |contentType|) + contentType))
            && f[8] == (match a.requestId case None => [0] case Some(id) => [1] + Le(8, id.msb) + Le(8, id.lsb))
            && f[9] == (match a.traceparent case None => [0] case Some(t) => [1] + (Le(4, |t|) + t))
            && f[10] == (match a.token case None => [0] case Some(t) => [1] + (Le(4, |t|) + t))
            && f[11] == (match a.permissionLevel case None => [0] case Some(v) => [1] + Le(4, v))
            && f[12] == (match a.commStatus case None => [0] case Some(code) => [1, code])
  {
    SinkInBytes(lib, m.attributes.sink);
    UuidInBytes(m.attributes.requestId);
    EncodingInBytes(m.encoding);
    CodeInBytes(m.attributes.commStatus);
    hide Le, Concat, OptionalUuidBytes, OptionalEncodingBytes, OptionalCodeBytes;
  }

  lemma SinkInBytes(lib: Library, sink: Option<UUri>)
    ensures TextBytes(lib.SinkText(sink))
            == match sink case None => [0, 0, 0, 0] case Some(uri) => Le(4, |lib.uriText(uri)|) + lib.uriText(uri)
  {
    assert Le(4, 0) == [0, 0, 0, 0];
  }

  lemma UuidInBytes(id: Option<UUID>)
    ensures OptionalUuidBytes(id) == match id case None => [0] case Some(id) => [1] + Le(8, id.msb) + Le(8, id.lsb)
  {
    hide Le;
  }

  lemma EncodingInBytes(encoding: Option<PayloadEncoding>)
    ensures OptionalEncodingBytes(encoding)
            == match encoding
               case None => [0]
               case Some(Standard(format)) => [1, 0, format]
               case Some(Custom(id, contentType)) => [1, 1] + (Le(4, |id|) + id) + (Le(4, |contentType|) + contentType)
  {
    hide Le;
  }

  lemma CodeInBytes(code: Option<byte>)
    ensures OptionalCodeBytes(code) == match code case None => [0] case Some(code) => [1, code]
  {
  }

  /** What is left of a printed block before each field, and after the last. */
  function Tails(f: seq<seq<byte>>, rest: seq<byte>): (t: seq<seq<byte>>)
    ensures |t| == |f| + 1
  {
    seq(|f| + 1, k requires 0 <= k <= |f| => Concat(f[k..], rest))
  }

  lemma TailsStep(f: seq<seq<byte>>, rest: seq<byte>)
    ensures var t := Tails(f, rest);
            && t[0] == Concat(f, rest) && t[|f|] == rest
            && forall k :: 0 <= k < |f| ==> t[k] == f[k] + t[k + 1]
  {
    var t := Tails(f, rest);
    forall k | 0 <= k < |f| ensures t[k] == f[k] + t[k + 1] {
      ConcatStep(f, k, rest);
    }
    assert f[0..] == f;
  }

  /** Parsing accepts a printed block followed by anything, and stops exactly at its end. */
  lemma PrintedParses(lib: Library, m: FrameMetadata, source: Text, sink: Text, rest: seq<byte>)
    requires lib.Valid(m) && Spells(lib, m, source, sink) && Fits(m, source, sink)
    ensures ParseMetadata(lib, Block(m, source, sink) + rest) == Got(m, rest)
  {
    hide ParseUuid, ParseMessageType, ParsePriority, ParseOptionalU32, ParseText, ParseOptionalEncoding,
      ParseOptionalUuid, ParseOptionalText, ParseOptionalCode;
    hide U64Bytes, OptionalU32Bytes, TextBytes, OptionalEncodingBytes, OptionalUuidBytes, OptionalTextBytes,
      OptionalCodeBytes;
    hide Fields, Concat, Tails, FitsText, FitsOptionalText, FitsEncoding;
    var f, a := Fields(m, source, sink), m.attributes;
    var t := Tails(f, rest);
    FieldList(m, source, sink);
    ConcatRest(f, rest);
    TailsStep(f, rest);
    UuidExact(lib, t[0], a.id, t[2]);
    MessageTypeExact(t[2], a.messageType, t[3]);
    PriorityExact(t[3], a.priority, t[4]);
    OptionalU32Exact(t[4], a.ttl, t[5]);
    TextExact(lib, t[5], source, t[6]);
    TextExact(lib, t[6], sink, t[7]);
    OptionalEncodingExact(lib, t[7], m.encoding, t[8]);
    OptionalUuidExact(lib, t[8], a.requestId, t[9]);
    OptionalTextExact(lib, t[9], a.traceparent, t[10]);
    OptionalTextExact(lib, t[10], a.token, t[11]);
    OptionalU32Exact(t[11], a.permissionLevel, t[12]);
    OptionalCodeExact(lib, t[12], a.commStatus, t[13]);
  }

  /** Whatever parses was printed from the value it parses to, up to the spelling of the URIs. */
  lemma ParsedWasPrinted(lib: Library, s: seq<byte>, m: FrameMetadata, rest: seq<byte>)
    returns (source: Text, sink: Text)
    requires ParseMetadata(lib, s) == Got(m, rest)
    ensures lib.Valid(m) && Spells(lib, m, source, sink) && Fits(m, source, sink)
    ensures s == Block(m, source, sink) + rest
  {
    hide ParseUuid, ParseMessageType, ParsePriority, ParseOptionalU32, ParseText, ParseOptionalEncoding,
      ParseOptionalUuid, ParseOptionalText, ParseOptionalCode;
    hide U64Bytes, OptionalU32Bytes, TextBytes, OptionalEncodingBytes, OptionalUuidBytes, OptionalTextBytes,
      OptionalCodeBytes;
    var a := m.attributes;
    var s2 := ParseUuid(lib, s).rest;
    var s3 := ParseMessageType(s2).rest;
    var s4 := ParsePriority(s3).rest;
    var s5 := ParseOptionalU32(s4).rest;
    source := ParseText(lib, s5).value;
    var s6 := ParseText(lib, s5).rest;
    sink := ParseText(lib, s6).value;
    var s7 := ParseText(lib, s6).rest;
    var s8 := ParseOptionalEncoding(lib, s7).rest;
    var s9 := ParseOptionalUuid(lib, s8).rest;
    var s10 := ParseOptionalText(lib, s9).rest;
    var s11 := ParseOptionalText(lib, s10).rest;
    var s12 := ParseOptionalU32(s11).rest;
    UuidExact(lib, s, a.id, s2);
    MessageTypeExact(s2, a.messageType, s3);
    PriorityExact(s3, a.priority, s4);
    OptionalU32Exact(s4, a.ttl, s5);
    TextExact(lib, s5, source, s6);
    TextExact(lib, s6, sink, s7);
    OptionalEncodingExact(lib, s7, m.encoding, s8);
    OptionalUuidExact(lib, s8, a.requestId, s9);
    OptionalTextExact(lib, s9, a.traceparent, s10);
    OptionalTextExact(lib, s10, a.token, s11);
    OptionalU32Exact(s11, a.permissionLevel, s12);
    OptionalCodeExact(lib, s12, a.commStatus, rest);
    BlockFromFields(Fields(m, source, sink), s,
                    [U64Bytes(a.id.lsb) + s2, s2, s3, s4, s5, s6, s7, s8, s9, s10, s11, s12, rest]);
    ConcatRest(Fields(m, source, sink), rest);
  }

  /** If each field leads from one remaining input to the next, the input is all fields and the end. */
  lemma {:induction false} BlockFromFields(fields: seq<seq<byte>>, s: seq<byte>, tails: seq<seq<byte>>)
    requires |fields| == |tails| > 0
    requires s == fields[0] + tails[0]
    requires forall k :: 0 < k < |tails| ==> tails[k - 1] == fields[k] + tails[k]
    ensures s == Concat(fields, tails[|tails| - 1])
  {
    if |fields| == 1 {
      assert fields[1..] == [];
    } else {
      BlockFromFields(fields[1..], tails[0], tails[1..]);
    }
  }

  /** The accepted blocks are exactly the printed ones: the metadata is valid and the bytes are
      its fields in order, with some accepted spelling of the source and sink URIs. */
  lemma AcceptedIffPrinted(lib: Library, block: seq<byte>, m: FrameMetadata)
    ensures DecodedBlock(lib, block) == Ok(m) <==>
            lib.Valid(m) && exists source, sink :: IsBlockOf(lib, block, m, source, sink)
  {
    hide ParseMetadata;
    if DecodedBlock(lib, block) == Ok(m) {
      var source, sink := ParsedWasPrinted(lib, block, m, []);
      assert Block(m, source, sink) + [] == Block(m, source, sink);
      assert IsBlockOf(lib, block, m, source, sink);
    }
    if lib.Valid(m) {
      forall source, sink | IsBlockOf(lib, block, m, source, sink)
        ensures DecodedBlock(lib, block) == Ok(m)
      {
        PrintedParses(lib, m, source, sink, []);
        assert Block(m, source, sink) + [] == block;
      }
    }
  }

  /** Decoding what the encoder writes gives back every field, absent sink included. */
  lemma MetadataRoundTrip(lib: Library, m: FrameMetadata)
    requires lib.Lawful() && lib.Valid(m) && Encodable(lib, m)
    ensures DecodedBlock(lib, EncodedBlock(lib, m)) == Ok(m)
  {
    var source, sink := lib.uriText(m.attributes.source), lib.SinkText(m.attributes.sink);
    assert Spells(lib, m, source, sink);
    assert IsBlockOf(lib, EncodedBlock(lib, m), m, source, sink);
    AcceptedIffPrinted(lib, EncodedBlock(lib, m), m);
  }

  /** The encoder is injective on the metadata it accepts. */
  lemma EncodingIsInjective(lib: Library, m1: FrameMetadata, m2: FrameMetadata)
    requires lib.Lawful() && lib.Valid(m1) && Encodable(lib, m1) && lib.Valid(m2) && Encodable(lib, m2)
    ensures EncodedBlock(lib, m1) == EncodedBlock(lib, m2) <==> m1 == m2
  {
    MetadataRoundTrip(lib, m1);
    MetadataRoundTrip(lib, m2);
  }

  /** What has been parsed does not depend on the bytes that follow it. */
  lemma ParseExtends(lib: Library, s: seq<byte>, m: FrameMetadata, rest: seq<byte>, more: seq<byte>)
    requires ParseMetadata(lib, s) == Got(m, rest)
    ensures ParseMetadata(lib, s + more) == Got(m, rest + more)
  {
    hide ParseMetadata;
    var source, sink := ParsedWasPrinted(lib, s, m, rest);
    assert s + more == Block(m, source, sink) + (rest + more);
    PrintedParses(lib, m, source, sink, rest + more);
  }

  /** No accepted block can be cut or extended and still be accepted. */
  lemma AcceptedIsPrefixFree(lib: Library, block: seq<byte>, more: seq<byte>)
    requires DecodedBlock(lib, block).Ok? && DecodedBlock(lib, block + more).Ok?
    ensures more == []
  {
    hide ParseMetadata;
    var m := DecodedBlock(lib, block).value;
    ParseExtends(lib, block, m, [], more);
    assert [] + more == more;
  }

  /** Two accepted blocks with equal metadata are the same fields in the same order: they can
      differ only in how the source and sink URIs are spelled. */
  lemma EqualMetadataDiffersInUriText(lib: Library, b1: seq<byte>, b2: seq<byte>, m: FrameMetadata)
    returns (source1: Text, sink1: Text, source2: Text, sink2: Text)
    requires DecodedBlock(lib, b1) == Ok(m) && DecodedBlock(lib, b2) == Ok(m)
    ensures IsBlockOf(lib, b1, m, source1, sink1) && IsBlockOf(lib, b2, m, source2, sink2)
    ensures source1 == source2 && sink1 == sink2 ==> b1 == b2
  {
    hide ParseMetadata;
    source1, sink1 := ParsedWasPrinted(lib, b1, m, []);
    source2, sink2 := ParsedWasPrinted(lib, b2, m, []);
    assert Block(m, source1, sink1) + [] == Block(m, source1, sink1);
    assert Block(m, source2, sink2) + [] == Block(m, source2, sink2);
  }
}
