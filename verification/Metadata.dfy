/** The frame metadata of a native uProtocol frame, and what the transport asks of the
    uProtocol library about it. */
module Metadata {
  import opened Base

  /** A string is the sequence of its UTF-8 bytes. */
  type Text = seq<byte>

  /** A uProtocol URI. Its grammar belongs to the uProtocol library, so the type is abstract. */
  type UUri(==, !new)

  datatype UUID = UUID(msb: u64, lsb: u64)

  datatype MessageType = Publish | Notification | Request | Response

  datatype Priority = CS0 | CS1 | CS2 | CS3 | CS4 | CS5 | CS6

  /** A standard payload format is represented by its numeric code. */
  datatype PayloadEncoding =
    | Standard(format: byte)
    | Custom(id: Text, contentType: Text)

  /** A communication status is represented by its numeric code. */
  datatype Attributes = Attributes(
    id: UUID,
    messageType: MessageType,
    priority: Priority,
    ttl: Option<u32>,
    source: UUri,
    sink: Option<UUri>,
    requestId: Option<UUID>,
    traceparent: Option<Text>,
    token: Option<Text>,
    permissionLevel: Option<u32>,
    commStatus: Option<byte>)

  datatype FrameMetadata = FrameMetadata(attributes: Attributes, encoding: Option<PayloadEncoding>)

  /** The uProtocol library as the transport sees it: one field per foreign function. */
  datatype Library = Library(
    isUtf8: Text -> bool,
    uriText: UUri -> Text,
    parseUri: Text -> Option<UUri>,
    uriMatches: (UUri, UUri) -> bool,
    isUuid: (u64, u64) -> bool,
    isFormat: byte -> bool,
    isCode: byte -> bool,
    isCustomEncoding: (Text, Text) -> bool,
    isTransportFrame: (FrameMetadata, seq<byte>) -> bool)
  {
    /** What is assumed of the library: printing a URI gives a non-empty string that parses
        back to the same URI, and the empty string is a string. */
    ghost predicate Lawful() {
      && isUtf8([])
      && forall u :: isUtf8(uriText(u)) && uriText(u) != [] && parseUri(uriText(u)) == Some(u)
    }

    predicate ValidUuid(id: UUID) {
      isUuid(id.msb, id.lsb)
    }

    predicate ValidOptionalUuid(id: Option<UUID>) {
      id.Some? ==> ValidUuid(id.value)
    }

    predicate ValidOptionalText(text: Option<Text>) {
      text.Some? ==> isUtf8(text.value)
    }

    predicate ValidEncoding(encoding: Option<PayloadEncoding>) {
      match encoding
      case None => true
      case Some(Standard(format)) => isFormat(format)
      case Some(Custom(id, contentType)) => isUtf8(id) && isUtf8(contentType) && isCustomEncoding(id, contentType)
    }

    /** What the library's own types promise of every metadata value a caller can hold. */
    predicate Valid(m: FrameMetadata) {
      && ValidUuid(m.attributes.id)
      && ValidOptionalUuid(m.attributes.requestId)
      && ValidOptionalText(m.attributes.traceparent)
      && ValidOptionalText(m.attributes.token)
      && (m.attributes.commStatus.Some? ==> isCode(m.attributes.commStatus.value))
      && ValidEncoding(m.encoding)
    }

    /** The text written for the sink: the empty string stands for "no sink". */
    function SinkText(sink: Option<UUri>): Text {
      match sink
      case None => []
      case Some(uri) => uriText(uri)
    }
  }

  function MessageTypeByte(t: MessageType): byte {
    match t
    case Publish => 1
    case Notification => 2
    case Request => 3
    case Response => 4
  }

  function ByteMessageType(b: byte): Result<MessageType> {
    match b
    case 1 => Ok(Publish)
    case 2 => Ok(Notification)
    case 3 => Ok(Request)
    case 4 => Ok(Response)
    case _ => Err(InvalidArgument)
  }

  function PriorityByte(p: Priority): byte {
    match p
    case CS0 => 0
    case CS1 => 1
    case CS2 => 2
    case CS3 => 3
    case CS4 => 4
    case CS5 => 5
    case CS6 => 6
  }

  function BytePriority(b: byte): Result<Priority> {
    match b
    case 0 => Ok(CS0)
    case 1 => Ok(CS1)
    case 2 => Ok(CS2)
    case 3 => Ok(CS3)
    case 4 => Ok(CS4)
    case 5 => Ok(CS5)
    case 6 => Ok(CS6)
    case _ => Err(InvalidArgument)
  }
}
