/** The owned wrapper: a frame that owns its bytes is copied into a transmit loan, and a received
    lease is copied out again. A frame has a payload exactly when its metadata has an encoding; a
    payload may be empty and is then still there. */
module Owned {
  import opened Base
  import opened Config
  import opened Metadata
  import opened MetadataGrammar
  import opened FrameLayout
  import opened FrameWriter
  import opened Loans
  import opened PullQueue
  import opened PullReceive

  datatype OwnedFrame = OwnedFrame(metadata: FrameMetadata, payload: Option<seq<byte>>) {
    /** What the uProtocol library requires of an owned frame. */
    predicate Valid() {
      payload.Some? <==> metadata.encoding.Some?
    }

    function PayloadBytes(): seq<byte> {
      if payload.Some? then payload.value else []
    }
  }

  function HasPayload(m: FrameMetadata): bool {
    m.encoding.Some?
  }

  /** The request for a loan; the library refuses payload bytes without an encoding and an
      encoding without a payload. */
  function TxLoanSpec(m: FrameMetadata, hasPayload: bool, payloadLen: usize): (r: Result<LoanSpec>)
    ensures r.Ok? <==> hasPayload == HasPayload(m)
    ensures r.Ok? ==> r.value.metadata == m && r.value.payloadAlignment == 1
                      && r.value.payloadLen == if hasPayload then payloadLen else 0
  {
    if !hasPayload then
      if HasPayload(m) then Err(InvalidArgument) else Ok(LoanSpec(m, 0, 1))
    else if !HasPayload(m) then Err(InvalidArgument)
    else if payloadLen == 0 then Ok(LoanSpec(m, 0, 1))
    else Ok(LoanSpec(m, payloadLen, 1))
  }

  /** The frame the payload of which comes in these slices. */
  method LeaseToOwnedFrame(lease: Lease) returns (frame: OwnedFrame)
    requires lease.Valid()
    ensures frame.Valid() && frame.metadata == lease.metadata
    ensures frame.payload == if HasPayload(lease.metadata) then Some(lease.Payload()) else None
  {
    if !HasPayload(lease.metadata) {
      return OwnedFrame(lease.metadata, None);
    }
    var slices := [lease.Payload()];
    var payload := [];
    for i := 0 to |slices|
      invariant payload == if i == 0 then [] else lease.Payload()
    {
      payload := payload + slices[i];
    }
    return OwnedFrame(lease.metadata, Some(payload));
  }

  /** The bytes an owned frame is sent as, when a loan is granted for it. */
  function SentBytes(lib: Library, config: TransportConfig, frame: OwnedFrame, address: usize): Result<seq<byte>>
    requires |frame.PayloadBytes()| < U64_LIMIT
  {
    var offset :- LoanGrant(lib, config, LoanSpec(frame.metadata, |frame.PayloadBytes()|, 1), address);
    Ok(FrameBytes(EncodedBlock(lib, frame.metadata), frame.PayloadBytes(), offset, config.sampleSize))
  }

  /** Sending copies the frame into a loan whose sample the allocator put at `address`. A frame
      whose payload and encoding disagree gets no loan. */
  method SendValidatedOwned(inner: UTransportLola, frame: OwnedFrame, address: usize) returns (r: Result<()>)
    requires inner.Valid() && |frame.PayloadBytes()| < U64_LIMIT
    modifies inner`pending
    ensures inner.Valid()
    ensures !frame.Valid() ==> r == Err(InvalidArgument) && inner.pending == old(inner.pending)
    ensures frame.Valid() ==>
            match SentBytes(inner.lib, inner.config, frame, address)
            case Err(code) => r == Err(code) && inner.pending == old(inner.pending)
            case Ok(bytes) => r == Ok(()) && inner.pending == old(inner.pending) + [bytes]
  {
    hide EncodedBlock, HeaderPlan;
    var spec :- TxLoanSpec(frame.metadata, frame.payload.Some?, |frame.PayloadBytes()|);
    var _ :- AlignmentGate(inner.config, spec.payloadAlignment);
    var loan :- NewTxLoan(inner.lib, spec.metadata, inner.config.sampleSize, spec.payloadLen, spec.payloadAlignment, address);
    if frame.payload.Some? {
      loan.Write(inner.lib, 0, frame.PayloadBytes());
    }
    assert loan.Payload(inner.lib) == frame.PayloadBytes();
    var bytes := loan.IntoVec(inner.lib);
    inner.SendValidatedZeroCopy(bytes);
    return Ok(());
  }

  method ReceiveValidatedOwned(inner: UTransportLola, filter: Filter) returns (r: Result<OwnedFrame>)
    requires inner.Valid()
    modifies inner`pending, inner`mismatches
    ensures inner.Valid()
    ensures var (after, result) := Received(inner.lib, inner.config, old(inner.State()), filter);
            && inner.State() == after
            && match result
               case Err(code) => r == Err(code)
               case Ok(lease) =>
                 && lease.Valid() && r.Ok? && r.value.Valid() && r.value.metadata == lease.metadata
                 && r.value.payload == if HasPayload(lease.metadata) then Some(lease.Payload()) else None
  {
    var lease :- inner.ReceiveValidatedZeroCopy(filter);
    var frame := LeaseToOwnedFrame(lease);
    return Ok(frame);
  }

  /** An owned frame sent over a fresh transport and received with a filter that matches it comes
      back equal: metadata, bytes, and whether there is a payload at all. It fails only when no
      loan is granted for it or the uProtocol library does not accept the frame; with a filter
      that does not match, nothing is received. */
  method OwnedRoundTrip(lib: Library, config: TransportConfig, frame: OwnedFrame, filter: Filter, address: usize)
    returns (r: Result<OwnedFrame>)
    requires config.Validate().Ok? && lib.Lawful() && lib.Valid(frame.metadata)
    requires |frame.PayloadBytes()| < U64_LIMIT
    ensures var sent := SentBytes(lib, config, frame, address);
            if !frame.Valid() then r == Err(InvalidArgument)
            else if sent.Err? then r == Err(sent.code)
            else if !lib.isTransportFrame(frame.metadata, frame.PayloadBytes()) then r == Err(InvalidArgument)
            else if SourceAndSinkMatch(lib, frame.metadata, filter) then r == Ok(frame)
            else r == Err(NotFound)
  {
    hide EncodedBlock, LeaseFromSample, LoanGrant, Received, FrameMatches;
    var transport := new UTransportLola(lib, config);
    var _ :- SendValidatedOwned(transport, frame, address);
    SentFrameIsReceived(lib, config, frame, filter, address);
    assert transport.pending == [SentBytes(lib, config, frame, address).value];
    r := ReceiveValidatedOwned(transport, filter);
  }

  predicate SourceAndSinkMatch(lib: Library, m: FrameMetadata, filter: Filter) {
    && lib.uriMatches(filter.source, m.attributes.source)
    && (filter.sink.Some? ==> m.attributes.sink.Some? && lib.uriMatches(filter.sink.value, m.attributes.sink.value))
  }

  lemma SentFrameIsReceived(lib: Library, config: TransportConfig, frame: OwnedFrame, filter: Filter, address: usize)
    requires lib.Lawful() && lib.Valid(frame.metadata) && |frame.PayloadBytes()| < U64_LIMIT
    requires SentBytes(lib, config, frame, address).Ok?
    ensures var (_, result) := Received(lib, config, PullState([SentBytes(lib, config, frame, address).value], QueueState([], 0, 0)), filter);
            if !lib.isTransportFrame(frame.metadata, frame.PayloadBytes()) then result == Err(InvalidArgument)
            else if !SourceAndSinkMatch(lib, frame.metadata, filter) then
              result == Err(NotFound)
            else
              && result.Ok? && result.value.Valid() && result.value.metadata == frame.metadata
              && result.value.Payload() == frame.PayloadBytes()
  {
    hide EncodedBlock, DecodedBlock, ReadFrameHeader;
    var offset := LoanGrant(lib, config, LoanSpec(frame.metadata, |frame.PayloadBytes()|, 1), address).value;
    FrameBecomesLease(lib, frame.metadata, frame.PayloadBytes(), offset, config.sampleSize);
  }
}
