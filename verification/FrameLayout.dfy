/** The ULOL frame inside one fixed-size sample: header, metadata block, padding, payload, tail.
    Address arithmetic is in 64-bit words; every sum that could leave the word is checked. */
module FrameLayout {
  import opened Base
  import opened LittleEndian
  import opened Alignment
  import opened Metadata
  import opened MetadataGrammar
  import opened MetadataTheorems

  const MAGIC: seq<byte> := [0x55, 0x4C, 0x4F, 0x4C]
  const VERSION: byte := 1
  const HEADER_LEN: usize := 20

  function Zeros(n: nat): (zs: seq<byte>)
    ensures |zs| == n && forall i :: 0 <= i < n ==> zs[i] == 0
  {
    seq(n, _ => 0)
  }

  // ------------------------------------------------------------ where the payload goes

  function PayloadOffsetForLen(metadataLen: usize, alignment: usize, address: usize): Result<usize> {
    var metadataEnd :- CheckedAdd(HEADER_LEN, metadataLen);
    var absoluteMetadataEnd :- CheckedAdd(address, metadataEnd);
    var absolutePayload :- AlignUp(absoluteMetadataEnd, alignment);
    if absolutePayload < address then Err(InvalidArgument) else Ok(absolutePayload - address)
  }

  function FrameLayoutBounds(
    sampleLen: usize, metadataLen: usize, payloadLen: usize, alignment: usize, address: usize): Result<(usize, usize)>
  {
    var offset :- PayloadOffsetForLen(metadataLen, alignment, address);
    var total :- CheckedAdd(offset, payloadLen);
    if total > sampleLen then Err(ResourceExhausted) else Ok((offset, total))
  }

  /** The checks of the writer for initialised samples, in its order. */
  function PlanHeader(metadataLen: nat, sampleLen: usize, payloadLen: usize, alignment: usize, address: usize): Result<usize> {
    var metadataLen32 :- TryU32(metadataLen);
    var _ :- TryU32(payloadLen);
    var offset :- PayloadOffsetForLen(metadataLen32, alignment, address);
    var _ :- TryU32(offset);
    var total :- CheckedAdd(offset, payloadLen);
    if total > sampleLen then Err(ResourceExhausted) else Ok(offset)
  }

  /** The checks of the writer for uninitialised samples: the size of the sample is looked at
      before the width of the offset. */
  function PlanHeaderUninit(metadataLen: nat, sampleLen: usize, payloadLen: usize, alignment: usize, address: usize): Result<usize> {
    var metadataLen32 :- TryU32(metadataLen);
    var _ :- TryU32(payloadLen);
    var bounds :- FrameLayoutBounds(sampleLen, metadataLen32, payloadLen, alignment, address);
    var _ :- TryU32(bounds.0);
    Ok(bounds.0)
  }

  predicate AlignedAt(address: nat, offset: nat, alignment: nat)
    requires alignment > 0
  {
    IsMultiple(address + offset, alignment)
  }

  /** `offset` is the first place behind header and metadata where the payload is aligned. */
  ghost predicate IsPayloadOffset(offset: usize, metadataLen: nat, alignment: usize, address: usize) {
    && alignment > 0
    && HEADER_LEN + metadataLen <= offset
    && address + offset < U64_LIMIT
    && AlignedAt(address, offset, alignment)
    && forall o: nat :: HEADER_LEN + metadataLen <= o && AlignedAt(address, o, alignment) ==> offset <= o
  }

  lemma OffsetIsFirstAligned(metadataLen: usize, alignment: usize, address: usize)
    ensures var r := PayloadOffsetForLen(metadataLen, alignment, address);
            && (r.Ok? ==> IsPowerOfTwo(alignment) && IsPayloadOffset(r.value, metadataLen, alignment, address)
                          && r.value < HEADER_LEN + metadataLen + alignment)
            && (r.Err? ==> r.code == InvalidArgument
                           && (IsPowerOfTwo(alignment) ==>
                                 forall o: usize :: !IsPayloadOffset(o, metadataLen, alignment, address)))
  {
    if HEADER_LEN + metadataLen < U64_LIMIT && address + HEADER_LEN + metadataLen < U64_LIMIT {
      AlignUpIsLeastMultiple(address + (HEADER_LEN + metadataLen), alignment);
      var r := PayloadOffsetForLen(metadataLen, alignment, address);
      if r.Ok? {
        forall o: nat | HEADER_LEN + metadataLen <= o && AlignedAt(address, o, alignment) ensures r.value <= o {
          var m: nat := address + o;
          assert IsMultiple(m, alignment);
        }
      }
    }
  }

  /** A loan is granted exactly when lengths and offset fit 32 bits and the frame fits the sample. */
  predicate Granted(offset: nat, metadataLen: nat, sampleLen: nat, payloadLen: nat) {
    metadataLen < U32_LIMIT && payloadLen < U32_LIMIT && offset < U32_LIMIT && offset + payloadLen <= sampleLen
  }

  /** What the two writers grant, without reference to the order of their checks. */
  lemma PlanGrantsExactly(metadataLen: nat, sampleLen: usize, payloadLen: usize, alignment: usize, address: usize, offset: usize)
    ensures PlanHeader(metadataLen, sampleLen, payloadLen, alignment, address) == Ok(offset) <==>
            && Granted(offset, metadataLen, sampleLen, payloadLen)
            && IsPowerOfTwo(alignment) && IsPayloadOffset(offset, metadataLen, alignment, address)
  {
    if metadataLen < U32_LIMIT {
      OffsetIsFirstAligned(metadataLen, alignment, address);
      var r := PayloadOffsetForLen(metadataLen, alignment, address);
      if r.Ok? && IsPayloadOffset(offset, metadataLen, alignment, address) {
        assert r.value == offset;
      }
    }
  }

  /** The status of a refusal: RESOURCE_EXHAUSTED says that there is a place for the payload and only
      the sample is too small for it; everything else is INVALID_ARGUMENT. */
  lemma RefusedWith(metadataLen: nat, sampleLen: usize, payloadLen: usize, alignment: usize, address: usize)
    ensures var r := PlanHeader(metadataLen, sampleLen, payloadLen, alignment, address);
            r.Err? ==>
              && (r.code == ResourceExhausted || r.code == InvalidArgument)
              && (r.code == ResourceExhausted <==>
                    && metadataLen < U32_LIMIT && payloadLen < U32_LIMIT && IsPowerOfTwo(alignment)
                    && exists o: usize :: IsPayloadOffset(o, metadataLen, alignment, address) && o < U32_LIMIT && sampleLen < o + payloadLen)
  {
    if metadataLen < U32_LIMIT {
      OffsetIsFirstAligned(metadataLen, alignment, address);
      var r := PayloadOffsetForLen(metadataLen, alignment, address);
      if r.Ok? {
        forall o: usize | IsPayloadOffset(o, metadataLen, alignment, address) ensures o == r.value {
        }
        assert IsPayloadOffset(r.value, metadataLen, alignment, address);
      }
    }
  }

  /** The writers grant the same loans with the same offset. Their status codes differ in exactly
      one situation: the offset needs more than 32 bits and the frame does not fit the sample. */
  lemma WritersGrantAlike(metadataLen: nat, sampleLen: usize, payloadLen: usize, alignment: usize, address: usize)
    ensures var a := PlanHeader(metadataLen, sampleLen, payloadLen, alignment, address);
            var b := PlanHeaderUninit(metadataLen, sampleLen, payloadLen, alignment, address);
            && a.Ok? == b.Ok?
            && (a.Ok? ==> a == b)
            && (a != b <==>
                  && metadataLen < U32_LIMIT && payloadLen < U32_LIMIT
                  && PayloadOffsetForLen(metadataLen, alignment, address).Ok?
                  && var offset := PayloadOffsetForLen(metadataLen, alignment, address).value;
                  && U32_LIMIT <= offset && offset + payloadLen < U64_LIMIT && sampleLen < offset + payloadLen)
            && (a != b ==> a == Err(InvalidArgument) && b == Err(ResourceExhausted))
  {
  }

  /** Moving a frame to another address keeps its payload aligned exactly when the two addresses
      agree modulo the payload alignment. */
  lemma AlignedAfterMoveIff(offset: usize, alignment: usize, address: usize, moved: usize)
    requires alignment > 0 && AlignedAt(address, offset, alignment)
    ensures AlignedAt(moved, offset, alignment) <==> moved % alignment == address % alignment
  {
    var a: nat := alignment;
    var v := address % a - moved % a;
    var q := (address + offset) / a - address / a + moved / a;
    assert address + offset == a * ((address + offset) / a);
    assert address == a * (address / a) + address % a;
    assert moved == a * (moved / a) + moved % a;
    Distribute(a, (address + offset) / a, address / a, moved / a);
    assert moved + offset == a * q - v;
    if v == 0 {
      ModUnique(moved + offset, a, q, 0);
    } else if v < 0 {
      ModUnique(moved + offset, a, q, -v);
    } else {
      MulPred(a, q);
      ModUnique(moved + offset, a, q - 1, a - v);
    }
  }

  lemma Distribute(a: int, x: int, y: int, z: int)
    ensures a * (x - y + z) == a * x - a * y + a * z
  {
  }

  lemma MulPred(a: int, q: int)
    ensures a * q == a * (q - 1) + a
  {
  }

  /** The alignment promise of a loan: when the requested alignment passed the gate against the
      sample alignment, the payload is aligned wherever the sample lives at its own alignment,
      and less than one alignment unit of padding precedes it. */
  lemma AlignmentSurvivesRelocation(
    metadataLen: nat, sampleLen: usize, payloadLen: usize, alignment: usize, sampleAlignment: usize,
    written: usize, read: usize, offset: usize)
    requires IsPowerOfTwo(sampleAlignment) && alignment <= sampleAlignment
    requires IsMultiple(written, sampleAlignment) && IsMultiple(read, sampleAlignment)
    requires PlanHeader(metadataLen, sampleLen, payloadLen, alignment, written) == Ok(offset)
    requires read + sampleLen <= U64_LIMIT
    ensures alignment > 0 && AlignedAt(written, offset, alignment) && AlignedAt(read, offset, alignment)
    ensures offset - (HEADER_LEN + metadataLen) < alignment
    ensures read + offset + payloadLen <= U64_LIMIT
  {
    PlanGrantsExactly(metadataLen, sampleLen, payloadLen, alignment, written, offset);
    OffsetIsFirstAligned(metadataLen, alignment, written);
    SmallerPowerDivides(alignment, sampleAlignment);
    MultipleOfMultiple(written, sampleAlignment, alignment);
    MultipleOfMultiple(read, sampleAlignment, alignment);
    AlignedAfterMoveIff(offset, alignment, written, read);
  }

  // ------------------------------------------------------------------- the frame bytes

  /** Everything that precedes the payload. */
  function HeaderImage(metadata: seq<byte>, payloadLen: nat, offset: nat): (image: seq<byte>)
    requires HEADER_LEN + |metadata| <= offset
    ensures |image| == offset
  {
    MAGIC + [VERSION] + Zeros(3) + Le(4, |metadata|) + Le(4, payloadLen) + Le(4, offset) + metadata
    + Zeros(offset - HEADER_LEN - |metadata|)
  }

  /** A complete sample: header image, payload, zeroed tail. */
  function FrameBytes(metadata: seq<byte>, payload: seq<byte>, offset: nat, sampleLen: nat): (frame: seq<byte>)
    requires HEADER_LEN + |metadata| <= offset && offset + |payload| <= sampleLen
    ensures |frame| == sampleLen
  {
    HeaderImage(metadata, |payload|, offset) + payload + Zeros(sampleLen - offset - |payload|)
  }

  // --------------------------------------------------------------------- reading a frame

  datatype FrameHeader = FrameHeader(metadata: FrameMetadata, payloadOffset: usize, payloadLen: usize)

  /** Total on every byte string; the ranges it accepts lie in the sample, in order. */
  function ReadFrameHeader(lib: Library, sample: seq<byte>): (r: Result<FrameHeader>)
    ensures r.Ok? ==>
              && |sample| >= HEADER_LEN
              && HEADER_LEN + ReadU32(sample[8..12]) <= r.value.payloadOffset
              && r.value.payloadOffset + r.value.payloadLen <= |sample|
    ensures r.Err? ==> r.code == InvalidArgument
  {
    if |sample| < HEADER_LEN then Err(InvalidArgument)
    else if sample[0..4] != MAGIC then Err(InvalidArgument)
    else if sample[4] != VERSION then Err(InvalidArgument)
    else
      var metadataLen: usize := ReadU32(sample[8..12]);
      var payloadLen: usize := ReadU32(sample[12..16]);
      var payloadOffset: usize := ReadU32(sample[16..20]);
      var metadataEnd :- CheckedAdd(HEADER_LEN, metadataLen);
      if metadataEnd > |sample| then Err(InvalidArgument)
      else
        var metadata :- DecodedBlock(lib, sample[HEADER_LEN..metadataEnd]);
        if payloadOffset < metadataEnd then Err(InvalidArgument)
        else
          var payloadEnd :- CheckedAdd(payloadOffset, payloadLen);
          if payloadEnd > |sample| then Err(InvalidArgument)
          else Ok(FrameHeader(metadata, payloadOffset, payloadLen))
  }

  /** The little-endian word at a place of the sample, in terms of its bytes. */
  function WordAt(sample: seq<byte>, at: nat): int
    requires at + 4 <= |sample|
  {
    sample[at] as int + 0x100 * sample[at + 1] as int + 0x1_0000 * sample[at + 2] as int + 0x100_0000 * sample[at + 3] as int
  }

  /** Some printed block of valid metadata, with any accepted spelling of its URIs. */
  ghost predicate IsSomeBlockOf(lib: Library, block: seq<byte>, m: FrameMetadata) {
    lib.Valid(m) && exists source, sink :: IsBlockOf(lib, block, m, source, sink)
  }

  lemma WordIs(sample: seq<byte>, at: nat)
    requires at + 4 <= |sample|
    ensures ReadU32(sample[at..at + 4]) == WordAt(sample, at)
  {
    WordOfBytes(sample[at..at + 4], 0);
  }

  /** Acceptance, exactly: twenty bytes of header with this magic and version, whose three words give
      the length of a printed block of the metadata, the length and the place of the payload, all of
      it inside the sample and the payload behind the block. Everything else is refused. */
  lemma AcceptsExactly(lib: Library, s: seq<byte>, h: FrameHeader)
    ensures ReadFrameHeader(lib, s) == Ok(h) <==>
            && |s| >= 20 && s[0..4] == [0x55, 0x4C, 0x4F, 0x4C] && s[4] == 1
            && 20 + WordAt(s, 8) <= |s| && WordAt(s, 12) == h.payloadLen && WordAt(s, 16) == h.payloadOffset
            && 20 + WordAt(s, 8) <= h.payloadOffset && h.payloadOffset + h.payloadLen <= |s|
            && IsSomeBlockOf(lib, s[20..20 + WordAt(s, 8)], h.metadata)
  {
    if |s| >= 20 {
      WordIs(s, 8);
      WordIs(s, 12);
      WordIs(s, 16);
      if 20 + WordAt(s, 8) <= |s| {
        AcceptedIffPrinted(lib, s[20..20 + WordAt(s, 8)], h.metadata);
      }
      hide WordAt, DecodedBlock, IsBlockOf, LeValue;
    }
  }

  lemma SliceOfSlice<T>(s: seq<T>, lo: nat, hi: nat, a: nat, b: nat)
    requires lo <= hi <= |s| && a <= b <= hi - lo
    ensures s[lo..hi][a..b] == s[lo + a..lo + b]
  {
    var x, y := s[lo..hi][a..b], s[lo + a..lo + b];
    assert |x| == |y| && forall i :: 0 <= i < |x| ==> x[i] == y[i];
  }

  /** The metadata bytes a header announces, as far as they are there. */
  function AnnouncedMetadata(sample: seq<byte>): seq<byte>
    requires |sample| >= HEADER_LEN
  {
    var end := HEADER_LEN + ReadU32(sample[8..12]);
    sample[HEADER_LEN..if end <= |sample| then end else |sample|]
  }

  /** The result depends on the sample length, the magic, the version, the three length fields and
      the announced metadata bytes, and on nothing else: not on the reserved bytes, the padding,
      the payload or the tail. */
  lemma ReaderIgnoresTheRest(lib: Library, s: seq<byte>, t: seq<byte>)
    requires |s| == |t| >= HEADER_LEN
    requires s[0..5] == t[0..5] && s[8..20] == t[8..20]
    requires AnnouncedMetadata(s) == AnnouncedMetadata(t)
    ensures ReadFrameHeader(lib, s) == ReadFrameHeader(lib, t)
  {
    assert s[0..4] == s[0..5][0..4] && t[0..4] == t[0..5][0..4];
    assert s[4] == s[0..5][4] && t[4] == t[0..5][4];
    SliceOfSlice(s, 8, 20, 0, 4);
    SliceOfSlice(t, 8, 20, 0, 4);
    SliceOfSlice(s, 8, 20, 4, 8);
    SliceOfSlice(t, 8, 20, 4, 8);
    SliceOfSlice(s, 8, 20, 8, 12);
    SliceOfSlice(t, 8, 20, 8, 12);
  }

  /** Where each part of a header image lies. */
  lemma HeaderParts(metadata: seq<byte>, payloadLen: nat, offset: nat, rest: seq<byte>)
    requires HEADER_LEN + |metadata| <= offset
    ensures var s := HeaderImage(metadata, payloadLen, offset) + rest;
            && s[0..4] == [0x55, 0x4C, 0x4F, 0x4C] && s[4] == 1 && s[5..8] == [0, 0, 0]
            && s[8..12] == Le(4, |metadata|) && s[12..16] == Le(4, payloadLen) && s[16..20] == Le(4, offset)
            && s[20..20 + |metadata|] == metadata
            && (forall k :: 20 + |metadata| <= k < offset ==> s[k] == 0)
            && s[offset..] == rest
  {
    hide Le;
    var s := HeaderImage(metadata, payloadLen, offset) + rest;
    assert s[0..4] == MAGIC;
    assert s[8..12] == Le(4, |metadata|);
    assert s[12..16] == Le(4, payloadLen);
    assert s[16..20] == Le(4, offset);
    assert s[HEADER_LEN..HEADER_LEN + |metadata|] == metadata;
  }

  /** Reading a written frame gives back metadata, offset and length, whatever the payload and
      the bytes behind it are. */
  lemma WrittenFrameReads(lib: Library, m: FrameMetadata, payload: seq<byte>, offset: usize, tail: seq<byte>)
    requires lib.Lawful() && lib.Valid(m) && Encodable(lib, m)
    requires |EncodedBlock(lib, m)| < U32_LIMIT && |payload| < U32_LIMIT && offset < U32_LIMIT
    requires HEADER_LEN + |EncodedBlock(lib, m)| <= offset
    ensures ReadFrameHeader(lib, HeaderImage(EncodedBlock(lib, m), |payload|, offset) + payload + tail)
            == Ok(FrameHeader(m, offset, |payload|))
  {
    hide EncodedBlock, Encodable, DecodedBlock, HeaderImage, Le, LeValue;
    var block := EncodedBlock(lib, m);
    var sample := HeaderImage(block, |payload|, offset) + payload + tail;
    assert sample == HeaderImage(block, |payload|, offset) + (payload + tail);
    HeaderParts(block, |payload|, offset, payload + tail);
    U32RoundTrip(|block|);
    U32RoundTrip(|payload|);
    U32RoundTrip(offset);
    MetadataRoundTrip(lib, m);
  }

  // ------------------------------------------------------------------ the receive lease

  /** A received sample whose header was accepted. */
  datatype Lease = Lease(metadata: FrameMetadata, sample: seq<byte>, payloadOffset: usize, payloadLen: usize) {
    predicate Valid() {
      payloadOffset + payloadLen <= |sample|
    }

    function Payload(): seq<byte>
      requires Valid()
    {
      sample[payloadOffset..payloadOffset + payloadLen]
    }
  }

  /** Where the parts of a complete sample lie. */
  lemma FrameParts(metadata: seq<byte>, payload: seq<byte>, offset: nat, sampleLen: nat)
    requires HEADER_LEN + |metadata| <= offset && offset + |payload| <= sampleLen
    ensures var frame := FrameBytes(metadata, payload, offset, sampleLen);
            && frame[..offset] == HeaderImage(metadata, |payload|, offset)
            && frame[offset..offset + |payload|] == payload
            && forall k :: offset + |payload| <= k < sampleLen ==> frame[k] == 0
  {
    hide HeaderImage;
  }

  /** A sample becomes a lease when its header is accepted and the uProtocol library accepts the frame. */
  function LeaseFromSample(lib: Library, sample: seq<byte>): (r: Result<Lease>)
    ensures r.Ok? ==> r.value.sample == sample && r.value.Valid()
    ensures r.Err? ==> r.code == InvalidArgument
  {
    var header :- ReadFrameHeader(lib, sample);
    var lease := Lease(header.metadata, sample, header.payloadOffset, header.payloadLen);
    if lib.isTransportFrame(lease.metadata, lease.Payload()) then Ok(lease) else Err(InvalidArgument)
  }

  /** A lease, exactly: the header is accepted and the library accepts metadata and payload. */
  lemma LeasedExactly(lib: Library, sample: seq<byte>, lease: Lease)
    ensures LeaseFromSample(lib, sample) == Ok(lease) <==>
            && ReadFrameHeader(lib, sample) == Ok(FrameHeader(lease.metadata, lease.payloadOffset, lease.payloadLen))
            && lease.sample == sample
            && lib.isTransportFrame(lease.metadata, sample[lease.payloadOffset..lease.payloadOffset + lease.payloadLen])
  {
    hide ReadFrameHeader;
  }

  /** A complete frame of valid metadata becomes a lease on exactly its metadata and payload. */
  lemma FrameBecomesLease(lib: Library, m: FrameMetadata, payload: seq<byte>, offset: usize, sampleLen: nat)
    requires lib.Lawful() && lib.Valid(m) && Encodable(lib, m)
    requires Granted(offset, |EncodedBlock(lib, m)|, sampleLen, |payload|)
    requires HEADER_LEN + |EncodedBlock(lib, m)| <= offset && sampleLen < U64_LIMIT
    ensures var frame := FrameBytes(EncodedBlock(lib, m), payload, offset, sampleLen);
            var lease := Lease(m, frame, offset, |payload|);
            && lease.Valid() && lease.Payload() == payload
            && LeaseFromSample(lib, frame) == if lib.isTransportFrame(m, payload) then Ok(lease) else Err(InvalidArgument)
  {
    WrittenFrameReads(lib, m, payload, offset, Zeros(sampleLen - offset - |payload|));
    var frame := FrameBytes(EncodedBlock(lib, m), payload, offset, sampleLen);
    assert frame[offset..offset + |payload|] == payload;
  }
}
