/** Transmit loans: a sample buffer whose header is written, of which callers see the payload. */
module Loans {
  import opened Base
  import opened Alignment
  import opened Config
  import opened Metadata
  import opened MetadataGrammar
  import opened FrameLayout
  import opened FrameWriter

  /** A validated request for a loan. */
  datatype LoanSpec = LoanSpec(metadata: FrameMetadata, payloadLen: usize, payloadAlignment: usize)

  function ValidateAlignment(alignment: usize): Result<()> {
    if alignment == 0 || !IsPowerOfTwo(alignment) then Err(InvalidArgument) else Ok(())
  }

  /** The gate both loan operations apply before a sample is touched. */
  function AlignmentGate(config: TransportConfig, alignment: usize): (r: Result<()>)
    ensures r == if IsPowerOfTwo(alignment) && alignment <= config.sampleAlignment then Ok(()) else Err(InvalidArgument)
  {
    var _ :- ValidateAlignment(alignment);
    if alignment > config.sampleAlignment then Err(InvalidArgument) else Ok(())
  }

  /** Header and payload of a frame have a place in a sample of this length. */
  predicate HasRoom(lib: Library, m: FrameMetadata, offset: usize, payloadLen: usize, sampleLen: nat) {
    && Encodable(lib, m)
    && HEADER_LEN + |EncodedBlock(lib, m)| <= offset
    && Granted(offset, |EncodedBlock(lib, m)|, sampleLen, payloadLen)
    && sampleLen < U64_LIMIT
  }

  /** The payload offset a loan is granted with, for a sample at the given address. */
  function LoanGrant(lib: Library, config: TransportConfig, spec: LoanSpec, address: usize): (r: Result<usize>)
    ensures r.Ok? ==> HasRoom(lib, spec.metadata, r.value, spec.payloadLen, config.sampleSize)
  {
    var _ :- AlignmentGate(config, spec.payloadAlignment);
    HeaderPlan(lib, spec.metadata, config.sampleSize, spec.payloadLen, spec.payloadAlignment, address)
  }

  /** What is granted, without reference to the order of the checks. */
  lemma GrantedExactly(lib: Library, config: TransportConfig, spec: LoanSpec, address: usize, offset: usize)
    ensures LoanGrant(lib, config, spec, address) == Ok(offset) <==>
            && IsPowerOfTwo(spec.payloadAlignment) && spec.payloadAlignment <= config.sampleAlignment
            && Encodable(lib, spec.metadata)
            && var metadataLen := |EncodedBlock(lib, spec.metadata)|;
               && IsPayloadOffset(offset, metadataLen, spec.payloadAlignment, address)
               && metadataLen < U32_LIMIT && spec.payloadLen < U32_LIMIT && offset < U32_LIMIT
               && offset + spec.payloadLen <= config.sampleSize
  {
    hide EncodedBlock, Encodable;
    PlanGrantsExactly(|EncodedBlock(lib, spec.metadata)|, config.sampleSize, spec.payloadLen, spec.payloadAlignment, address, offset);
  }

  /** The alignment promise of a granted loan, for a validated configuration: wherever the sample lives
      at its own alignment, the payload is aligned as requested. */
  lemma GrantedLoanStaysAligned(lib: Library, config: TransportConfig, spec: LoanSpec, written: usize, read: usize)
    requires config.Validate().Ok? && LoanGrant(lib, config, spec, written).Ok?
    requires IsMultiple(written, config.sampleAlignment) && IsMultiple(read, config.sampleAlignment)
    requires read + config.sampleSize <= U64_LIMIT
    ensures var offset := LoanGrant(lib, config, spec, written).value;
            && spec.payloadAlignment > 0
            && AlignedAt(written, offset, spec.payloadAlignment) && AlignedAt(read, offset, spec.payloadAlignment)
            && read + offset + spec.payloadLen <= U64_LIMIT
  {
    config.ValidatesExactlyUsable();
    AlignmentSurvivesRelocation(|EncodedBlock(lib, spec.metadata)|, config.sampleSize, spec.payloadLen, spec.payloadAlignment,
                                config.sampleAlignment, written, read, LoanGrant(lib, config, spec, written).value);
  }

  /** A splice inside the middle of three parts leaves the outer two alone. */
  lemma SpliceInside<T>(before: seq<T>, middle: seq<T>, after: seq<T>, at: nat, part: seq<T>)
    requires at + |part| <= |middle|
    ensures Splice(before + middle + after, |before| + at, part) == before + Splice(middle, at, part) + after
  {
  }

  lemma MiddlePart<T>(before: seq<T>, middle: seq<T>, after: seq<T>)
    ensures var all := before + middle + after;
            && all[..|before|] == before && all[|before|..|before| + |middle|] == middle && all[|before| + |middle|..] == after
  {
  }

  /** A loan whose whole sample is initialised. */
  class LolaTxLoan {
    const metadata: FrameMetadata
    const sample: array<byte>
    const payloadOffset: usize
    const payloadLen: usize

    constructor (metadata: FrameMetadata, sample: array<byte>, payloadOffset: usize, payloadLen: usize)
      ensures this.metadata == metadata && this.sample == sample
      ensures this.payloadOffset == payloadOffset && this.payloadLen == payloadLen
    {
      this.metadata := metadata;
      this.sample := sample;
      this.payloadOffset := payloadOffset;
      this.payloadLen := payloadLen;
    }

    ghost predicate InBounds(lib: Library) {
      HasRoom(lib, metadata, payloadOffset, payloadLen, sample.Length)
    }

    /** The sample is the complete frame of the loan's metadata and current payload. */
    ghost predicate Valid(lib: Library)
      reads sample
    {
      InBounds(lib) && sample[..] == FrameBytes(EncodedBlock(lib, metadata), Payload(lib), payloadOffset, sample.Length)
    }

    ghost function Payload(lib: Library): seq<byte>
      requires InBounds(lib)
      reads sample
    {
      sample[payloadOffset..payloadOffset + payloadLen]
    }

    /** A write through the mutable payload view. */
    method Write(lib: Library, at: nat, part: seq<byte>)
      requires Valid(lib) && at + |part| <= payloadLen
      modifies sample
      ensures Valid(lib) && Payload(lib) == Splice(old(Payload(lib)), at, part)
    {
      hide EncodedBlock, HeaderImage, Zeros, Encodable, Splice;
      ghost var header := HeaderImage(EncodedBlock(lib, metadata), payloadLen, payloadOffset);
      ghost var payload, tail := Payload(lib), Zeros(sample.Length - payloadOffset - payloadLen);
      assert sample[..] == header + payload + tail;
      SpliceInside(header, payload, tail, at, part);
      CopyInto(sample, payloadOffset + at, part);
      assert sample[..] == header + Splice(payload, at, part) + tail;
      MiddlePart(header, Splice(payload, at, part), tail);
      assert Payload(lib) == sample[..][payloadOffset..payloadOffset + payloadLen];
    }

    method IntoVec(lib: Library) returns (bytes: seq<byte>)
      requires Valid(lib)
      ensures bytes == FrameBytes(EncodedBlock(lib, metadata), Payload(lib), payloadOffset, sample.Length)
    {
      bytes := sample[..];
    }
  }

  /** A zeroed sample with its header written; fails as the writer fails. */
  method NewTxLoan(lib: Library, m: FrameMetadata, sampleSize: usize, payloadLen: usize, alignment: usize, address: usize)
    returns (r: Result<LolaTxLoan>)
    ensures var plan := HeaderPlan(lib, m, sampleSize, payloadLen, alignment, address);
            if plan.Err? then r == Err(plan.code)
            else
              && r.Ok? && fresh(r.value) && fresh(r.value.sample) && r.value.Valid(lib)
              && r.value.metadata == m && r.value.payloadOffset == plan.value && r.value.payloadLen == payloadLen
              && r.value.sample.Length == sampleSize && r.value.Payload(lib) == Zeros(payloadLen)
  {
    var sample := new byte[sampleSize](_ => 0);
    assert sample[..] == Zeros(sampleSize);
    var payloadOffset :- WriteFrameHeader(lib, m, sample, address, payloadLen, alignment);
    hide EncodedBlock, HeaderPlan;
    assert Zeros(sampleSize)[payloadOffset..] == Zeros(payloadLen) + Zeros(sampleSize - payloadOffset - payloadLen);
    var loan := new LolaTxLoan(m, sample, payloadOffset, payloadLen);
    assert loan.Payload(lib) == Zeros(payloadLen);
    return Ok(loan);
  }

  /** The header laid into a sample that is zeroed first, as the native loan does with its slot. */
  method ZeroAndLay(lib: Library, m: FrameMetadata, sample: array<byte>, address: usize, payloadLen: usize, alignment: usize)
    returns (r: Result<usize>)
    requires sample.Length < U64_LIMIT
    modifies sample
    ensures r == HeaderPlan(lib, m, sample.Length, payloadLen, alignment, address)
    ensures r.Ok? ==> sample[..] == FrameBytes(EncodedBlock(lib, m), Zeros(payloadLen), r.value, sample.Length)
  {
    Fill(sample, 0, sample.Length, 0);
    assert sample[..] == Zeros(sample.Length);
    var payloadOffset :- WriteFrameHeader(lib, m, sample, address, payloadLen, alignment);
    assert Zeros(sample.Length)[payloadOffset..] == Zeros(payloadLen) + Zeros(sample.Length - payloadOffset - payloadLen);
    return Ok(payloadOffset);
  }

  /** A loan of which the payload cells may be uninitialised. */
  class LolaUninitTxLoan {
    const metadata: FrameMetadata
    const sample: array<Cell>
    const payloadOffset: usize
    const payloadLen: usize

    constructor (metadata: FrameMetadata, sample: array<Cell>, payloadOffset: usize, payloadLen: usize)
      ensures this.metadata == metadata && this.sample == sample
      ensures this.payloadOffset == payloadOffset && this.payloadLen == payloadLen
    {
      this.metadata := metadata;
      this.sample := sample;
      this.payloadOffset := payloadOffset;
      this.payloadLen := payloadLen;
    }

    ghost predicate InBounds(lib: Library) {
      HasRoom(lib, metadata, payloadOffset, payloadLen, sample.Length)
    }

    ghost function PayloadCells(lib: Library): seq<Cell>
      requires InBounds(lib)
      reads sample
    {
      sample[payloadOffset..payloadOffset + payloadLen]
    }

    /** Every cell outside the payload range is initialised with the byte of the complete frame. */
    ghost predicate Valid(lib: Library)
      reads sample
    {
      && InBounds(lib)
      && sample[..payloadOffset] == Cells(HeaderImage(EncodedBlock(lib, metadata), payloadLen, payloadOffset))
      && sample[payloadOffset + payloadLen..] == Cells(Zeros(sample.Length - payloadOffset - payloadLen))
    }

    /** A write through the uninitialised payload view. */
    method Write(lib: Library, at: nat, part: seq<byte>)
      requires Valid(lib) && at + |part| <= payloadLen
      modifies sample
      ensures Valid(lib) && PayloadCells(lib) == Splice(old(PayloadCells(lib)), at, Cells(part))
    {
      hide EncodedBlock, HeaderImage, Zeros, Encodable, Cells, Splice;
      ghost var head, tail := sample[..payloadOffset], sample[payloadOffset + payloadLen..];
      ghost var payload := PayloadCells(lib);
      assert sample[..] == head + payload + tail;
      SpliceInside(head, payload, tail, at, Cells(part));
      CopyInto(sample, payloadOffset + at, Cells(part));
      assert sample[..] == head + Splice(payload, at, Cells(part)) + tail;
      MiddlePart(head, Splice(payload, at, Cells(part)), tail);
      assert PayloadCells(lib) == sample[..][payloadOffset..payloadOffset + payloadLen];
      assert sample[..payloadOffset] == sample[..][..payloadOffset];
      assert sample[payloadOffset + payloadLen..] == sample[..][payloadOffset + payloadLen..];
    }

    /** The conversion to an initialised loan. The caller vouches for the payload cells; then every
        cell of the sample is initialised and the loan is a complete frame. */
    method AssumePayloadInit(lib: Library) returns (loan: LolaTxLoan)
      requires Valid(lib) && AllInitialized(PayloadCells(lib))
      ensures AllInitialized(sample[..])
      ensures fresh(loan) && fresh(loan.sample) && loan.Valid(lib) && Cells(loan.sample[..]) == sample[..]
      ensures loan.metadata == metadata && loan.payloadOffset == payloadOffset && loan.payloadLen == payloadLen
      ensures Cells(loan.Payload(lib)) == PayloadCells(lib)
    {
      hide EncodedBlock, HeaderImage, Zeros, Encodable, Cells;
      ghost var header := HeaderImage(EncodedBlock(lib, metadata), payloadLen, payloadOffset);
      ghost var tail := Zeros(sample.Length - payloadOffset - payloadLen);
      assert sample[..] == sample[..payloadOffset] + PayloadCells(lib) + sample[payloadOffset + payloadLen..];
      assert AllInitialized(sample[..]);
      var bytes := new byte[sample.Length];
      for i := 0 to sample.Length
        invariant forall k :: 0 <= k < i ==> bytes[k] == sample[k].value
      {
        assert sample[..][i].Byte?;
        bytes[i] := sample[i].value;
      }
      loan := new LolaTxLoan(metadata, bytes, payloadOffset, payloadLen);
      assert Cells(bytes[..]) == sample[..];
      assert bytes[..] == header + loan.Payload(lib) + tail by {
        assert forall k :: 0 <= k < payloadOffset ==> sample[..payloadOffset][k] == Byte(header[k]);
        assert forall k :: 0 <= k < |tail| ==> sample[payloadOffset + payloadLen..][k] == Byte(tail[k]);
      }
    }
  }

  lemma UninitializedOnlyBetween(cells: seq<Cell>, lo: nat, hi: nat)
    requires lo <= hi <= |cells| && AllInitialized(cells[..lo]) && AllInitialized(cells[hi..])
    ensures forall i :: 0 <= i < |cells| && cells[i].Uninit? ==> lo <= i < hi
  {
    assert forall i :: 0 <= i < lo ==> cells[i] == cells[..lo][i];
    assert forall i :: hi <= i < |cells| ==> cells[i] == cells[hi..][i - hi];
  }

  /** A sample with its header written and its payload cells left as they were; fails as the
      writer fails, and then the sample is as it was. */
  method NewUninitTxLoan(lib: Library, m: FrameMetadata, sample: array<Cell>, payloadLen: usize, alignment: usize, address: usize)
    returns (r: Result<LolaUninitTxLoan>)
    requires sample.Length < U64_LIMIT
    modifies sample
    ensures var plan := HeaderPlanUninit(lib, m, sample.Length, payloadLen, alignment, address);
            if plan.Err? then r == Err(plan.code) && sample[..] == old(sample[..])
            else
              && r.Ok? && fresh(r.value) && r.value.sample == sample && r.value.Valid(lib)
              && r.value.metadata == m && r.value.payloadOffset == plan.value && r.value.payloadLen == payloadLen
              && r.value.PayloadCells(lib) == old(sample[..])[plan.value..plan.value + payloadLen]
              && forall i :: 0 <= i < sample.Length && sample[i].Uninit? ==> plan.value <= i < plan.value + payloadLen
  {
    var payloadOffset :- WriteFrameHeaderUninit(lib, m, sample, address, payloadLen, alignment);
    hide EncodedBlock, HeaderPlan, HeaderPlanUninit;
    var loan := new LolaUninitTxLoan(m, sample, payloadOffset, payloadLen);
    ghost var header := HeaderImage(EncodedBlock(lib, m), payloadLen, payloadOffset);
    ghost var tail := Zeros(sample.Length - payloadOffset - payloadLen);
    assert sample[..payloadOffset] == Cells(header);
    assert sample[payloadOffset + payloadLen..] == Cells(tail);
    UninitializedOnlyBetween(sample[..], payloadOffset, payloadOffset + payloadLen);
    return Ok(loan);
  }

  // ------------------------------------------------------------------ whole-loan promises

  /** One write to the payload view. */
  datatype PayloadWrite = PayloadWrite(at: nat, part: seq<byte>)

  predicate InPayload(writes: seq<PayloadWrite>, payloadLen: nat) {
    forall k :: 0 <= k < |writes| ==> writes[k].at + |writes[k].part| <= payloadLen
  }

  /** What is in the payload after a series of writes. */
  function AfterWrites(payload: seq<byte>, writes: seq<PayloadWrite>): (r: seq<byte>)
    requires InPayload(writes, |payload|)
    ensures |r| == |payload|
  {
    if writes == [] then payload
    else
      var last := writes[|writes| - 1];
      Splice(AfterWrites(payload, writes[..|writes| - 1]), last.at, last.part)
  }

  /** Each payload byte is the one the last write that covers it put there. */
  lemma {:induction false} LastWriteWins(payload: seq<byte>, writes: seq<PayloadWrite>, i: nat, n: nat)
    requires InPayload(writes, |payload|)
    requires n < |writes| && writes[n].at <= i < writes[n].at + |writes[n].part|
    requires forall k :: n < k < |writes| ==> !(writes[k].at <= i < writes[k].at + |writes[k].part|)
    ensures AfterWrites(payload, writes)[i] == writes[n].part[i - writes[n].at]
  {
    if n < |writes| - 1 {
      LastWriteWins(payload, writes[..|writes| - 1], i, n);
    }
  }

  /** A payload byte that no write covers stays as it was. */
  lemma {:induction false} UncoveredStays(payload: seq<byte>, writes: seq<PayloadWrite>, i: nat)
    requires InPayload(writes, |payload|) && i < |payload|
    requires forall k :: 0 <= k < |writes| ==> !(writes[k].at <= i < writes[k].at + |writes[k].part|)
    ensures AfterWrites(payload, writes)[i] == payload[i]
  {
    if writes != [] {
      UncoveredStays(payload, writes[..|writes| - 1], i);
    }
  }

  /** The bytes an initialised loan holds after a series of writes; fails as the writer fails. */
  method InitialisedBytes(
    lib: Library, m: FrameMetadata, sampleSize: usize, payloadLen: usize, writes: seq<PayloadWrite>, alignment: usize, address: usize)
    returns (r: Result<seq<byte>>)
    requires InPayload(writes, payloadLen)
    ensures var plan := HeaderPlan(lib, m, sampleSize, payloadLen, alignment, address);
            r == if plan.Err? then Err(plan.code)
                 else Ok(FrameBytes(EncodedBlock(lib, m), AfterWrites(Zeros(payloadLen), writes), plan.value, sampleSize))
  {
    hide EncodedBlock, HeaderPlan;
    var loan :- NewTxLoan(lib, m, sampleSize, payloadLen, alignment, address);
    for i := 0 to |writes|
      invariant loan.Valid(lib)
      invariant loan.Payload(lib) == AfterWrites(Zeros(payloadLen), writes[..i])
    {
      loan.Write(lib, writes[i].at, writes[i].part);
      assert writes[..i + 1][..i] == writes[..i];
    }
    assert writes[..|writes|] == writes;
    var bytes := loan.IntoVec(lib);
    return Ok(bytes);
  }

  /** Loan, any writes through the payload view, then read: the loan is granted exactly when the
      plan grants it, and what is read is the loan's metadata, offset and length with the payload
      the writes left, provided the uProtocol library accepts that frame. */
  method LoanWriteRead(lib: Library, config: TransportConfig, spec: LoanSpec, address: usize, writes: seq<PayloadWrite>)
    returns (r: Result<Lease>)
    requires lib.Lawful() && lib.Valid(spec.metadata)
    requires InPayload(writes, spec.payloadLen)
    ensures var grant := LoanGrant(lib, config, spec, address);
            if grant.Err? then r == Err(grant.code)
            else
              var payload := AfterWrites(Zeros(spec.payloadLen), writes);
              if !lib.isTransportFrame(spec.metadata, payload) then r == Err(InvalidArgument)
              else
                && r.Ok? && r.value.Valid() && r.value.metadata == spec.metadata
                && r.value.payloadOffset == grant.value && r.value.payloadLen == spec.payloadLen
                && r.value.Payload() == payload && |r.value.sample| == config.sampleSize
  {
    var _ :- AlignmentGate(config, spec.payloadAlignment);
    var bytes :- InitialisedBytes(lib, spec.metadata, config.sampleSize, spec.payloadLen, writes, spec.payloadAlignment, address);
    hide EncodedBlock, HeaderPlan;
    FrameBecomesLease(lib, spec.metadata, AfterWrites(Zeros(spec.payloadLen), writes),
                      LoanGrant(lib, config, spec, address).value, config.sampleSize);
    return LeaseFromSample(lib, bytes);
  }

  predicate Covered(writes: seq<PayloadWrite>, i: nat) {
    exists k :: 0 <= k < |writes| && writes[k].at <= i < writes[k].at + |writes[k].part|
  }

  /** Every covered cell of an uninitialised payload holds the byte the writes leave there. */
  ghost predicate WrittenCells(cells: seq<Cell>, writes: seq<PayloadWrite>, payloadLen: nat)
    requires InPayload(writes, payloadLen)
  {
    && |cells| == payloadLen
    && forall i :: 0 <= i < payloadLen && Covered(writes, i) ==> cells[i] == Byte(AfterWrites(Zeros(payloadLen), writes)[i])
  }

  /** One more write to an uninitialised payload. */
  lemma WriteCells(cells: seq<Cell>, writes: seq<PayloadWrite>, payloadLen: nat, last: PayloadWrite)
    requires InPayload(writes, payloadLen) && last.at + |last.part| <= payloadLen
    requires WrittenCells(cells, writes, payloadLen)
    ensures WrittenCells(Splice(cells, last.at, Cells(last.part)), writes + [last], payloadLen)
  {
    var more := writes + [last];
    assert more[..|more| - 1] == writes;
    var after := Splice(cells, last.at, Cells(last.part));
    forall i | 0 <= i < payloadLen && Covered(more, i) ensures after[i] == Byte(AfterWrites(Zeros(payloadLen), more)[i]) {
      if !(last.at <= i < last.at + |last.part|) {
        var k :| 0 <= k < |more| && more[k].at <= i < more[k].at + |more[k].part|;
        assert writes[k] == more[k];
      }
    }
  }

  /** The two kinds of loan on equal requests: both are granted or neither is, and after the same
      writes, as long as these cover the payload, the samples are equal at every byte, whatever the
      uninitialised sample held. */
  method SamePayloadSameBytes(
    lib: Library, m: FrameMetadata, stale: seq<Cell>, payloadLen: usize, writes: seq<PayloadWrite>, alignment: usize, address: usize)
    returns (initialised: Result<seq<byte>>, uninitialised: Result<seq<byte>>)
    requires |stale| < U64_LIMIT && InPayload(writes, payloadLen)
    requires forall i :: 0 <= i < payloadLen ==> Covered(writes, i)
    ensures initialised.Ok? == uninitialised.Ok? == HeaderPlan(lib, m, |stale|, payloadLen, alignment, address).Ok?
    ensures initialised.Ok? ==>
              && initialised == uninitialised
              && initialised.value == FrameBytes(EncodedBlock(lib, m), AfterWrites(Zeros(payloadLen), writes),
                                                 HeaderPlan(lib, m, |stale|, payloadLen, alignment, address).value, |stale|)
  {
    initialised := InitialisedBytes(lib, m, |stale|, payloadLen, writes, alignment, address);
    uninitialised := UninitialisedBytes(lib, m, stale, payloadLen, writes, alignment, address);
  }

  method UninitialisedBytes(
    lib: Library, m: FrameMetadata, stale: seq<Cell>, payloadLen: usize, writes: seq<PayloadWrite>, alignment: usize, address: usize)
    returns (r: Result<seq<byte>>)
    requires |stale| < U64_LIMIT && InPayload(writes, payloadLen)
    requires forall i :: 0 <= i < payloadLen ==> Covered(writes, i)
    ensures var plan := HeaderPlan(lib, m, |stale|, payloadLen, alignment, address);
            if plan.Err? then r.Err?
            else r == Ok(FrameBytes(EncodedBlock(lib, m), AfterWrites(Zeros(payloadLen), writes), plan.value, |stale|))
  {
    hide EncodedBlock, HeaderPlan, HeaderPlanUninit;
    var sample := new Cell[|stale|](i requires 0 <= i < |stale| => stale[i]);
    var loan :- NewUninitTxLoan(lib, m, sample, payloadLen, alignment, address);
    hide Zeros, Covered;
    for i := 0 to |writes|
      invariant loan.Valid(lib) && WrittenCells(loan.PayloadCells(lib), writes[..i], payloadLen)
    {
      WriteCells(loan.PayloadCells(lib), writes[..i], payloadLen, writes[i]);
      loan.Write(lib, writes[i].at, writes[i].part);
      assert writes[..i + 1] == writes[..i] + [writes[i]];
    }
    assert writes[..|writes|] == writes;
    var filled := loan.AssumePayloadInit(lib);
    assert filled.Payload(lib) == AfterWrites(Zeros(payloadLen), writes) by {
      assert forall i :: 0 <= i < payloadLen ==> Cells(filled.Payload(lib))[i] == loan.PayloadCells(lib)[i];
    }
    var bytes := filled.IntoVec(lib);
    return Ok(bytes);
  }
}
