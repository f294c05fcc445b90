/** The two frame writers, in place on a sample buffer: one on initialised bytes, one on memory
    of which some bytes may be uninitialised. */
module FrameWriter {
  import opened Base
  import opened LittleEndian
  import opened Metadata
  import opened MetadataGrammar
  import opened MetadataCodec
  import opened FrameLayout

  /** One `MaybeUninit<u8>` of a sample. */
  datatype Cell = Uninit | Byte(value: byte)

  /** Initialised cells holding the given bytes. */
  function Cells(bs: seq<byte>): (cells: seq<Cell>)
    ensures |cells| == |bs| && forall i :: 0 <= i < |bs| ==> cells[i] == Byte(bs[i])
  {
    seq(|bs|, i requires 0 <= i < |bs| => Byte(bs[i]))
  }

  predicate AllInitialized(cells: seq<Cell>) {
    forall i :: 0 <= i < |cells| ==> cells[i].Byte?
  }

  function Splice<T>(s: seq<T>, at: nat, part: seq<T>): (r: seq<T>)
    requires at + |part| <= |s|
    ensures |r| == |s|
  {
    s[..at] + part + s[at + |part|..]
  }

  method CopyInto<T>(a: array<T>, at: nat, part: seq<T>)
    requires at + |part| <= a.Length
    modifies a
    ensures a[..] == Splice(old(a[..]), at, part)
  {
    for i := 0 to |part|
      invariant forall k :: 0 <= k < i ==> a[at + k] == part[k]
      invariant forall k :: 0 <= k < at || at + i <= k < a.Length ==> a[k] == old(a[k])
    {
      a[at + i] := part[i];
    }
    assert a[..] == Splice(old(a[..]), at, part);
  }

  method Fill<T>(a: array<T>, start: nat, end: nat, value: T)
    requires start <= end <= a.Length
    modifies a
    ensures a[..] == old(a[..start]) + seq(end - start, _ => value) + old(a[end..])
  {
    for i := start to end
      invariant forall k :: start <= k < i ==> a[k] == value
      invariant forall k :: 0 <= k < start || i <= k < a.Length ==> a[k] == old(a[k])
    {
      a[i] := value;
    }
    assert a[..] == old(a[..start]) + seq(end - start, _ => value) + old(a[end..]);
  }

  /** The first three writes of a header over a blank prefix. */
  lemma HeaderFrontLaid<T>(blank: seq<T>, magic: seq<T>, version: T, metadataLen: seq<T>, rest: seq<T>)
    requires 20 <= |blank| && |magic| == |metadataLen| == 4
    ensures Splice(Splice(Splice(blank + rest, 0, magic), 4, [version]), 8, metadataLen)
            == magic + [version] + blank[5..8] + metadataLen + blank[12..] + rest
  {
    var s1 := Splice(blank + rest, 0, magic);
    assert s1 == magic + blank[4..] + rest;
    var s2 := Splice(s1, 4, [version]);
    assert s2 == magic + [version] + blank[5..] + rest;
  }

  /** The last three writes, behind twelve bytes that are already laid. */
  lemma HeaderBackLaid<T>(front: seq<T>, blank: seq<T>, payloadLen: seq<T>, payloadOffset: seq<T>, metadata: seq<T>, rest: seq<T>)
    requires |front| == 12 && 20 + |metadata| <= |blank| && |payloadLen| == |payloadOffset| == 4
    ensures Splice(Splice(Splice(front + blank[12..] + rest, 12, payloadLen), 16, payloadOffset), 20, metadata)
            == front + payloadLen + payloadOffset + metadata + blank[20 + |metadata|..] + rest
  {
    var s4 := Splice(front + blank[12..] + rest, 12, payloadLen);
    assert s4 == front + payloadLen + blank[16..] + rest;
    var s5 := Splice(s4, 16, payloadOffset);
    assert s5 == front + payloadLen + payloadOffset + blank[20..] + rest;
  }

  /** The six writes of a header over a blank prefix, put together. */
  lemma HeaderLaid<T>(blank: seq<T>, magic: seq<T>, version: T, metadataLen: seq<T>, payloadLen: seq<T>,
                      payloadOffset: seq<T>, metadata: seq<T>, rest: seq<T>)
    requires 20 + |metadata| <= |blank|
    requires |magic| == |metadataLen| == |payloadLen| == |payloadOffset| == 4
    ensures Splice(Splice(Splice(Splice(Splice(Splice(blank + rest, 0, magic), 4, [version]), 8, metadataLen),
                                 12, payloadLen), 16, payloadOffset), 20, metadata)
            == magic + [version] + blank[5..8] + metadataLen + payloadLen + payloadOffset + metadata
               + blank[20 + |metadata|..] + rest
  {
    hide Splice;
    HeaderFrontLaid(blank, magic, version, metadataLen, rest);
    HeaderBackLaid(magic + [version] + blank[5..8] + metadataLen, blank, payloadLen, payloadOffset, metadata, rest);
  }

  /** The outcome of the writer for initialised samples. */
  function HeaderPlan(lib: Library, m: FrameMetadata, sampleLen: usize, payloadLen: usize, alignment: usize, address: usize): (r: Result<usize>)
    ensures r.Ok? ==> Encodable(lib, m) && HEADER_LEN + |EncodedBlock(lib, m)| <= r.value
                      && Granted(r.value, |EncodedBlock(lib, m)|, sampleLen, payloadLen)
  {
    if !Encodable(lib, m) then Err(InvalidArgument)
    else
      var r := PlanHeader(|EncodedBlock(lib, m)|, sampleLen, payloadLen, alignment, address);
      PlanGrantsExactly(|EncodedBlock(lib, m)|, sampleLen, payloadLen, alignment, address, if r.Ok? then r.value else 0);
      r
  }

  /** The outcome of the writer for uninitialised samples. */
  function HeaderPlanUninit(lib: Library, m: FrameMetadata, sampleLen: usize, payloadLen: usize, alignment: usize, address: usize): (r: Result<usize>)
    ensures var a := HeaderPlan(lib, m, sampleLen, payloadLen, alignment, address);
            a.Ok? == r.Ok? && (r.Ok? ==> a == r)
  {
    if !Encodable(lib, m) then Err(InvalidArgument)
    else
      WritersGrantAlike(|EncodedBlock(lib, m)|, sampleLen, payloadLen, alignment, address);
      PlanHeaderUninit(|EncodedBlock(lib, m)|, sampleLen, payloadLen, alignment, address)
  }

  /** On success the bytes before the payload are the header image and everything from the payload
      on is untouched; on failure the sample is untouched. */
  method WriteFrameHeader(lib: Library, m: FrameMetadata, sample: array<byte>, address: usize, payloadLen: usize, alignment: usize)
    returns (r: Result<usize>)
    requires sample.Length < U64_LIMIT
    modifies sample
    ensures r == HeaderPlan(lib, m, sample.Length, payloadLen, alignment, address)
    ensures r.Err? ==> sample[..] == old(sample[..])
    ensures r.Ok? ==> sample[..] == HeaderImage(EncodedBlock(lib, m), payloadLen, r.value) + old(sample[r.value..])
  {
    var block :- EncodeMetadata(lib, m);
    var metadataLen :- TryU32(|block|);
    var payloadLen32 :- TryU32(payloadLen);
    var payloadOffset :- PayloadOffsetForLen(|block|, alignment, address);
    var payloadOffset32 :- TryU32(payloadOffset);
    var totalLen :- CheckedAdd(payloadOffset, payloadLen);
    if totalLen > sample.Length {
      return Err(ResourceExhausted);
    }
    assert HeaderPlan(lib, m, sample.Length, payloadLen, alignment, address) == Ok(payloadOffset);
    Fill(sample, 0, payloadOffset, 0);
    LayHeader(sample, payloadOffset32, block, payloadLen32, old(sample[payloadOffset..]));
    return Ok(payloadOffset);
  }

  /** The six header writes over a zeroed prefix. */
  method LayHeader(sample: array<byte>, offset: u32, block: seq<byte>, payloadLen: u32, ghost rest: seq<byte>)
    requires |block| < U32_LIMIT && HEADER_LEN + |block| <= offset <= sample.Length
    requires sample[..] == Zeros(offset) + rest
    modifies sample
    ensures sample[..] == HeaderImage(block, payloadLen, offset) + rest
  {
    hide Le;
    ghost var blank := Zeros(offset);
    CopyInto(sample, 0, MAGIC);
    sample[4] := VERSION;
    assert sample[..] == Splice(Splice(blank + rest, 0, MAGIC), 4, [VERSION]);
    CopyInto(sample, 8, Le(4, |block|));
    CopyInto(sample, 12, Le(4, payloadLen));
    CopyInto(sample, 16, Le(4, offset));
    CopyInto(sample, 20, block);
    HeaderLaid(blank, MAGIC, VERSION, Le(4, |block|), Le(4, payloadLen), Le(4, offset), block, rest);
    assert blank[5..8] == Zeros(3);
    assert blank[20 + |block|..] == Zeros(offset - HEADER_LEN - |block|);
  }

  method InitializeUninitRange(sample: array<Cell>, start: usize, end: usize) returns (r: Result<()>)
    modifies sample
    ensures r == if start <= end <= sample.Length then Ok(()) else Err(InvalidArgument)
    ensures r.Err? ==> sample[..] == old(sample[..])
    ensures r.Ok? ==> sample[..] == old(sample[..start]) + Cells(Zeros(end - start)) + old(sample[end..])
  {
    if !(start <= end <= sample.Length) {
      return Err(InvalidArgument);
    }
    Fill(sample, start, end, Byte(0));
    assert seq(end - start, _ => Byte(0)) == Cells(Zeros(end - start));
    return Ok(());
  }

  /** A write through the initialised view of the first `end` cells. Such a view may only be made
      of cells that are initialised. */
  method WriteInitialized(sample: array<Cell>, end: nat, at: nat, part: seq<byte>)
    requires end <= sample.Length && AllInitialized(sample[..end])
    requires at + |part| <= end
    modifies sample
    ensures sample[..] == Splice(old(sample[..]), at, Cells(part))
    ensures AllInitialized(sample[..end])
  {
    CopyInto(sample, at, Cells(part));
    assert sample[..end] == Splice(old(sample[..end]), at, Cells(part));
  }

  /** On success every cell outside the payload range holds the byte the other writer puts over a
      zeroed sample, and no cell of the payload range is touched. */
  method WriteFrameHeaderUninit(lib: Library, m: FrameMetadata, sample: array<Cell>, address: usize, payloadLen: usize, alignment: usize)
    returns (r: Result<usize>)
    requires sample.Length < U64_LIMIT
    modifies sample
    ensures r == HeaderPlanUninit(lib, m, sample.Length, payloadLen, alignment, address)
    ensures r.Err? ==> sample[..] == old(sample[..])
    ensures r.Ok? ==>
              sample[..] == Cells(HeaderImage(EncodedBlock(lib, m), payloadLen, r.value))
                            + old(sample[r.value..r.value + payloadLen])
                            + Cells(Zeros(sample.Length - r.value - payloadLen))
  {
    hide EncodedBlock, Encodable, PayloadOffsetForLen, HeaderImage, Zeros, Cells;
    var block :- EncodeMetadata(lib, m);
    var metadataLen :- TryU32(|block|);
    var payloadLen32 :- TryU32(payloadLen);
    var bounds :- FrameLayoutBounds(sample.Length, |block|, payloadLen, alignment, address);
    var payloadOffset := bounds.0;
    var payloadOffset32 :- TryU32(payloadOffset);
    assert HeaderPlanUninit(lib, m, sample.Length, payloadLen, alignment, address) == Ok(payloadOffset);
    assert HeaderPlan(lib, m, sample.Length, payloadLen, alignment, address) == Ok(payloadOffset);
    hide FrameLayoutBounds, HeaderPlan, HeaderPlanUninit;
    // From here on nothing can fail any more: the error exits of the three steps below are dead.
    var prefix := InitializeUninitRange(sample, 0, payloadOffset);
    var payloadEnd := payloadOffset + payloadLen;
    var tail := InitializeUninitRange(sample, payloadEnd, sample.Length);
    assert CheckedAdd(payloadOffset, payloadLen) == Ok(payloadEnd) && prefix.Ok? && tail.Ok?;
    ghost var rest := old(sample[payloadOffset..payloadEnd]) + Cells(Zeros(sample.Length - payloadEnd));
    assert sample[..] == Cells(Zeros(payloadOffset)) + rest;
    LayHeaderUninit(sample, payloadOffset32, block, payloadLen32, rest);
    return Ok(payloadOffset);
  }

  /** The six header writes through the initialised view of the prefix. */
  method LayHeaderUninit(sample: array<Cell>, offset: u32, block: seq<byte>, payloadLen: u32, ghost rest: seq<Cell>)
    requires |block| < U32_LIMIT && HEADER_LEN + |block| <= offset <= sample.Length
    requires sample[..] == Cells(Zeros(offset)) + rest
    modifies sample
    ensures sample[..] == Cells(HeaderImage(block, payloadLen, offset)) + rest
  {
    hide Le;
    assert sample[..offset] == Cells(Zeros(offset));
    WriteInitialized(sample, offset, 0, MAGIC);
    WriteInitialized(sample, offset, 4, [VERSION]);
    WriteInitialized(sample, offset, 8, Le(4, |block|));
    WriteInitialized(sample, offset, 12, Le(4, payloadLen));
    WriteInitialized(sample, offset, 16, Le(4, offset));
    WriteInitialized(sample, offset, 20, block);
    HeaderCellsLaid(block, payloadLen, offset, rest);
  }

  /** The header writes over zeroed cells give the cells of the header image. */
  lemma HeaderCellsLaid(block: seq<byte>, payloadLen: nat, offset: nat, rest: seq<Cell>)
    requires HEADER_LEN + |block| <= offset
    ensures Splice(Splice(Splice(Splice(Splice(Splice(Cells(Zeros(offset)) + rest, 0, Cells(MAGIC)), 4, Cells([VERSION])),
                                        8, Cells(Le(4, |block|))), 12, Cells(Le(4, payloadLen))),
                          16, Cells(Le(4, offset))), 20, Cells(block))
            == Cells(HeaderImage(block, payloadLen, offset)) + rest
  {
    hide Le;
    var blank := Cells(Zeros(offset));
    HeaderLaid(blank, Cells(MAGIC), Byte(VERSION), Cells(Le(4, |block|)), Cells(Le(4, payloadLen)), Cells(Le(4, offset)),
               Cells(block), rest);
    assert Cells([VERSION]) == [Byte(VERSION)];
    assert blank[5..8] == Cells(Zeros(3));
    assert blank[20 + |block|..] == Cells(Zeros(offset - HEADER_LEN - |block|));
    CellsOfImage(block, payloadLen, offset);
  }

  lemma CellsAppend(a: seq<byte>, b: seq<byte>)
    ensures Cells(a + b) == Cells(a) + Cells(b)
  {
  }

  lemma CellsOfImage(block: seq<byte>, payloadLen: nat, offset: nat)
    requires HEADER_LEN + |block| <= offset
    ensures Cells(HeaderImage(block, payloadLen, offset))
            == Cells(MAGIC) + Cells([VERSION]) + Cells(Zeros(3)) + Cells(Le(4, |block|)) + Cells(Le(4, payloadLen))
               + Cells(Le(4, offset)) + Cells(block) + Cells(Zeros(offset - HEADER_LEN - |block|))
  {
    hide Le;
    var p1 := MAGIC + [VERSION];
    var p2 := p1 + Zeros(3);
    var p3 := p2 + Le(4, |block|);
    var p4 := p3 + Le(4, payloadLen);
    var p5 := p4 + Le(4, offset);
    var p6 := p5 + block;
    CellsAppend(MAGIC, [VERSION]);
    CellsAppend(p1, Zeros(3));
    CellsAppend(p2, Le(4, |block|));
    CellsAppend(p3, Le(4, payloadLen));
    CellsAppend(p4, Le(4, offset));
    CellsAppend(p5, block);
    CellsAppend(p6, Zeros(offset - HEADER_LEN - |block|));
  }
}
