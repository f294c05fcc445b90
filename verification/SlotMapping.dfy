/** How the native bridge maps a loan of the event to the raw bytes of its slot. All arithmetic is
    on 64-bit words, which wrap in C++; the results here say where they cannot. */
module SlotMapping {
  import opened Base
  import opened Alignment

  /** The strictest fundamental alignment on the supported platform, 64-bit Linux. */
  const MAX_ALIGN: usize := 16

  /** Bitwise "and" of two words, digit by digit. */
  function BitAnd(a: nat, b: nat): nat {
    if a == 0 || b == 0 then 0 else 2 * BitAnd(a / 2, b / 2) + (a % 2) * (b % 2)
  }

  /** The bridge's test for a power of two. */
  predicate HasOneBit(value: usize) {
    value != 0 && BitAnd(value, value - 1) == 0
  }

  lemma {:induction false} BitAndSelf(a: nat)
    ensures BitAnd(a, a) == a
  {
    if a > 0 {
      BitAndSelf(a / 2);
      BitSquare(a % 2);
      var digit := (a % 2) * (a % 2);
      assert BitAnd(a, a) == 2 * BitAnd(a / 2, a / 2) + digit;
    }
  }

  lemma BitSquare(d: nat)
    requires d < 2
    ensures d * d == d
  {
    assert d == 0 || d == 1;
  }

  /** Clearing the lowest bit leaves zero exactly for the powers of two. */
  lemma {:induction false} OneBitIsPowerOfTwo(value: usize)
    ensures HasOneBit(value) <==> IsPowerOfTwo(value)
    decreases value
  {
    if value > 1 {
      if value % 2 == 0 {
        OneBitIsPowerOfTwo(value / 2);
        assert (value - 1) / 2 == value / 2 - 1 && (value - 1) % 2 == 1;
      } else {
        assert (value - 1) / 2 == value / 2 && (value - 1) % 2 == 0;
        BitAndSelf(value / 2);
      }
    }
  }

  predicate IsSupportedAlignment(alignment: usize) {
    HasOneBit(alignment) && alignment <= MAX_ALIGN
  }

  predicate PointerIsAligned(pointer: usize, alignment: usize) {
    pointer != 0 && IsSupportedAlignment(alignment) && pointer % alignment == 0
  }

  function WrapMul(a: usize, b: usize): usize {
    (a * b) % U64_LIMIT
  }

  /** The bridge's rounding: the same results as the frame layout's, with its own checks. */
  function AlignUpNative(value: usize, alignment: usize): Option<usize> {
    if !HasOneBit(alignment) then None
    else
      var remainder := value % alignment;
      if remainder == 0 then Some(value)
      else
        var padding := alignment - remainder;
        if value > U64_LIMIT - 1 - padding then None else Some(value + padding)
  }

  lemma RoundingsAgree(value: usize, alignment: usize)
    ensures AlignUp(value, alignment) == match AlignUpNative(value, alignment)
                                         case Some(up) => Ok(up)
                                         case None => Err(InvalidArgument)
  {
    OneBitIsPowerOfTwo(alignment);
  }

  lemma WrapIsExact(a: usize, b: usize)
    requires a * b < U64_LIMIT
    ensures WrapMul(a, b) == a * b
  {
  }

  /** Multiplication with an overflow check by division; the product is then computed with wrap. */
  method CheckedMultiply(lhs: usize, rhs: usize) returns (ok: bool, result: usize)
    ensures ok <==> lhs * rhs < U64_LIMIT
    ensures ok ==> result == lhs * rhs
  {
    if lhs != 0 {
      QuotientBound(U64_LIMIT - 1, lhs, rhs);
      if rhs > (U64_LIMIT - 1) / lhs {
        return false, 0;
      }
    }
    result := WrapMul(lhs, rhs);
    ok := true;
  }

  /** A factor is within the quotient exactly when the product is within the limit. */
  lemma QuotientBound(limit: nat, a: nat, b: nat)
    requires a > 0
    ensures b <= limit / a <==> a * b <= limit
  {
    var q := limit / a;
    assert limit == a * q + limit % a;
    MulGap(a, q, b);
    MulGap(a, b, q);
  }

  /** A loan as the skeleton hands it out: the pointer it reports, the slot number when the loan
      comes from the LoLa binding, and the address of the slot array that the storage reports. */
  datatype AllocatedSample = AllocatedSample(pointer: usize, slot: Option<usize>, rawSlots: usize)

  /** The fixed layout of the event. */
  datatype Event = Event(sampleSize: usize, sampleAlignment: usize, maxSamples: usize)

  function AlignedSize(event: Event): Option<usize> {
    AlignUpNative(event.sampleSize, event.sampleAlignment)
  }

  /** Everything the LoLa path checks, without order: the event is usable, the whole storage fits
      a word, the slot exists, and the addresses are real and aligned. */
  predicate MapsSlot(event: Event, loan: AllocatedSample, slot: usize) {
    && loan.pointer != 0 && event.sampleSize > 0 && event.maxSamples > 0
    && IsPowerOfTwo(event.sampleAlignment) && event.sampleAlignment <= MAX_ALIGN
    && AlignedSize(event).Some?
    && AlignedSize(event).value * event.maxSamples < U64_LIMIT
    && slot < event.maxSamples
    && slot * AlignedSize(event).value <= loan.pointer
    && loan.rawSlots != 0
    && loan.rawSlots + slot * AlignedSize(event).value < U64_LIMIT
    && loan.rawSlots % event.sampleAlignment == 0
  }

  /** The bytes of a slot lie in the storage, and the slot before it ends where it begins. */
  lemma SlotsInStorage(event: Event, slot: usize)
    requires event.sampleSize > 0 && AlignedSize(event).Some? && slot < event.maxSamples
    ensures var size := AlignedSize(event).value;
            && event.sampleSize <= size < event.sampleSize + event.sampleAlignment
            && event.sampleAlignment > 0 && size % event.sampleAlignment == 0
            && slot * size + event.sampleSize <= slot * size + size <= size * event.maxSamples
            && slot * size == size * slot
  {
    RoundingsAgree(event.sampleSize, event.sampleAlignment);
    AlignUpIsLeastMultiple(event.sampleSize, event.sampleAlignment);
    var size := AlignedSize(event).value;
    MulGap(size, slot, event.maxSamples);
  }

  lemma SlotAddressAligned(event: Event, raw: usize, slot: usize)
    requires event.sampleSize > 0 && AlignedSize(event).Some? && slot < event.maxSamples
    ensures event.sampleAlignment > 0
    ensures (raw + slot * AlignedSize(event).value) % event.sampleAlignment == 0 <==> raw % event.sampleAlignment == 0
  {
    SlotsInStorage(event, slot);
    OffsetKeepsAlignment(event.sampleAlignment, AlignedSize(event).value, slot, raw);
  }

  lemma OffsetKeepsAlignment(a: nat, size: nat, slot: nat, raw: nat)
    requires a > 0 && size > 0 && size % a == 0
    ensures (raw + slot * size) % a == 0 <==> raw % a == 0
  {
    ScaledMultiple(slot, size);
    MultipleOfMultiple(slot * size, size, a);
    SumOfMultiples(slot * size, raw, a);
  }

  /** The address a loan is mapped to: on the LoLa path that of its slot, off it the pointer. */
  function MappedData(event: Event, loan: AllocatedSample): Option<usize> {
    match loan.slot
    case Some(slot) => if MapsSlot(event, loan, slot) then Some(loan.rawSlots + slot * AlignedSize(event).value) else None
    case None =>
      if event.sampleSize > 0 && event.maxSamples > 0 && PointerIsAligned(loan.pointer, event.sampleAlignment)
      then Some(loan.pointer) else None
  }

  /** The bridge's mapping, check by check. On the LoLa path it succeeds exactly when `MapsSlot`
      holds, and then gives the slot's own address; off that path it gives the aligned pointer. */
  method GenericSampleData(event: Event, loan: AllocatedSample) returns (data: Option<usize>)
    ensures data == MappedData(event, loan)
  {
    OneBitIsPowerOfTwo(event.sampleAlignment);
    if loan.pointer == 0 || event.sampleSize == 0 || event.maxSamples == 0 || !IsSupportedAlignment(event.sampleAlignment) {
      return None;
    }
    if loan.slot.None? {
      return if PointerIsAligned(loan.pointer, event.sampleAlignment) then Some(loan.pointer) else None;
    }
    hide AlignUpNative, IsPowerOfTwo, WrapMul, HasOneBit, BitAnd;
    var alignedSampleSize := AlignUpNative(event.sampleSize, event.sampleAlignment);
    if alignedSampleSize.None? {
      return None;
    }
    var ok, totalStorageSize := CheckedMultiply(alignedSampleSize.value, event.maxSamples);
    if !ok {
      return None;
    }
    var slotIndex := loan.slot.value;
    if slotIndex >= event.maxSamples {
      return None;
    }
    SlotsInStorage(event, slotIndex);
    QuotientBound(U64_LIMIT - 1, alignedSampleSize.value, slotIndex);
    if slotIndex > (U64_LIMIT - 1) / alignedSampleSize.value {
      return None;
    }
    WrapIsExact(slotIndex, alignedSampleSize.value);
    var slotOffset := WrapMul(slotIndex, alignedSampleSize.value);
    if slotOffset > totalStorageSize || event.sampleSize > totalStorageSize - slotOffset {
      return None;
    }
    if loan.pointer < slotOffset {
      return None;
    }
    if loan.rawSlots == 0 {
      return None;
    }
    if slotOffset > U64_LIMIT - 1 - loan.rawSlots {
      return None;
    }
    var rawSlot := loan.rawSlots + slotOffset;
    SlotAddressAligned(event, loan.rawSlots, slotIndex);
    return if PointerIsAligned(rawSlot, event.sampleAlignment) then Some(rawSlot) else None;
  }

  /** The address that a slot is mapped to: its bytes lie inside the storage, at the slot's distance
      from its start, nothing wraps, and the two later bounds tests of the bridge could not have
      failed. */
  lemma MappedSlotIsInside(event: Event, loan: AllocatedSample)
    requires loan.slot.Some? && MappedData(event, loan).Some?
    ensures AlignedSize(event).Some? && event.sampleAlignment > 0
    ensures var data, slot := MappedData(event, loan).value, loan.slot.value;
            var size, total := AlignedSize(event).value, AlignedSize(event).value * event.maxSamples;
            && data - loan.rawSlots == slot * size && slot < event.maxSamples
            && loan.rawSlots <= data && data + event.sampleSize <= loan.rawSlots + total
            && total < U64_LIMIT && data % event.sampleAlignment == 0
            && WrapMul(slot, size) == slot * size
            && size > 0 && !(slot > (U64_LIMIT - 1) / size)
            && !(slot * size > total || event.sampleSize > total - slot * size)
  {
    var slot := loan.slot.value;
    SlotsInStorage(event, slot);
    SlotAddressAligned(event, loan.rawSlots, slot);
    var size := AlignedSize(event).value;
    QuotientBound(U64_LIMIT - 1, size, slot);
    WrapIsExact(slot, size);
  }

  /** Loans of different slots of one storage are mapped to addresses between which a whole sample
      has room. */
  lemma SlotsAreDisjoint(event: Event, a: AllocatedSample, b: AllocatedSample)
    requires a.slot.Some? && b.slot.Some? && a.slot.value < b.slot.value && a.rawSlots == b.rawSlots
    requires MappedData(event, a).Some? && MappedData(event, b).Some?
    ensures MappedData(event, a).value + event.sampleSize <= MappedData(event, b).value
  {
    MappedSlotIsInside(event, a);
    MappedSlotIsInside(event, b);
    var size, i, j := AlignedSize(event).value, a.slot.value, b.slot.value;
    SlotsInStorage(event, i);
    MulGap(size, i, j);
    assert i * size == size * i && j * size == size * j;
  }

  /** When a loan is mapped, and where to, without reference to the checks of the bridge: `size` is
      the sample size rounded up, found by its properties. */
  lemma MapsExactly(event: Event, loan: AllocatedSample, slot: usize, size: nat)
    requires loan.slot == Some(slot) && IsPowerOfTwo(event.sampleAlignment)
    requires event.sampleSize <= size < event.sampleSize + event.sampleAlignment && size % event.sampleAlignment == 0
    ensures MappedData(event, loan) ==
            if && loan.pointer != 0 && event.sampleSize > 0 && event.sampleAlignment <= 16 && slot < event.maxSamples
               && size < U64_LIMIT && size * event.maxSamples < U64_LIMIT
               && slot * size <= loan.pointer && loan.rawSlots != 0 && loan.rawSlots + slot * size < U64_LIMIT
               && loan.rawSlots % event.sampleAlignment == 0
            then Some(loan.rawSlots + slot * size) else None
  {
    RoundedSize(event, size);
    hide AlignedSize, IsPowerOfTwo;
  }

  lemma RoundedSize(event: Event, size: nat)
    requires IsPowerOfTwo(event.sampleAlignment)
    requires event.sampleSize <= size < event.sampleSize + event.sampleAlignment && size % event.sampleAlignment == 0
    ensures AlignedSize(event) == if size < U64_LIMIT then Some(size) else None
  {
    RoundingsAgree(event.sampleSize, event.sampleAlignment);
    AlignUpIsLeastMultiple(event.sampleSize, event.sampleAlignment);
    assert IsMultiple(size, event.sampleAlignment);
    if AlignedSize(event).Some? {
      OneRounding(event.sampleSize, event.sampleAlignment, size, AlignedSize(event).value);
    }
  }

  /** There is one multiple in a stretch of one alignment. */
  lemma OneRounding(v: nat, a: nat, x: nat, y: nat)
    requires a > 0 && v <= x < v + a && v <= y < v + a && x % a == 0 && y % a == 0
    ensures x == y
  {
    assert x == a * (x / a) && y == a * (y / a);
    MulGap(a, x / a, y / a);
    MulGap(a, y / a, x / a);
  }

  /** A loan that is not the LoLa binding's is used at its own aligned address, and a loan is refused
      for any alignment that is no power of two or is above 16. */
  lemma OtherLoansKeepTheirPointer(event: Event, loan: AllocatedSample)
    ensures !IsPowerOfTwo(event.sampleAlignment) || event.sampleAlignment > 16 ==> MappedData(event, loan) == None
    ensures loan.slot.None? && IsPowerOfTwo(event.sampleAlignment) && event.sampleAlignment <= 16 ==>
              MappedData(event, loan)
              == if loan.pointer != 0 && event.sampleSize > 0 && event.maxSamples > 0 && loan.pointer % event.sampleAlignment == 0
                 then Some(loan.pointer) else None
  {
    OneBitIsPowerOfTwo(event.sampleAlignment);
  }

  /** Both ways of mapping a loan give a non-null pointer at the event's alignment. */
  lemma MappedDataIsAligned(event: Event, loan: AllocatedSample)
    ensures MappedData(event, loan).Some? ==> PointerIsAligned(MappedData(event, loan).value, event.sampleAlignment)
  {
    OneBitIsPowerOfTwo(event.sampleAlignment);
    if loan.slot.Some? && MappedData(event, loan).Some? {
      MappedSlotIsInside(event, loan);
    }
  }
}
