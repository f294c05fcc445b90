/** Transmit loans across the native boundary: the bridge's slot pool, its reserve, send and
    destroy functions, and the Rust handles that own one slot each. The calls of the S-CORE
    runtime appear as arguments: what `Allocate` hands out and whether `Send` succeeds. */
module NativeBridge {
  import opened Base
  import opened Alignment
  import opened Config
  import opened Metadata
  import MetadataGrammar
  import opened FrameLayout
  import opened FrameWriter
  import opened Loans
  import opened SlotMapping
  import opened Sets

  /** One wrapper object of the pool, with the loan of the runtime it owns. */
  datatype TxSlot = TxSlot(inUse: bool, inPool: bool, sample: Option<AllocatedSample>, sampleData: usize, sampleSize: usize)

  const FREE_SLOT := TxSlot(false, false, None, 0, 0)

  class TxLoanPool {
    var slots: seq<TxSlot>
    var refs: nat
    var deleted: bool

    constructor (capacity: nat)
      ensures |slots| == capacity && refs == 1 && !deleted
      ensures forall i :: 0 <= i < capacity ==> slots[i] == TxSlot(false, true, None, 0, 0)
    {
      slots := seq(capacity, _ => TxSlot(false, true, None, 0, 0));
      refs := 1;
      deleted := false;
    }

    method AddRef()
      modifies `refs
      ensures refs == old(refs) + 1
    {
      refs := refs + 1;
    }

    method ReleaseRef()
      requires refs > 0
      modifies `refs, `deleted
      ensures refs == old(refs) - 1 && deleted == (old(deleted) || refs == 0)
    {
      refs := refs - 1;
      if refs == 0 {
        deleted := true;
      }
    }

    /** Takes the first free slot, or nothing when all are in use. */
    method Acquire() returns (slot: Option<nat>)
      modifies `refs, `slots
      ensures slot.None? ==> refs == old(refs) && slots == old(slots) && forall k :: 0 <= k < |slots| ==> slots[k].inUse
      ensures slot.Some? ==>
                && slot.value < |old(slots)| && !old(slots)[slot.value].inUse
                && (forall k :: 0 <= k < slot.value ==> old(slots)[k].inUse)
                && refs == old(refs) + 1
                && slots == old(slots)[slot.value := TxSlot(true, true, old(slots)[slot.value].sample, 0, 0)]
    {
      for i := 0 to |slots|
        invariant slots == old(slots) && refs == old(refs)
        invariant forall k :: 0 <= k < i ==> slots[k].inUse
      {
        if !slots[i].inUse {
          slots := slots[i := slots[i].(inUse := true, inPool := true, sampleData := 0, sampleSize := 0)];
          AddRef();
          return Some(i);
        }
      }
      return None;
    }

    /** Gives a slot back. A slot that is not in use is left alone. */
    method Release(slot: nat)
      requires slot < |slots| && (slots[slot].inUse ==> refs > 0)
      modifies `refs, `deleted, `slots
      ensures if old(slots)[slot].inPool && old(slots)[slot].inUse
              then slots == old(slots)[slot := FREE_SLOT] && refs == old(refs) - 1 && deleted == (old(deleted) || refs == 0)
              else slots == old(slots) && refs == old(refs) && deleted == old(deleted)
    {
      if !slots[slot].inPool || !slots[slot].inUse {
        return;
      }
      slots := slots[slot := FREE_SLOT];
      ReleaseRef();
    }
  }

  /** The Rust handle of a transmit loan. The slot number stands for the raw pointer. */
  class NativeTxLoan {
    var ptr: Option<nat>

    constructor (slot: nat)
      ensures ptr == Some(slot)
    {
      ptr := Some(slot);
    }

    /** Gives up the pointer; a handle gives it up at most once. */
    method Take() returns (slot: nat)
      requires ptr.Some?
      modifies this
      ensures ptr == None && slot == old(ptr).value
    {
      slot := ptr.value;
      ptr := None;
    }
  }

  /** The check of the Rust side on data pointer and length. */
  function ValidateSampleParts(data: usize, len: usize, expectedLen: usize, expectedAlignment: usize): Result<()> {
    if data == 0 then Err(Internal)
    else if len != expectedLen then Err(Internal)
    else if expectedAlignment == 0 || !IsPowerOfTwo(expectedAlignment) then Err(Internal)
    else if !IsMultiple(data, expectedAlignment) then Err(Internal)
    else Ok(())
  }

  /** A slot as a successful reserve leaves it. */
  predicate Loaned(slot: TxSlot, event: Event) {
    && slot.inUse && slot.inPool && slot.sampleSize == event.sampleSize
    && slot.sample.Some? && MappedData(event, slot.sample.value) == Some(slot.sampleData)
  }

  /** Whatever the bridge hands out passes the Rust side's check. */
  lemma LoanedSlotsPassTheCheck(slot: TxSlot, event: Event)
    requires Loaned(slot, event)
    ensures ValidateSampleParts(slot.sampleData, slot.sampleSize, event.sampleSize, event.sampleAlignment) == Ok(())
    ensures IsPowerOfTwo(event.sampleAlignment) && IsMultiple(slot.sampleData, event.sampleAlignment)
  {
    OneBitIsPowerOfTwo(event.sampleAlignment);
    MappedDataIsAligned(event, slot.sample.value);
  }

  /** What the Rust side lets through, and so what it refuses. */
  lemma CheckIsExact(data: usize, len: usize, expectedLen: usize, expectedAlignment: usize)
    ensures ValidateSampleParts(data, len, expectedLen, expectedAlignment)
            == if data != 0 && len == expectedLen && IsPowerOfTwo(expectedAlignment) && data % expectedAlignment == 0
               then Ok(()) else Err(Internal)
  {
  }

  /** Where two loans of the runtime share one storage, they are of different slots. */
  predicate Apart(a: AllocatedSample, b: AllocatedSample) {
    a.slot.Some? && b.slot.Some? && a.rawSlots == b.rawSlots ==> a.slot.value != b.slot.value
  }

  /** The runtime has not handed out one slot of a storage twice among these. */
  ghost predicate AllApart(slots: seq<TxSlot>, used: set<nat>) {
    forall i, j :: i in used && j in used && i != j && i < |slots| && j < |slots|
                   && slots[i].sample.Some? && slots[j].sample.Some? ==>
      Apart(slots[i].sample.value, slots[j].sample.value)
  }

  ghost predicate ApartFrom(slots: seq<TxSlot>, used: set<nat>, sample: AllocatedSample) {
    forall i :: i in used && i < |slots| && slots[i].sample.Some? ==>
      Apart(slots[i].sample.value, sample) && Apart(sample, slots[i].sample.value)
  }

  lemma ApartWithout(slots: seq<TxSlot>, used: set<nat>, slot: nat)
    requires slot < |slots|
    ensures AllApart(slots, used) ==> AllApart(slots[slot := FREE_SLOT], used - {slot})
  {
  }

  lemma ApartStays(slots: seq<TxSlot>, used: set<nat>, slot: nat)
    requires slot < |slots| && slot !in used
    ensures AllApart(slots, used) ==> AllApart(slots[slot := FREE_SLOT], used)
  {
  }

  lemma ApartWith(slots: seq<TxSlot>, used: set<nat>, slot: nat, loaned: TxSlot)
    requires slot < |slots| && slot !in used && loaned.sample.Some?
    ensures AllApart(slots, used) && ApartFrom(slots, used, loaned.sample.value) ==> AllApart(slots[slot := loaned], used + {slot})
  {
  }

  /** The bytes of two slots in use that share one storage do not overlap. */
  lemma LoanedSlotsDoNotOverlap(slots: seq<TxSlot>, used: set<nat>, event: Event, i: nat, j: nat)
    requires SlotsInv(slots, used, event) && AllApart(slots, used) && i in used && j in used && i != j
    ensures i < |slots| && j < |slots| && slots[i].sample.Some? && slots[j].sample.Some?
    ensures var a, b := slots[i].sample.value, slots[j].sample.value;
            a.slot.Some? && b.slot.Some? && a.rawSlots == b.rawSlots ==>
              || slots[i].sampleData + slots[i].sampleSize <= slots[j].sampleData
              || slots[j].sampleData + slots[j].sampleSize <= slots[i].sampleData
  {
    assert Loaned(slots[i], event) && Loaned(slots[j], event);
    var a, b := slots[i].sample.value, slots[j].sample.value;
    if a.slot.Some? && b.slot.Some? && a.rawSlots == b.rawSlots {
      assert Apart(a, b);
      if a.slot.value < b.slot.value {
        SlotsAreDisjoint(event, a, b);
      } else {
        SlotsAreDisjoint(event, b, a);
      }
    }
  }

  /** The slots in use are exactly these, and each is ready to be written or sent. */
  ghost predicate SlotsInv(slots: seq<TxSlot>, used: set<nat>, event: Event) {
    && |slots| == event.maxSamples
    && (forall i: nat :: i in used <==> i < |slots| && slots[i].inUse)
    && (forall i :: i in used ==> Loaned(slots[i], event))
  }

  lemma SlotReturned(slots: seq<TxSlot>, used: set<nat>, event: Event, slot: nat)
    requires SlotsInv(slots, used, event) && slot in used
    ensures slot < |slots| && slots[slot].inUse && slots[slot].inPool
    ensures SlotsInv(slots[slot := FREE_SLOT], used - {slot}, event)
  {
  }

  lemma SlotLoaned(slots: seq<TxSlot>, used: set<nat>, event: Event, slot: nat, loaned: TxSlot)
    requires SlotsInv(slots, used, event) && slot < |slots| && Loaned(loaned, event)
    ensures SlotsInv(slots[slot := loaned], used + {slot}, event)
  {
    hide Loaned;
    assert loaned.inUse by { InUse(loaned, event); }
  }

  lemma LoanedSlot(slots: seq<TxSlot>, used: set<nat>, event: Event, slot: nat)
    requires SlotsInv(slots, used, event) && slot in used
    ensures slot < |slots| && Loaned(slots[slot], event)
  {
  }

  lemma InUse(slot: TxSlot, event: Event)
    requires Loaned(slot, event)
    ensures slot.inUse
  {
  }

  lemma FreeSlotKept(slots: seq<TxSlot>, used: set<nat>, event: Event, slot: nat)
    requires SlotsInv(slots, used, event) && slot < |slots| && !slots[slot].inUse
    ensures slot !in used && SlotsInv(slots[slot := FREE_SLOT], used, event)
    ensures forall i :: i in used ==> i < |slots| && slots[slot := FREE_SLOT][i] == slots[i]
  {
    hide Loaned;
  }

  /** The outstanding handles without the one of slot `k`. */
  ghost function Without(m: map<nat, NativeTxLoan>, k: nat): (r: map<nat, NativeTxLoan>)
    requires k in m
    ensures |r| == |m| - 1
    ensures forall i :: i in r <==> i in m && i != k
    ensures forall i :: i in r ==> r[i] == m[i]
    ensures r == m - {k} && r.Keys == m.Keys - {k}
  {
    assert (m - {k}).Keys == m.Keys - {k};
    m - {k}
  }

  /** The outstanding handles with one more. */
  ghost function With(m: map<nat, NativeTxLoan>, k: nat, loan: NativeTxLoan): (r: map<nat, NativeTxLoan>)
    requires k !in m
    ensures |r| == |m| + 1 && r.Keys == m.Keys + {k}
    ensures forall i :: i in m ==> r[i] == m[i]
    ensures r[k] == loan
    ensures r == m[k := loan]
  {
    assert m[k := loan].Keys == m.Keys + {k};
    m[k := loan]
  }

  lemma LoanUndone(m: map<nat, NativeTxLoan>, k: nat, loan: NativeTxLoan)
    requires k !in m
    ensures Without(m[k := loan], k) == m
  {
  }

  class NativeTransport {
    const event: Event
    const pool: TxLoanPool
    var live: bool
    /** The outstanding handle of each slot in use. */
    ghost var owner: map<nat, NativeTxLoan>

    ghost predicate Valid()
      reads this, pool, owner.Values
    {
      && SlotsInv(pool.slots, owner.Keys, event)
      && (forall i :: i in owner ==> owner[i].ptr == Some(i))
      && pool.refs == (if live then 1 else 0) + |owner|
      && (pool.deleted <==> pool.refs == 0)
    }

    /** The runtime has not handed out a slot of a storage that is still outstanding. */
    ghost predicate SamplesApart()
      reads this, pool
    {
      AllApart(pool.slots, owner.Keys)
    }

    /** As long as it does not, the bytes behind different outstanding handles never overlap. */
    lemma HandlesDoNotOverlap(i: nat, j: nat)
      requires Valid() && SamplesApart() && i in owner && j in owner && i != j
      ensures i < |pool.slots| && j < |pool.slots| && pool.slots[i].sample.Some? && pool.slots[j].sample.Some?
      ensures var a, b := pool.slots[i], pool.slots[j];
              a.sample.value.slot.Some? && b.sample.value.slot.Some? && a.sample.value.rawSlots == b.sample.value.rawSlots ==>
                a.sampleData + event.sampleSize <= b.sampleData || b.sampleData + event.sampleSize <= a.sampleData
    {
      LoanedSlotsDoNotOverlap(pool.slots, owner.Keys, event, i, j);
    }

    constructor (event: Event)
      ensures SamplesApart()
      ensures Valid() && live && owner == map[] && this.event == event && fresh(pool)
    {
      this.event := event;
      pool := new TxLoanPool(event.maxSamples);
      live := true;
      owner := map[];
    }

    /** This handle is one of the outstanding ones. */
    ghost predicate Owns(loan: NativeTxLoan)
      reads this, loan
    {
      loan.ptr.Some? && loan.ptr.value in owner && owner[loan.ptr.value] == loan
    }

    /** A reserve succeeds exactly when a slot is free, the runtime hands out a sample, and that
        sample maps to a usable slot of its storage; this is the address. */
    ghost function ReservedAddress(handedOut: Option<AllocatedSample>): Option<usize>
      reads this`owner
    {
      if |owner| < event.maxSamples && handedOut.Some? then MappedData(event, handedOut.value) else None
    }

    /** Outstanding handles and slots in use correspond one to one; there are at most
        `maxSamples`, and the pool has a free slot exactly when there are fewer. */
    lemma HandlesAreSlots()
      requires Valid()
      ensures |owner| <= event.maxSamples
      ensures |owner| == event.maxSamples <==> forall i :: 0 <= i < |pool.slots| ==> pool.slots[i].inUse
      ensures forall i, j :: i in owner && j in owner && i != j ==> owner[i] != owner[j]
    {
      var all := Range(event.maxSamples);
      SubsetSize(owner.Keys, all);
      if forall i :: 0 <= i < |pool.slots| ==> pool.slots[i].inUse {
        assert owner.Keys == all;
      }
    }

    /** Every failure leaves the set of slots in use as it was; a success adds the first free slot
        with the address of its own storage. */
    method Reserve(handedOut: Option<AllocatedSample>) returns (r: Result<nat>)
      requires Valid() && live
      modifies pool
      ensures pool.deleted == old(pool.deleted)
      ensures r.Ok? == ReservedAddress(handedOut).Some? && (r.Ok? ==> handedOut.Some?)
      ensures r.Err? ==>
                && pool.refs == old(pool.refs)
                && SlotsInv(pool.slots, owner.Keys, event)
                && (forall i :: i in owner ==> pool.slots[i] == old(pool.slots)[i])
                && r.code == (if handedOut.Some? && |owner| < event.maxSamples then Internal else ResourceExhausted)
                && (AllApart(old(pool.slots), owner.Keys) ==> AllApart(pool.slots, owner.Keys))
      ensures r.Ok? ==>
                && (AllApart(old(pool.slots), owner.Keys) && ApartFrom(old(pool.slots), owner.Keys, handedOut.value) ==>
                      AllApart(pool.slots, owner.Keys + {r.value}))
                && r.value !in owner
                && pool.refs == old(pool.refs) + 1
                && SlotsInv(pool.slots, owner.Keys + {r.value}, event)
                && pool.slots == old(pool.slots)[r.value := pool.slots[r.value]]
                && ReservedAddress(handedOut) == Some(pool.slots[r.value].sampleData)
                && pool.slots[r.value].sample == handedOut
    {
      hide MappedData, PointerIsAligned, AllApart, ApartFrom;
      HandlesAreSlots();
      ghost var before := pool.slots;
      var loan := pool.Acquire();
      if loan.None? {
        return Err(ResourceExhausted);
      }
      var i := loan.value;
      FreeSlotKept(before, owner.Keys, event, i);
      ApartStays(before, owner.Keys, i);
      hide SlotsInv;
      if handedOut.None? {
        pool.Release(i);
        assert pool.slots == before[i := FREE_SLOT];
        return Err(ResourceExhausted);
      }
      var data := GenericSampleData(event, handedOut.value);
      MappedDataIsAligned(event, handedOut.value);
      if data.None? {
        pool.Release(i);
        assert pool.slots == before[i := FREE_SLOT];
        return Err(Internal);
      }
      var loaned := pool.slots[i].(sample := handedOut, sampleSize := event.sampleSize, sampleData := data.value);
      pool.slots := pool.slots[i := loaned];
      SlotLoaned(before, owner.Keys, event, i, loaned);
      ApartWith(before, owner.Keys, i, loaned);
      assert pool.slots == before[i := loaned];
      return Ok(i);
    }

    /** `NativeTransport::loan_sample`: a handle for a reserved slot. */
    method LoanSample(handedOut: Option<AllocatedSample>) returns (r: Result<NativeTxLoan>)
      requires Valid() && live
      modifies this`owner, pool
      ensures Valid()
      ensures r.Ok? == old(ReservedAddress(handedOut)).Some?
      ensures r.Err? ==> owner == old(owner)
      ensures r.Err? ==> r.code == if handedOut.Some? && |owner| < event.maxSamples then Internal else ResourceExhausted
      ensures r.Ok? ==> fresh(r.value) && Owns(r.value) && r.value.ptr.value !in old(owner)
                        && owner == old(owner)[r.value.ptr.value := r.value]
                        && old(ReservedAddress(handedOut)) == Some(pool.slots[r.value.ptr.value].sampleData)
      ensures old(SamplesApart()) && (handedOut.Some? ==> ApartFrom(old(pool.slots), old(owner).Keys, handedOut.value)) ==> SamplesApart()
    {
      hide MappedData, PointerIsAligned, ValidateSampleParts, IsMultiple, IsPowerOfTwo, SlotsInv, With, AllApart, ApartFrom;
      var slot :- Reserve(handedOut);
      assert ValidateSampleParts(pool.slots[slot].sampleData, pool.slots[slot].sampleSize, event.sampleSize, event.sampleAlignment)
          == Ok(()) by {
        LoanedSlot(pool.slots, owner.Keys + {slot}, event, slot);
        LoanedSlotsPassTheCheck(pool.slots[slot], event);
      }
      var loan := new NativeTxLoan(slot);
      ghost var before, after := owner, With(owner, slot, loan);
      assert forall i :: i in before ==> before[i].ptr == Some(i) && before[i] != loan;
      owner := after;
      assert forall i :: i in owner ==> owner[i].ptr == Some(i);
      return Ok(loan);
    }

    /** The end of a loan on the bridge side: the handle gives up its pointer and the slot goes
        back to the pool. */
    method ReturnSlot(loan: NativeTxLoan)
      requires Valid() && Owns(loan)
      modifies this`owner, loan, pool
      ensures Valid() && loan.ptr == None
      ensures owner == Without(old(owner), old(loan.ptr).value)
      ensures old(SamplesApart()) ==> SamplesApart()
    {
      hide SlotsInv, Without, AllApart;
      ghost var before, after := owner, Without(owner, loan.ptr.value);
      SlotReturned(pool.slots, owner.Keys, event, loan.ptr.value);
      ApartWithout(pool.slots, owner.Keys, loan.ptr.value);
      assert forall i :: i in after ==> after[i] != loan;
      var slot := loan.Take();
      pool.Release(slot);
      owner := after;
    }

    /** `NativeTransport::send`: the slot is given back whether or not the runtime takes the sample. */
    method Send(loan: NativeTxLoan, runtimeSends: bool) returns (r: Result<()>)
      requires Valid() && live && Owns(loan)
      modifies this`owner, loan, pool
      ensures Valid()
      ensures owner == Without(old(owner), old(loan.ptr).value) && loan.ptr == None
      ensures old(SamplesApart()) ==> SamplesApart()
      ensures r == if runtimeSends then Ok(()) else Err(Internal)
    {
      ReturnSlot(loan);
      return if runtimeSends then Ok(()) else Err(Internal);
    }

    /** Dropping a handle gives its slot back, once: a handle that was sent or dropped before is
        empty, and dropping it does nothing. The transport may be gone by then. */
    method DropLoan(loan: NativeTxLoan)
      requires Valid() && (loan.ptr.Some? ==> Owns(loan))
      modifies this`owner, loan, pool
      ensures Valid() && loan.ptr == None
      ensures owner == if old(loan.ptr).Some? then Without(old(owner), old(loan.ptr).value) else old(owner)
      ensures old(SamplesApart()) ==> SamplesApart()
      ensures old(loan.ptr).None? ==> pool.refs == old(pool.refs) && pool.slots == old(pool.slots)
    {
      if loan.ptr.Some? {
        ReturnSlot(loan);
      }
    }

    /** Dropping the transport leaves the loans valid; the pool goes with the last of them. */
    method Destroy()
      requires Valid() && live
      modifies this`live, pool`refs, pool`deleted
      ensures old(SamplesApart()) ==> SamplesApart()
      ensures Valid() && !live && (pool.deleted <==> owner == map[])
    {
      live := false;
      pool.ReleaseRef();
    }

    /** The header goes into the loaned sample, which is zeroed first; when it does not fit, the
        handle is dropped. `sample` is the memory behind the slot. */
    method LayHeaderOrDrop(lib: Library, spec: LoanSpec, loan: NativeTxLoan, sample: array<byte>) returns (r: Result<usize>)
      requires Valid() && Owns(loan) && sample.Length == event.sampleSize
      modifies this`owner, loan, pool, sample
      ensures Valid()
      ensures r == HeaderPlan(lib, spec.metadata, event.sampleSize, spec.payloadLen, spec.payloadAlignment,
                              old(pool.slots[loan.ptr.value].sampleData))
      ensures if r.Ok? then
                && Owns(loan) && owner == old(owner) && loan.ptr == old(loan.ptr) && pool.slots == old(pool.slots)
                && sample[..] == FrameBytes(MetadataGrammar.EncodedBlock(lib, spec.metadata), Zeros(spec.payloadLen), r.value, sample.Length)
              else loan.ptr == None && owner == Without(old(owner), old(loan.ptr.value))
      ensures old(SamplesApart()) ==> SamplesApart()
    {
      hide AllApart, Without;
      hide HeaderPlan, SlotsInv, MetadataGrammar.EncodedBlock, MetadataGrammar.Encodable, FrameBytes;
      LoanedSlot(pool.slots, owner.Keys, event, loan.ptr.value);
      var data := pool.slots[loan.ptr.value].sampleData;
      r := ZeroAndLay(lib, spec.metadata, sample, data, spec.payloadLen, spec.payloadAlignment);
      if r.Err? {
        DropLoan(loan);
      }
    }

    /** The loan of a frame: gate, reserve, header. Whatever fails, no slot stays in use for it; on
        success the slot holds the complete frame with a zeroed payload, and the payload address has
        the requested alignment. */
    method LoanFrame(lib: Library, config: TransportConfig, spec: LoanSpec, handedOut: Option<AllocatedSample>, sample: array<byte>)
      returns (r: Result<(NativeTxLoan, usize)>)
      requires Valid() && live && sample.Length == event.sampleSize
      requires config.sampleSize == event.sampleSize && config.sampleAlignment == event.sampleAlignment
      modifies this`owner, pool, sample
      ensures Valid()
      ensures r.Err? ==> owner == old(owner)
      ensures old(SamplesApart()) && (handedOut.Some? ==> ApartFrom(old(pool.slots), old(owner).Keys, handedOut.value)) ==> SamplesApart()
      ensures var address := old(ReservedAddress(handedOut));
              if AlignmentGate(config, spec.payloadAlignment).Err? then r == Err(InvalidArgument)
              else if address.None? then
                r == Err(if handedOut.Some? && |old(owner)| < event.maxSamples then Internal else ResourceExhausted)
              else match LoanGrant(lib, config, spec, address.value)
                   case Err(code) => r == Err(code)
                   case Ok(offset) =>
                     && r.Ok? && r.value.1 == offset
                     && sample[..] == FrameBytes(MetadataGrammar.EncodedBlock(lib, spec.metadata), Zeros(spec.payloadLen), offset, sample.Length)
      ensures r.Ok? ==>
                && Owns(r.value.0) && fresh(r.value.0) && owner == old(owner)[r.value.0.ptr.value := r.value.0]
                && old(ReservedAddress(handedOut)) == Some(pool.slots[r.value.0.ptr.value].sampleData)
                && spec.payloadAlignment > 0
                && IsMultiple(pool.slots[r.value.0.ptr.value].sampleData + r.value.1, spec.payloadAlignment)
    {
      hide HeaderPlan, LoanGrant, AlignmentGate, IsMultiple, MetadataGrammar.EncodedBlock, MetadataGrammar.Encodable, Granted, FrameBytes;
      hide SlotsInv, MappedData, AllApart, ApartFrom, Without, With;
      var _ :- AlignmentGate(config, spec.payloadAlignment);
      var loan :- LoanSample(handedOut);
      var slot := loan.ptr.value;
      LoanedSlot(pool.slots, owner.Keys, event, slot);
      ghost var data := pool.slots[slot].sampleData;
      GrantAfterGate(lib, config, spec, data);
      var offset := LayHeaderOrDrop(lib, spec, loan, sample);
      if offset.Err? {
        LoanUndone(old(owner), slot, loan);
        return Err(offset.code);
      }
      PlannedPayloadIsAligned(lib, spec, event.sampleSize, data);
      return Ok((loan, offset.value));
    }
  }

  lemma GrantAfterGate(lib: Library, config: TransportConfig, spec: LoanSpec, address: usize)
    requires AlignmentGate(config, spec.payloadAlignment).Ok?
    ensures LoanGrant(lib, config, spec, address)
            == HeaderPlan(lib, spec.metadata, config.sampleSize, spec.payloadLen, spec.payloadAlignment, address)
  {
  }

  lemma PlannedPayloadIsAligned(lib: Library, spec: LoanSpec, sampleLen: usize, address: usize)
    requires HeaderPlan(lib, spec.metadata, sampleLen, spec.payloadLen, spec.payloadAlignment, address).Ok?
    ensures spec.payloadAlignment > 0
    ensures IsMultiple(address + HeaderPlan(lib, spec.metadata, sampleLen, spec.payloadLen, spec.payloadAlignment, address).value,
                       spec.payloadAlignment)
  {
    var metadataLen := |MetadataGrammar.EncodedBlock(lib, spec.metadata)|;
    var offset := HeaderPlan(lib, spec.metadata, sampleLen, spec.payloadLen, spec.payloadAlignment, address).value;
    PlanGrantsExactly(metadataLen, sampleLen, spec.payloadLen, spec.payloadAlignment, address, offset);
    assert AlignedAt(address, offset, spec.payloadAlignment);
  }
}
