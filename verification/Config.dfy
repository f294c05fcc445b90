/** The transport configuration and the field invariants the other components rely on. */
module Config {
  import opened Base
  import opened Alignment

  datatype FullPolicy = DropOldestAndReport | RejectNewestAndReport

  datatype TransportConfig = TransportConfig(
    localAuthority: string,
    instanceSpecifier: string,
    serviceType: string,
    eventName: string,
    sampleSize: usize,
    sampleAlignment: usize,
    maxSamples: usize,
    pullMismatchQueueCapacity: usize,
    pullMismatchQueueFullPolicy: FullPolicy,
    mwComConfigPath: Option<string>)
  {
    function Validate(): Result<()> {
      var _ :- ValidateNonEmpty(localAuthority);
      var _ :- ValidateNonEmpty(instanceSpecifier);
      var _ :- ValidateNonEmpty(serviceType);
      var _ :- ValidateNonEmpty(eventName);
      if sampleSize == 0 then Err(InvalidArgument)
      else if sampleAlignment == 0 || !IsPowerOfTwo(sampleAlignment) then Err(InvalidArgument)
      else if maxSamples == 0 then Err(InvalidArgument)
      else Ok(())
    }

    /** What a built transport can rely on. */
    predicate Usable() {
      && sampleSize > 0 && maxSamples > 0
      && IsPowerOfTwo(sampleAlignment)
      && [] !in [localAuthority, instanceSpecifier, serviceType, eventName]
    }

    /** Validation lets through exactly the usable configurations; the queue capacity may be zero. */
    lemma ValidatesExactlyUsable()
      ensures Validate() == if Usable() then Ok(()) else Err(InvalidArgument)
    {
    }
  }

  function ValidateNonEmpty(value: string): Result<()> {
    if value == [] then Err(InvalidArgument) else Ok(())
  }
}
