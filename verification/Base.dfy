/** Vocabulary shared by every module: options, results with a status code, machine words. */
module Base {

  datatype Option<+T> = None | Some(value: T)

  /** The status codes the modelled calls can fail with; message texts are not modelled. */
  datatype Code =
    | InvalidArgument
    | NotFound
    | ResourceExhausted
    | AlreadyExists
    | FailedPrecondition
    | Internal

  datatype Result<+T> = Ok(value: T) | Err(code: Code) {
    predicate IsFailure() {
      Err?
    }

    function PropagateFailure<U>(): Result<U>
      requires Err?
    {
      Err(code)
    }

    function Extract(): T
      requires Ok?
    {
      value
    }
  }

  const U32_LIMIT: nat := 0x1_0000_0000
  const U64_LIMIT: nat := 0x1_0000_0000_0000_0000

  type byte = n: nat | n < 256
  type u32 = n: nat | n < U32_LIMIT
  type u64 = n: nat | n < U64_LIMIT
  /** `usize`, `size_t` and `uintptr_t` are taken as 64-bit words. */
  type usize = n: nat | n < U64_LIMIT

  /** Addition that fails instead of wrapping. */
  function CheckedAdd(a: usize, b: usize): Result<usize> {
    if a + b < U64_LIMIT then Ok(a + b) else Err(InvalidArgument)
  }

  /** Conversion to a 32-bit word that fails when the value does not fit. */
  function TryU32(n: nat): Result<u32> {
    if n < U32_LIMIT then Ok(n) else Err(InvalidArgument)
  }

  /** The counter arithmetic of the diagnostics: stays at the largest word once it gets there. */
  function SaturatingAdd(a: u64, n: nat): u64 {
    if a + n < U64_LIMIT then a + n else U64_LIMIT - 1
  }
}
