/** Error codes and the result type shared by every component. */
module Core {

  datatype ErrorCode =
    | InvalidArgument
    | UnsupportedLayout
    | UnsupportedCapability
    | Overflow
    | ShortInput
    | ShortOutput
    | CapacityExhausted
    | StaleGeneration
    | InvalidState
    | ResourceLimit
    | IdentityConflict
    | WouldDeadlock

  datatype Result<+T> = Ok(value: T) | Err(error: ErrorCode)

  datatype Option<+T> = None | Some(value: T)

  /** Largest value of a 64-bit unsigned integer. */
  const U64_MAX: nat := 0xFFFF_FFFF_FFFF_FFFF

  type U64 = x: int | 0 <= x <= 0xFFFF_FFFF_FFFF_FFFF

  type I16 = x: int | -0x8000 <= x < 0x8000
}
