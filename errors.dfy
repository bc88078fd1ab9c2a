/** Failure values of the allocation core: one constructor per exception the
    server raises, plus the result wrappers that carry them. */
module Errors {

  /** The exceptions the core raises. The first six are the server's own
      exception classes; the rest name the library errors it lets escape. */
  datatype Error =
    | InvalidAllocationPool
    | OutOfBoundsAllocationPool
    | OverlappingAllocationPools
    | GatewayConflictWithAllocationPools
    | AddressCalculationFailure
    | InvalidAddressType
      // an address, MAC or prefix that netaddr cannot parse or represent
    | AddressFormatError
      // random.randint over an empty selection window (nothing is free)
    | AllocationExhausted
      // the subnet registry has no entry for the subnet id (KeyError)
    | UnknownSubnet
      // list.remove of an allocation record that is not there (ValueError)
    | AllocationNotFound

  datatype Option<+T> = None | Some(value: T)

  datatype Result<+T> = Ok(value: T) | Err(error: Error)

  /** The outcome of a check that returns nothing on success. */
  datatype Check = Pass | Fail(error: Error)

  /** A text field of an incoming request: empty or missing (false in a
      boolean test), present but not parsable, or parsed to a value. */
  datatype Field<+T> = Absent | Malformed | Given(value: T)
}
