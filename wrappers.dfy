/** Optional values and error-carrying results, standing in for Java's null and exceptions. */
module Wrappers {

  /** A value that may be absent (a nullable reference or an empty Optional). */
  datatype Option<+T> = None | Some(value: T)

  /** The outcome of an operation that returns a value or throws. */
  datatype Result<+T, +E> = Ok(value: T) | Err(error: E)

  /** The outcome of an operation that returns nothing or throws. */
  datatype Outcome<+E> = Pass | Fail(error: E)
}

/** The exceptions the core raises, one constructor per kind. */
module Errors {

  datatype ParkingError =
    | LicensePlateAlreadyRegistered  // plate stored under another vehicle type
    | VehicleAlreadyParked           // the vehicle already has an open ticket
    | NoAvailableSlot                // no compatible slot is free
    | TicketNotFound
    | TicketAlreadyClosed
    | InvalidInterval                // IllegalArgumentException: exit before entry
    | NoPricingStrategy              // IllegalArgumentException: no strategy for the type
    | ResourceNotFound               // missing lot, level or slot
    | SlotOccupied                   // IllegalStateException: an open ticket uses the slot(s)
    | DataIntegrityViolation         // a database constraint rejected the write
}
