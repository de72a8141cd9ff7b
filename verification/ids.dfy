/** Identifiers and time. Every id of the system is an opaque string that the
    services compare by equality; the wall clock is replaced by a natural number
    the caller supplies. */
module Ids {
  type UserId = string
  type GroupId = string
  type MessageId = string
  type SocketId = string

  /** An instant of the abstract clock. */
  type Time = nat
}
