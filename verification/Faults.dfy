/** How an effect of a program may end. */
module Faulting {

  datatype Effect = Done | Failed | Cut

  /** A command without durable effect: it may fail, and power may be cut. */
  method Command(faults: bool) returns (e: Effect)
    ensures !e.Done? ==> faults
  {
    var fault: bool, cut: bool := *, *;
    e := if faults && fault then (if cut then Cut else Failed) else Done;
  }
}
