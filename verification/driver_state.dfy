/**
  AFSGetDriverStatus: the redirector reports itself ready, not ready (no
  enumerated global root yet) or without service (the request pool to the
  user-mode service is not active). The request itself always succeeds.
*/
module DriverState {
  import opened Types

  datatype DriverStatus = Ready | NotReady | NoService

  /** The inputs the status is read from. */
  datatype DriverFacts = DriverFacts(
    globalRootPresent: bool,      // AFSGlobalRoot != NULL
    globalRootEnumerated: bool,   // AFS_FCB_DIRECTORY_ENUMERATED on the global root
    poolActive: bool)             // IrpPoolControlFlag == POOL_ACTIVE

  /**
    Starts from Ready, lowers it to NotReady when the global root is missing
    or not enumerated, then to NoService when the pool is not active; the
    last assignment wins.
  */
  function GetDriverStatus(facts: DriverFacts): (r: (NtStatus, DriverStatus))
    ensures r.0 == StatusSuccess
    ensures r.1 == NoService <==> !facts.poolActive
    ensures r.1 == NotReady <==>
              facts.poolActive && !(facts.globalRootPresent && facts.globalRootEnumerated)
    ensures r.1 == Ready <==>
              facts.poolActive && facts.globalRootPresent && facts.globalRootEnumerated
  {
    var afterRoot := if !facts.globalRootPresent || !facts.globalRootEnumerated then NotReady else Ready;
    var afterPool := if !facts.poolActive then NoService else afterRoot;
    (StatusSuccess, afterPool)
  }

  /** A missing service hides a missing root: the two problems are never both reported. */
  lemma NoServiceTakesPrecedence(present: bool, enumerated: bool)
    ensures GetDriverStatus(DriverFacts(present, enumerated, false)).1 == NoService
  {
  }
}
