/**
 Keeping definitions out of proofs that do not need them.

 A large invariant is stated as a fact about its name; a proof reads the definition only where it says
 `Unsealed(name)`. A quantified fact marked with `Point` is used only at the points a proof names. Both
 predicates always hold, so nothing is assumed.
 */
module Sealing {

  datatype Name =
    CacheValid | ReaderValid | SessionIdle | PagesCollected | PagesLoaded | PrefetchQueue | DemandProgress
    | RoundsLead | SearchGood | RunSoFar | ManagerSound | LogEncoded | FilesBuilt | StateGood | CrashState | LogReplayed
    | TailStops | StoreReady | ChecksumsCollide | StopAllowed | RebuildDue | BucketsHold | OrderFound

  predicate Unsealed(name: Name) {
    true
  }

  predicate Point(i: int) {
    true
  }
}
