/** Handlers work on copies fetched earlier, before any number of other requests. */
module StaleCopies {
  /** How long a prefix of a run of length `n` is reflected by a copy that claims `seen` events. */
  function Cut(seen: nat, n: nat): (k: nat)
    ensures k <= n && k <= seen && (k == n || k == seen)
  {
    if seen < n then seen else n
  }
}
