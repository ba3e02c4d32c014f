/** The well-known keys of the session wrapper (src/SessionInterface.php). */
module SessionInterface {

  /** Top-level key under which a resuming visitor's namespace key is looked up. */
  const DEFAULT_INDEX: string := "Dashifen\\Session\\Session::index"

  /** Key, inside a handle's slice, whose presence marks the visitor as authenticated. */
  const AUTHENTICATED: string := "Dashifen\\Session\\Session::authentic"

  /** Key, inside a handle's slice, that holds the authenticated username. */
  const USERNAME: string := "Dashifen\\Session\\Session::username"

  /** The three keys are pairwise different, so the identity entries never collide. */
  lemma KeysDistinct()
    ensures DEFAULT_INDEX != AUTHENTICATED
    ensures DEFAULT_INDEX != USERNAME
    ensures AUTHENTICATED != USERNAME
  {
  }
}
