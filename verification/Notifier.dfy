/** tokio's `Notify`, used through `notify_waiters`, which stores no permit. */
module Notifier {

  /** One waiter's `Notified` future; `enable` is what arms it. */
  datatype Registration = Unregistered | Armed | Fired

  /** `notify_waiters` wakes whoever is registered, and nobody else. */
  function Notify(r: Registration): Registration {
    if r == Armed then Fired else r
  }
}
