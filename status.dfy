/** The connection-health badge of a provider (src/App.tsx:319). */
module Status {
  import opened Messages

  /** How bad a level is: success 0, warning 1, danger 2. */
  function Severity(level: Level): nat {
    match level
    case Success => 0
    case Warning => 1
    case Danger => 2
  }

  /**
   * The badge colour for the number of reconnect attempts since the last
   * successful open: healthy with none, degraded after one, unhealthy after
   * two or more. Its severity is the attempt count capped at two.
   */
  function Classify(attempts: nat): (level: Level)
    ensures level == Success <==> attempts == 0
    ensures level == Warning <==> attempts == 1
    ensures level == Danger <==> attempts >= 2
    ensures Severity(level) == if attempts < 2 then attempts else 2
  {
    if attempts == 0 then Success else if attempts == 1 then Warning else Danger
  }

  /** More attempts never make the badge look healthier. */
  lemma ClassifyMonotonic(fewer: nat, more: nat)
    requires fewer <= more
    ensures Severity(Classify(fewer)) <= Severity(Classify(more))
  {
  }
}
