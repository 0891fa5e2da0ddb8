/** The saturation signal of crates/razerd/src/metrics.rs, attempts against transactions, when
    the records come from sessions. */
module Saturation {
  import opened Protocol
  import opened Runs
  import M = Metrics

  /** The count a session leaves behind when it has performed a transaction. */
  ghost predicate FromSession(attempts: nat) {
    exists c: Config, st: State, op: Op :: Transacts(c, op) && attempts == Perform(c, st, op).1.attempts
  }

  ghost predicate FromSessions(calls: seq<M.Call>) {
    forall i :: 0 <= i < |calls| && calls[i].RecordTransaction? ==> FromSession(calls[i].attempts)
  }

  /** Against any devices, the sessions' records keep the ratio between one and five. */
  lemma RatioIsBounded(calls: seq<M.Call>, key: M.Key)
    requires FromSessions(calls)
    ensures var r := M.Replay(calls);
            M.Counter(r.transactions, key) <= M.Counter(r.attempts, key) <= MAX_ATTEMPTS * M.Counter(r.transactions, key)
  {
    hide Perform, Transacts, M.Replay;
    forall i | 0 <= i < |calls| && calls[i].RecordTransaction? ensures 1 <= calls[i].attempts <= MAX_ATTEMPTS {
      var c: Config, st: State, op: Op :| Transacts(c, op) && calls[i].attempts == Perform(c, st, op).1.attempts;
      PerformElapsed(c, st, op);
    }
    M.AttemptsPerTransaction(calls, key);
  }
}
