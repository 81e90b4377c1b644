/** The data-cleanup job: `DELETE FROM sessions WHERE created_at < now - 30 days`,
    reporting the deleted row count (0 when the database raises). */
module Cleanup {
  import SessionAuth

  /** `timedelta(days=30)`, in seconds. */
  const RETENTION: int := 30 * SessionAuth.DAY

  /** Where the database call raised, if it did: before the DELETE took effect
      (connect or execute), or at the commit after the row count was read. */
  datatype Fault = NoFault | FailBeforeDelete | FailAtCommit

  /** The rows the DELETE matches: created before the cutoff. Expiry plays no part. */
  function Doomed(sessions: map<string, SessionAuth.Session>, now: int): (d: set<string>)
    ensures d <= sessions.Keys
    ensures forall t :: t in d <==> t in sessions && sessions[t].createdAt < now - RETENTION
  {
    set t | t in sessions && sessions[t].createdAt < now - RETENTION
  }

  /** Scans the table, removing the sessions older than the cutoff and counting them. */
  method Delete(sessions: map<string, SessionAuth.Session>, now: int)
    returns (kept: map<string, SessionAuth.Session>, count: nat)
    ensures kept.Keys == sessions.Keys - Doomed(sessions, now)
    ensures forall t :: t in kept ==> kept[t] == sessions[t]
    ensures count == |Doomed(sessions, now)|
  {
    var cutoff := now - RETENTION;
    kept := sessions;
    count := 0;
    var todo := sessions.Keys;
    ghost var removed: set<string> := {};
    while todo != {}
      invariant todo <= sessions.Keys
      invariant forall k :: k in removed <==> k in sessions && k !in todo && sessions[k].createdAt < cutoff
      invariant kept.Keys == sessions.Keys - removed
      invariant forall k :: k in kept ==> kept[k] == sessions[k]
      invariant count == |removed|
      decreases todo
    {
      var t :| t in todo;
      if sessions[t].createdAt < cutoff {
        kept := kept - {t};
        removed := removed + {t};
        count := count + 1;
      }
      todo := todo - {t};
    }
    assert removed == Doomed(sessions, now);
  }

  /** The job as written: on a fault before the delete nothing changes and 0 is
      reported; on a failed commit the delete is rolled back but the count already
      read from the cursor is reported. */
  method Run(sessions: map<string, SessionAuth.Session>, now: int, fault: Fault)
    returns (after: map<string, SessionAuth.Session>, deleted: nat)
    ensures fault == NoFault ==> after.Keys == sessions.Keys - Doomed(sessions, now)
    ensures fault != NoFault ==> after == sessions
    ensures forall t :: t in after ==> after[t] == sessions[t]
    ensures fault == FailBeforeDelete ==> deleted == 0
    ensures fault != FailBeforeDelete ==> deleted == |Doomed(sessions, now)|
  {
    after := sessions;
    deleted := 0;
    if fault == FailBeforeDelete {
      return;
    }
    var kept, count := Delete(sessions, now);
    deleted := count;
    if fault == NoFault {
      after := kept;
    }
  }

  /** The job reporting only what was committed: the count always equals the
      number of rows that left the table. */
  method RunReportingCommitted(sessions: map<string, SessionAuth.Session>, now: int, fault: Fault)
    returns (after: map<string, SessionAuth.Session>, deleted: nat)
    ensures fault == NoFault ==> after.Keys == sessions.Keys - Doomed(sessions, now)
    ensures fault != NoFault ==> after == sessions
    ensures forall t :: t in after ==> after[t] == sessions[t]
    ensures after.Keys <= sessions.Keys && deleted == |sessions.Keys - after.Keys|
  {
    after := sessions;
    deleted := 0;
    if fault == NoFault {
      var kept, count := Delete(sessions, now);
      assert sessions.Keys - kept.Keys == Doomed(sessions, now);
      after, deleted := kept, count;
    }
    assert sessions.Keys - sessions.Keys == {};
  }

  /** A session is swept exactly when it was created more than 30 days ago, so one
      that expired yesterday but was created this month survives the job. */
  lemma SweepIgnoresExpiry(sessions: map<string, SessionAuth.Session>, now: int, t: string)
    requires t in sessions
    requires sessions[t].expiresAt < now && sessions[t].createdAt >= now - RETENTION
    ensures t !in Doomed(sessions, now)
  {
  }

  /** A single month-old session is the only row the DELETE matches. */
  lemma DoomedSingleton(s: SessionAuth.Session, now: int)
    requires s.createdAt < now - RETENTION
    ensures Doomed(map["t" := s], now) == {"t"}
  {
    var d := Doomed(map["t" := s], now);
    assert "t" in d;
  }

  /** On a failed commit the job as written reports deletions that did not happen:
      with one month-old session in the table it reports 1, and the session is
      still there. */
  method CommitFailureMiscount(s: SessionAuth.Session, now: int)
    returns (after: map<string, SessionAuth.Session>, deleted: nat)
    requires s.createdAt < now - RETENTION
    ensures after == map["t" := s] && "t" in after
    ensures deleted == 1
  {
    DoomedSingleton(s, now);
    after, deleted := Run(map["t" := s], now, FailAtCommit);
  }
}
