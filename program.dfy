/**
 * The module's entry point `main`: fetch, then process the users only when
 * there is at least one.
 */
module Program {
  import opened Users
  import opened Logging
  import opened UserFetcher
  import opened UserProcessor

  /** Everything one run logs, given the transport's outcome. */
  function RunLog(t: Transport): (log: seq<Entry>)
    ensures |log| == 2 + |FetchResult(t)|
    ensures log[..2] == FetchLog(t)
  {
    var users := FetchResult(t);
    FetchLog(t) + (if |users| > 0 then ProcessLog(users) else [])
  }

  /**
   * A run whose request fails logs the attempt and the error and nothing
   * else: no user is processed.
   */
  lemma RunOnFailure(t: Transport)
    requires t.Rejected?
    ensures RunLog(t) == [Entry(Info, FetchingUsers), Entry(Error, FetchFailed(t.message))]
  {
  }

  /**
   * A run whose request returns an array logs the attempt, the status line,
   * and then one entry per user, in order: entry 2 + i is about user i.
   */
  lemma RunOnSuccess(t: Transport)
    requires t.Resolved? && t.data.UserArray?
    ensures |RunLog(t)| == 2 + |t.data.users|
    ensures RunLog(t)[0] == Entry(Info, FetchingUsers)
    ensures RunLog(t)[1] == Entry(Info, FetchStatus(t.status, |t.data.users|))
    ensures forall i :: 0 <= i < |t.data.users| ==> RunLog(t)[2 + i] == EntryFor(t.data.users[i])
  {
    ProcessLogOnePerUser(t.data.users);
  }

  /** The emptiness guard cannot be observed in the log: processing no users logs nothing. */
  lemma GuardIsUnobservable(t: Transport)
    ensures RunLog(t) == FetchLog(t) + ProcessLog(FetchResult(t))
  {
  }

  /** main: `processed` tells whether processUsers was called. */
  method Run(logger: Logger, t: Transport) returns (processed: bool)
    modifies logger
    ensures processed <==> FetchResult(t) != []
    ensures logger.entries == old(logger.entries) + RunLog(t)
  {
    var users := FetchUsers(logger, t);
    processed := |users| > 0;
    if processed {
      ProcessUsers(logger, users);
    }
  }
}
