/** The client that tries the server with retries and then the local store. */
module FallbackClient {
  import opened Common
  import opened Retry
  import opened FallbackStore

  /** The operation never returns the error the loop does not build. */
  ghost predicate NeverExhausted<T>(outcome: nat -> Result<T, ClientError>) {
    forall i: nat :: outcome(i).Err? ==> !outcome(i).error.RetryExhausted?
  }

  /** The last call of a run failed to reach the server. */
  predicate Unreachable<T>(ended: Ended<T>) {
    ended.Returned? && ended.result.Err? && IsConnectionError(ended.result.error)
  }

  /** A client call: how the server run ended and how often it was tried, whether the local
      store was used, and the answer. */
  datatype Answer<T> = Answer(server: Ended<T>, calls: nat, usedStore: bool, result: Option<Result<T, ClientError>>)

  /** What every call promises about retries and fallback. The server run ends as the retry
      loop ends; `result` is `None` only when that was in an overflow. */
  ghost predicate FallsBackProperly<T>(a: Answer<T>, c: RetryConfig, checked: bool, hasStore: bool,
                                       outcome: nat -> Result<T, ClientError>) {
    && (exists slept: nat :: EndsAs(c, checked, outcome, a.server, a.calls, slept))
    && (a.usedStore <==> hasStore && Unreachable(a.server))
    && (!a.usedStore ==> a.result == if a.server.Returned? then Some(a.server.result) else None)
    && (a.usedStore ==> a.result.Some?)
    && (a.usedStore && NeverExhausted(outcome) ==> a.calls == c.maxRetries + 1 && AllAgain(outcome, c.maxRetries + 1))
  }

  /** A connection error comes out of the loop only after the last allowed call. */
  lemma UnreachableOnlyAtTheEnd<T>(ended: Ended<T>, calls: nat, c: RetryConfig, outcome: nat -> Result<T, ClientError>)
    requires NeverExhausted(outcome) && Unreachable(ended) && calls >= 1
    requires ended.result == outcome(calls - 1) && AllAgain(outcome, calls - 1)
    requires !Again(outcome(calls - 1)) || calls == c.maxRetries + 1
    ensures calls == c.maxRetries + 1 && AllAgain(outcome, c.maxRetries + 1)
  {
  }

  /** A server that answers every call, with a result or an HTTP response, never sends the
      client to the store. */
  lemma AnsweringServerIsBelieved<T>(a: Answer<T>, c: RetryConfig, checked: bool, hasStore: bool,
                                     outcome: nat -> Result<T, ClientError>)
    requires FallsBackProperly(a, c, checked, hasStore, outcome)
    requires forall i: nat :: outcome(i).Ok? || exists status, body, parsed :: outcome(i) == Err(FromHttp(status, body, parsed))
    ensures !a.usedStore
  {
    if a.server.Returned? && a.server.result.Err? {
      var status, body, parsed :| outcome(a.calls - 1) == Err(FromHttp(status, body, parsed));
      ResponseIsRetriedIff(status, body, parsed);
    }
  }

  /** Call `i` fails in a way that is tried again. */
  ghost predicate TriedAgain<T>(outcome: nat -> Result<T, ClientError>, i: nat) {
    && outcome(i).Err?
    && (NoAnswer(outcome(i).error)
        || (outcome(i).error.HttpError? && (outcome(i).error.status == 429 || 500 <= outcome(i).error.status)))
  }

  /** Which servers send the client to the store: those that fail every allowed call in a way
      that is tried again and do not answer the last one, if the limit is one the loop can
      reach. */
  lemma StoreIsUsedIff<T>(a: Answer<T>, c: RetryConfig, checked: bool, hasStore: bool,
                          outcome: nat -> Result<T, ClientError>)
    requires FallsBackProperly(a, c, checked, hasStore, outcome) && NeverExhausted(outcome)
    ensures a.usedStore
            <==> && hasStore
                 && c.maxRetries < (if checked then 32 else U32_BOUND - 1)
                 && (forall i: nat :: i <= c.maxRetries ==> TriedAgain(outcome, i))
                 && outcome(c.maxRetries).Err? && NoAnswer(outcome(c.maxRetries).error)
  {
    forall i: nat
      ensures Again(outcome(i)) <==> TriedAgain(outcome, i)
      ensures outcome(i).Err? ==> (IsConnectionError(outcome(i).error) <==> NoAnswer(outcome(i).error))
    {
      if outcome(i).Err? {
        ConnectionErrorsAreRetryable(outcome(i).error);
      }
    }
    var slept: nat :| EndsAs(c, checked, outcome, a.server, a.calls, slept);
    assert a.calls - 1 <= c.maxRetries && !TriedAgain(outcome, a.calls - 1) ==> !Again(outcome(a.calls - 1));
  }

  /** A server that refuses every connection, whatever the kind of failure: with the default
      limits the store answers, after four calls. */
  lemma DownServerIsReplaced<T>(a: Answer<T>, checked: bool, outcome: nat -> Result<T, ClientError>)
    requires FallsBackProperly(a, DEFAULT_CONFIG, checked, true, outcome)
    requires forall i: nat :: outcome(i) == Err(RequestError(true, false)) || outcome(i) == Err(RequestError(false, true))
                              || outcome(i) == Err(ConnectionError("refused"))
    ensures a.usedStore && a.calls == 4
  {
    StoreIsUsedIff(a, DEFAULT_CONFIG, checked, true, outcome);
  }

  class FallbackClient<P> {
    const config: RetryConfig
    const checked: bool
    const fallback: LocalFallbackStorage?<P>

    constructor (config: RetryConfig, checked: bool, fallback: LocalFallbackStorage?<P>)
      ensures this.config == config && this.checked == checked && this.fallback == fallback
    {
      this.config, this.checked, this.fallback := config, checked, fallback;
    }

    /** Reads never change the store; once it is used, the answer is the one it gives, be that
        a record or an error. */
    method GetLatestBaseline(project: string, benchmark: string, server: nat -> Result<Record<P>, ClientError>,
                             listing: seq<string>)
      returns (a: Answer<Record<P>>)
      requires RunEnds(config, checked, server)
      requires fallback != null && project in fallback.dirs
               ==> forall name :: name in listing <==> name in fallback.dirs[project]
      ensures FallsBackProperly(a, config, checked, fallback != null, server)
      ensures fallback != null && a.usedStore ==> LatestAnswer(fallback.dirs, project, benchmark, a.result.value)
    {
      var ended, calls, sleeps := ExecuteWithRetry(config, server, checked);
      if ended.Overflowed? {
        return Answer(ended, calls, false, None);
      }
      if ended.result.Err? && IsConnectionError(ended.result.error) && fallback != null {
        var r := fallback.GetLatestBaseline(project, benchmark, listing);
        if NeverExhausted(server) {
          UnreachableOnlyAtTheEnd(ended, calls, config, server);
        }
        return Answer(ended, calls, true, Some(r));
      }
      return Answer(ended, calls, false, Some(ended.result));
    }

    method GetBaselineVersion(project: string, benchmark: string, version: string,
                              server: nat -> Result<Record<P>, ClientError>)
      returns (a: Answer<Record<P>>)
      requires RunEnds(config, checked, server)
      ensures FallsBackProperly(a, config, checked, fallback != null, server)
      ensures fallback != null && a.usedStore
              ==> VersionAnswer(fallback.dirs, project, benchmark, version, a.result.value)
    {
      var ended, calls, sleeps := ExecuteWithRetry(config, server, checked);
      if ended.Overflowed? {
        return Answer(ended, calls, false, None);
      }
      if ended.result.Err? && IsConnectionError(ended.result.error) && fallback != null {
        var r := fallback.GetBaselineVersion(project, benchmark, version);
        if NeverExhausted(server) {
          UnreachableOnlyAtTheEnd(ended, calls, config, server);
        }
        return Answer(ended, calls, true, Some(r));
      }
      return Answer(ended, calls, false, Some(ended.result));
    }

    /** An upload changes the store only when every allowed attempt failed to reach the
        server, and then by exactly one save. `server` answers with the stored version. */
    method UploadBaseline(project: string, request: Request<P>, server: nat -> Result<string, ClientError>,
                          stamp: string, now: nat)
      returns (a: Answer<string>)
      requires RunEnds(config, checked, server)
      modifies if fallback == null then {} else {fallback}
      ensures FallsBackProperly(a, config, checked, fallback != null, server)
      ensures fallback != null && a.usedStore
              ==> fallback.dirs == Saved(old(fallback.dirs), Save(project, request, stamp, now))
      ensures fallback != null && !a.usedStore ==> fallback.dirs == old(fallback.dirs)
      ensures a.usedStore ==> a.result == Some(Ok(NewRecord(project, request, stamp, now).version))
    {
      var ended, calls, sleeps := ExecuteWithRetry(config, server, checked);
      if ended.Overflowed? {
        return Answer(ended, calls, false, None);
      }
      if ended.result.Err? && IsConnectionError(ended.result.error) && fallback != null {
        var version := fallback.SaveBaseline(project, request, stamp, now);
        if NeverExhausted(server) {
          UnreachableOnlyAtTheEnd(ended, calls, config, server);
        }
        return Answer(ended, calls, true, Some(Ok(version)));
      }
      return Answer(ended, calls, false, Some(ended.result));
    }
  }
}
