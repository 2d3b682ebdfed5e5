/** use-sync.ts: the sync status reducer, the guards that accept a server answer, the
    exponential backoff and the retry rule, and how `save` and `getStatus` feed their
    own failures back into the retry. Requests, timers and clocks are replaced by a
    script: the answers the server gives, in order. */
module Sync {
  import opened Wrappers

  // ---------------- the status reducer ----------------

  datatype Status = Done | InProgress

  /** `IState`; an optional member is `None` when it is absent. */
  datatype SyncState = SyncState(isSyncing: bool, id: Option<string>, status: Option<Status>, doneAt: Option<string>)

  /** `INITIAL_STATE`: not syncing, nothing known. */
  function InitialState(): (s: SyncState)
    ensures !s.isSyncing && s.id.None? && s.status.None? && s.doneAt.None?
    ensures Consistent(s)
  {
    SyncState(false, None, None, None)
  }

  /** `TAction`, and any other action object, which the reducer's default branch takes.
      A `sync_result` action carries whatever the answer spread into it. */
  datatype SyncAction =
    | StartSync
    | SyncResult(status: Status, id: Option<string>, doneAt: Option<string>)
    | Unrecognised

  /** `reducer`. */
  function Reduce(state: SyncState, action: SyncAction): (r: SyncState)
    ensures r.isSyncing <==> action.StartSync? || (action.Unrecognised? && state.isSyncing)
    ensures action.SyncResult? ==> r.status == Some(action.status)
    ensures action.SyncResult? && action.status == Done ==> r.id.None? && r.doneAt.None?
    ensures action.StartSync? ==> r.id.None? && r.status.None? && r.doneAt.None?
    ensures action.Unrecognised? ==> r == state
  {
    match action
    case StartSync => InitialState().(isSyncing := true)
    case SyncResult(status, id, doneAt) =>
      if status == InProgress then state.(isSyncing := false, id := id, status := Some(status), doneAt := doneAt)
      else InitialState().(status := Some(status))
    case Unrecognised => state
  }

  /** Starting a sync marks it running and forgets every earlier result. */
  lemma StartClears(state: SyncState)
    ensures Reduce(state, StartSync).isSyncing
    ensures Reduce(state, StartSync).id.None? && Reduce(state, StartSync).status.None?
    ensures Reduce(state, StartSync).doneAt.None?
  {
  }

  /** An IN_PROGRESS result stops the running flag and records the job the answer names. */
  lemma InProgressRecords(state: SyncState, id: Option<string>, doneAt: Option<string>)
    ensures var s := Reduce(state, SyncResult(InProgress, id, doneAt));
            !s.isSyncing && s.id == id && s.status == Some(InProgress) && s.doneAt == doneAt
  {
  }

  /** A DONE result resets to the initial state except for the status, dropping the job. */
  lemma DoneResets(state: SyncState, id: Option<string>, doneAt: Option<string>)
    ensures Reduce(state, SyncResult(Done, id, doneAt)) == SyncState(false, None, Some(Done), None)
  {
  }

  /** After any result the sync is no longer running. */
  lemma ResultStopsSync(state: SyncState, action: SyncAction)
    requires action.SyncResult?
    ensures !Reduce(state, action).isSyncing
    ensures Reduce(state, action).status == Some(action.status)
  {
  }

  /** An action the reducer does not know leaves the state as it was. */
  lemma UnrecognisedKeeps(state: SyncState)
    ensures Reduce(state, Unrecognised) == state
  {
  }

  /** Dispatching the same action twice has the effect of dispatching it once. */
  lemma ReduceIdempotent(state: SyncState, action: SyncAction)
    ensures Reduce(Reduce(state, action), action) == Reduce(state, action)
  {
  }

  /** The state after dispatching `actions` in order. */
  function Run(state: SyncState, actions: seq<SyncAction>): SyncState
    decreases |actions|
  {
    if |actions| == 0 then state else Run(Reduce(state, actions[0]), actions[1..])
  }

  /** What a state can say at all: nothing is known while a sync runs, and a job id
      and finish time are known exactly when the last result was IN_PROGRESS. */
  predicate Consistent(s: SyncState) {
    && (s.isSyncing ==> s.status.None?)
    && (s.status == Some(InProgress) <==> s.id.Some?)
    && (s.status == Some(InProgress) <==> s.doneAt.Some?)
  }

  /** An action the hook can dispatch: an IN_PROGRESS result names its job. */
  predicate Dispatchable(a: SyncAction) {
    a.SyncResult? && a.status == InProgress ==> a.id.Some? && a.doneAt.Some?
  }

  lemma ReduceConsistent(s: SyncState, a: SyncAction)
    requires Consistent(s) && Dispatchable(a)
    ensures Consistent(Reduce(s, a))
  {
  }

  /** Every run of dispatchable actions from the initial state ends in a consistent state. */
  lemma {:induction false} RunConsistent(s: SyncState, actions: seq<SyncAction>)
    requires Consistent(s)
    requires forall k :: 0 <= k < |actions| ==> Dispatchable(actions[k])
    ensures Consistent(Run(s, actions))
    decreases |actions|
  {
    if |actions| > 0 {
      ReduceConsistent(s, actions[0]);
      RunConsistent(Reduce(s, actions[0]), actions[1..]);
    }
  }

  /** Only the last result counts: after a result, earlier actions are forgotten up to
      what an IN_PROGRESS result keeps, which it overwrites. */
  lemma {:induction false} RunEndsWithResult(s: SyncState, actions: seq<SyncAction>, last: SyncAction)
    requires last.SyncResult?
    ensures var t := Run(s, actions + [last]);
            !t.isSyncing && t.status == Some(last.status)
            && (last.status == InProgress ==> t.id == last.id && t.doneAt == last.doneAt)
            && (last.status == Done ==> t == SyncState(false, None, Some(Done), None))
    decreases |actions|
  {
    if |actions| == 0 {
      assert actions + [last] == [last];
      assert [last][1..] == [];
    } else {
      assert (actions + [last])[1..] == actions[1..] + [last];
      RunEndsWithResult(Reduce(s, actions[0]), actions[1..], last);
    }
  }

  // ---------------- the answers the server gives ----------------

  /** A member of a parsed JSON body: absent, a string, or a value of another type. */
  datatype Member = Absent | Text(text: string) | NonString

  /** A parsed JSON body: an object, with the members the guards read, or not an object. */
  datatype Body = Object(status: Member, id: Member, doneAt: Member) | NonObject

  /** `TResult`. */
  datatype Answer = DoneAnswer | InProgressAnswer(id: string, doneAt: string)

  /** `isIDoneResult`. */
  predicate IsDoneResult(b: Body)
    ensures IsDoneResult(b) ==> b.Object? && b.status.Text? && b.status != Text("IN_PROGRESS")
  {
    b.Object? && b.status == Text("DONE")
  }

  /** `isIInProgressResult`. */
  predicate IsInProgressResult(b: Body)
    ensures IsInProgressResult(b) ==> b.Object? && b.id.Text? && b.doneAt.Text? && b.status != Text("DONE")
  {
    b.Object? && b.status == Text("IN_PROGRESS") && b.id.Text? && b.doneAt.Text?
  }

  /** `isTResult`. */
  predicate IsResult(b: Body)
    ensures IsResult(b) ==> b.Object? && (b.status == Text("DONE") || b.status == Text("IN_PROGRESS"))
  {
    IsDoneResult(b) || IsInProgressResult(b)
  }

  /** The answer a body that passes `isTResult` stands for. */
  function AnswerOf(b: Body): (r: Option<Answer>)
    ensures r.Some? <==> IsResult(b)
    ensures r == Some(DoneAnswer) <==> IsDoneResult(b)
    ensures r.Some? && r.value.InProgressAnswer? ==> b.id == Text(r.value.id) && b.doneAt == Text(r.value.doneAt)
  {
    if IsDoneResult(b) then Some(DoneAnswer)
    else if IsInProgressResult(b) then Some(InProgressAnswer(b.id.text, b.doneAt.text))
    else None
  }

  /** The body a server sends for an answer, with no other members. */
  function BodyOf(a: Answer): Body {
    match a
    case DoneAnswer => Object(Text("DONE"), Absent, Absent)
    case InProgressAnswer(id, doneAt) => Object(Text("IN_PROGRESS"), Text(id), Text(doneAt))
  }

  /** The guards accept every well-formed answer and read it back. */
  lemma AnswerRoundTrip(a: Answer)
    ensures IsResult(BodyOf(a)) && AnswerOf(BodyOf(a)) == Some(a)
  {
  }

  /** No body passes both guards. */
  lemma GuardsExclusive(b: Body)
    ensures !(IsDoneResult(b) && IsInProgressResult(b))
  {
    assert "DONE" != "IN_PROGRESS" by { assert "DONE"[0] != "IN_PROGRESS"[0]; }
  }

  /** An IN_PROGRESS body without a string id or finish time is rejected. */
  lemma InProgressNeedsStrings(b: Body)
    requires b.Object? && b.status == Text("IN_PROGRESS") && !(b.id.Text? && b.doneAt.Text?)
    ensures !IsResult(b)
  {
    assert "DONE" != "IN_PROGRESS" by { assert "DONE"[0] != "IN_PROGRESS"[0]; }
  }

  function MemberText(m: Member): Option<string> {
    if m.Text? then Some(m.text) else None
  }

  /** `{ type: "sync_result", ...result }` for a body the guards accepted. */
  function ResultAction(b: Body): (a: SyncAction)
    requires IsResult(b)
    ensures a.SyncResult?
    ensures a.status == InProgress <==> IsInProgressResult(b)
  {
    GuardsExclusive(b);
    SyncResult(if IsDoneResult(b) then Done else InProgress, MemberText(b.id), MemberText(b.doneAt))
  }

  /** The actions built from accepted answers are dispatchable, so the hook's state stays
      consistent. */
  lemma ResultActionDispatchable(b: Body)
    requires IsResult(b)
    ensures Dispatchable(ResultAction(b))
  {
  }

  // ---------------- backoff and retry ----------------

  function Pow2(n: nat): (p: nat)
    ensures p >= 1
  {
    if n == 0 then 1 else 2 * Pow2(n - 1)
  }

  /** `getBackoffTime`: milliseconds to wait before retry `retryCount + 1`. */
  function BackoffTime(retryCount: nat): (t: nat)
    ensures t >= 1000 && t % 1000 == 0
    ensures retryCount >= 1 ==> t >= 2000
  {
    Pow2(retryCount) * 1000
  }

  /** Each wait is twice the one before. */
  lemma BackoffDoubles(retryCount: nat)
    ensures BackoffTime(retryCount + 1) == 2 * BackoffTime(retryCount)
  {
  }

  const MaxRetry: nat := 5

  /** What one call of `fn` does: resolve with a value or reject. */
  datatype Attempt<T> = Succeeded(value: T) | Failed

  /** How a retried call ends: with a value, with "Max retries reached", or with the script
      of answers used up before either. */
  datatype Outcome<T> = Returned(value: T) | GaveUp | ScriptEnded

  /** An outcome, how many calls of `fn` it took, and the waits between them in order. */
  datatype Trace<T> = Trace(outcome: Outcome<T>, calls: nat, waits: seq<nat>)

  /** How many calls `retryCall` still makes when entered with `retryCount`. */
  function Budget(retryCount: nat): nat {
    if retryCount <= MaxRetry then MaxRetry - retryCount + 1 else 1
  }

  /** `retryCall(fn, retryCount)`, where the k-th call of `fn` from here on does what
      `attempts[k]` says: the first success is returned; a failure is followed by a wait
      of `getBackoffTime(retryCount)` and a retry while `retryCount < MAX_RETRY`, and by
      "Max retries reached" after that. */
  function RetryCall<T>(attempts: seq<Attempt<T>>, retryCount: nat): (t: Trace<T>)
    requires retryCount >= 1
    ensures t.calls <= Budget(retryCount) && t.calls <= |attempts|
    ensures forall k :: 0 <= k < t.calls && (k < t.calls - 1 || !t.outcome.Returned?) ==> attempts[k].Failed?
    ensures t.outcome.Returned? ==> t.calls >= 1 && attempts[t.calls - 1] == Succeeded(t.outcome.value)
    ensures t.outcome.GaveUp? ==> t.calls == Budget(retryCount)
    ensures t.outcome.ScriptEnded? ==> t.calls == |attempts| < Budget(retryCount)
    ensures |t.waits| == if t.outcome.ScriptEnded? then t.calls else t.calls - 1
    ensures forall k :: 0 <= k < |t.waits| ==> t.waits[k] == BackoffTime(retryCount + k)
    decreases MaxRetry - retryCount
  {
    if |attempts| == 0 then Trace(ScriptEnded, 0, [])
    else match attempts[0]
      case Succeeded(v) => Trace(Returned(v), 1, [])
      case Failed =>
        if retryCount < MaxRetry then
          var rest := RetryCall(attempts[1..], retryCount + 1);
          Trace(rest.outcome, rest.calls + 1, [BackoffTime(retryCount)] + rest.waits)
        else Trace(GaveUp, 1, [])
  }

  /** The four waits a call from `retryCount = 1` can make, in milliseconds. */
  lemma FirstBackoffs()
    ensures BackoffTime(1) == 2000 && BackoffTime(2) == 4000
    ensures BackoffTime(3) == 8000 && BackoffTime(4) == 16000
  {
    assert Pow2(1) == 2;
    assert Pow2(2) == 4;
  }

  lemma BackoffPrefix(waits: seq<nat>)
    requires |waits| <= 4
    requires forall k :: 0 <= k < |waits| ==> waits[k] == BackoffTime(1 + k)
    ensures waits <= [2000, 4000, 8000, 16000]
  {
    FirstBackoffs();
  }

  /** From the first call: at most `MAX_RETRY` calls, waits of 2, 4, 8 and 16 seconds at
      most, and with five answers in the script the retry settles. */
  lemma RetryFromStart<T>(attempts: seq<Attempt<T>>)
    ensures RetryCall(attempts, 1).calls <= MaxRetry
    ensures RetryCall(attempts, 1).waits <= [2000, 4000, 8000, 16000]
    ensures |attempts| >= MaxRetry ==> !RetryCall(attempts, 1).outcome.ScriptEnded?
  {
    var t := RetryCall(attempts, 1);
    BackoffPrefix(t.waits);
  }

  // ---------------- save and getStatus ----------------

  /** What one `fetch` gives: an answer with an ok status and its parsed body, an answer
      whose status is not ok, or a rejection (no answer, or a body that is not JSON). */
  datatype Fetch = OkAnswer(body: Body) | NotOk | Rejected

  /** How a call of `save` (or `getStatus`) ends: resolved with an answer or rejected, and
      the index of the first fetch it did not use; or out of script. */
  datatype Settled = Resolved(answer: Answer) | Threw | OutOfScript

  datatype SaveRun = SaveRun(settled: Settled, next: nat, waits: seq<nat>)

  /** `save(data)` as written, fetching `script[i]`, `script[i + 1]`, …: an accepted answer
      is returned, a rejection propagates, and every other answer starts
      `retryCall(() => save(data))` afresh, whose first call of `save` happens at once. */
  function SaveAsWritten(script: seq<Fetch>, i: nat): (r: SaveRun)
    requires i <= |script|
    ensures i <= r.next <= |script|
    ensures r.settled.Threw? ==> r.next > i
    ensures r.settled.Resolved? ==>
      i < r.next && script[r.next - 1].OkAnswer? && AnswerOf(script[r.next - 1].body) == Some(r.settled.answer)
    decreases |script| - i, 0
  {
    if i == |script| then SaveRun(OutOfScript, i, [])
    else match script[i]
      case Rejected => SaveRun(Threw, i + 1, [])
      case OkAnswer(b) =>
        if IsResult(b) then SaveRun(Resolved(AnswerOf(b).value), i + 1, [])
        else RetrySave(script, i + 1, 1)
      case NotOk => RetrySave(script, i + 1, 1)
  }

  /** `retryCall(() => save(data), retryCount)` over the same script. */
  function RetrySave(script: seq<Fetch>, i: nat, retryCount: nat): (r: SaveRun)
    requires i <= |script|
    ensures i <= r.next <= |script|
    ensures r.settled.Threw? ==> r.next > i
    ensures r.settled.Resolved? ==>
      i < r.next && script[r.next - 1].OkAnswer? && AnswerOf(script[r.next - 1].body) == Some(r.settled.answer)
    decreases |script| - i, 1
  {
    var first := SaveAsWritten(script, i);
    if first.settled.Threw? then
      if retryCount < MaxRetry then
        var rest := RetrySave(script, first.next, retryCount + 1);
        SaveRun(rest.settled, rest.next, first.waits + [BackoffTime(retryCount)] + rest.waits)
      else SaveRun(Threw, first.next, first.waits)
    else first
  }

  /** A server answering every request with an error status is asked again at once,
      without end: whatever number of such answers the script holds, `save` uses them
      all, never settles and never waits. */
  lemma {:induction false} ErrorsRetriedForever(script: seq<Fetch>, i: nat)
    requires i <= |script|
    requires forall k :: i <= k < |script| ==> script[k] == NotOk
    ensures SaveAsWritten(script, i) == SaveRun(OutOfScript, |script|, [])
    decreases |script| - i
  {
    if i < |script| {
      ErrorsRetriedForever(script, i + 1);
    }
  }

  /** The same for any count of error answers, from the first request. */
  lemma ErrorServerNeverSettles(n: nat)
    ensures SaveAsWritten(seq(n, _ => NotOk), 0).settled == OutOfScript
    ensures SaveAsWritten(seq(n, _ => NotOk), 0).waits == []
  {
    ErrorsRetriedForever(seq(n, _ => NotOk), 0);
  }

  /** A first request that rejects is not retried at all: the rejection leaves `save`
      at once, before any `retryCall` is entered. */
  lemma FirstRejectionNotRetried(script: seq<Fetch>)
    requires |script| >= 1 && script[0] == Rejected
    ensures SaveAsWritten(script, 0) == SaveRun(Threw, 1, [])
  {
  }

  /** One request as `retryCall` expects it: an accepted answer succeeds, anything else is a
      failure for the retry to count. */
  function AttemptOf(f: Fetch): (a: Attempt<Answer>)
    ensures a.Succeeded? <==> f.OkAnswer? && IsResult(f.body)
  {
    if f.OkAnswer? && IsResult(f.body) then Succeeded(AnswerOf(f.body).value) else Failed
  }

  /** `save` as intended: a single request per call, retried by one `retryCall` with backoff. */
  function SaveIntended(script: seq<Fetch>): (t: Trace<Answer>)
    ensures t.calls <= MaxRetry && t.calls <= |script|
    ensures t.waits <= [2000, 4000, 8000, 16000]
    ensures |script| >= MaxRetry ==> !t.outcome.ScriptEnded?
    ensures t.outcome.Returned? ==> 1 <= t.calls && script[t.calls - 1].OkAnswer? && AnswerOf(script[t.calls - 1].body) == Some(t.outcome.value)
  {
    var attempts := seq(|script|, k requires 0 <= k < |script| => AttemptOf(script[k]));
    RetryFromStart(attempts);
    RetryCall(attempts, 1)
  }

  /** As intended, a server that only answers with errors is given up on after five
      requests and four waits. */
  lemma IntendedGivesUp(n: nat)
    requires n >= MaxRetry
    ensures SaveIntended(seq(n, _ => NotOk)).outcome == GaveUp
    ensures SaveIntended(seq(n, _ => NotOk)).calls == MaxRetry
    ensures SaveIntended(seq(n, _ => NotOk)).waits == [2000, 4000, 8000, 16000]
  {
    var script := seq(n, _ => NotOk);
    var t := SaveIntended(script);
    var attempts := seq(|script|, k requires 0 <= k < |script| => AttemptOf(script[k]));
    assert RetryCall(attempts, 1) == t;
    assert t.outcome == GaveUp;
    FirstBackoffs();
  }

  /** As intended, a rejected first request is retried after two seconds, and an accepted
      answer then settles the call. */
  lemma IntendedRetriesRejection(a: Answer)
    ensures SaveIntended([Rejected, OkAnswer(BodyOf(a))]) == Trace(Returned(a), 2, [2000])
  {
    var script := [Rejected, OkAnswer(BodyOf(a))];
    var attempts := seq(|script|, k requires 0 <= k < |script| => AttemptOf(script[k]));
    AnswerRoundTrip(a);
    assert attempts == [Failed, Succeeded(a)];
    assert attempts[1..] == [Succeeded(a)];
    FirstBackoffs();
  }
}
