/** scheduleReorgLoop: requests to reset the pool or to promote accounts are merged into background runs, one at a
    time. The loop, the run it has started and the event loop that asks for resets are one state machine; a step is
    one select case, one launch, or the end of a run. */
module ReorgScheduler {
  import opened Transactions

  type Head = nat
  type Channel = nat

  /** A reset from one head to another. `from` and `upto` are their places in the stream of heads. */
  datatype Reset = Reset(oldHead: Head, newHead: Head, from: nat, upto: nat)

  /** How a run ended: the accounts that had queued transactions and those it promoted. */
  datatype Status = Running | Finished(queued: set<Address>, promoted: set<Address>)

  datatype ReorgRun = ReorgRun(done: Channel, reset: Option<Reset>, dirty: Option<set<Address>>, status: Status)

  /** A request and the channel its sender waits on; a reset request is known by its place in the stream of heads. */
  datatype Request =
    | ForReset(place: nat, done: Channel)
    | ForPromotion(accounts: set<Address>, done: Channel)

  datatype State = State(
    heads: seq<Head>,
    curDone: Option<Channel>, nextDone: Channel, launchNextRun: bool,
    reset: Option<Reset>, dirty: Option<set<Address>>,
    requests: seq<Request>, runs: seq<ReorgRun>, closed: set<Channel>, stopped: bool)

  ghost predicate Init(s: State) {
    && |s.heads| == 1 && s.curDone == None && !s.launchNextRun && s.reset == None && s.dirty == None
    && s.requests == [] && s.runs == [] && s.closed == {} && s.nextDone == 0 && !s.stopped
  }

  predicate CanLaunch(s: State) { s.curDone == None && s.launchNextRun && !s.stopped }

  /** The top of the loop: start the next run and make everything ready for the one after. */
  function Launch(s: State): State
    requires CanLaunch(s)
  {
    s.(runs := s.runs + [ReorgRun(s.nextDone, s.reset, s.dirty, Running)],
       curDone := Some(s.nextDone), nextDone := s.nextDone + 1, launchNextRun := false, reset := None, dirty := None)
  }

  /** A head event: the event loop asks for a reset from its previous head. */
  function RequestReset(s: State, head: Head): State
    requires s.heads != []
  {
    var place := |s.heads| - 1;
    var req := Reset(s.heads[place], head, place, place + 1);
    s.(heads := s.heads + [head],
       reset := Some(if s.reset.None? then req else s.reset.value.(newHead := req.newHead, upto := req.upto)),
       launchNextRun := true, requests := s.requests + [ForReset(place, s.nextDone)])
  }

  function RequestPromote(s: State, accounts: set<Address>): State {
    s.(dirty := Some(if s.dirty.None? then accounts else s.dirty.value + accounts),
       launchNextRun := true, requests := s.requests + [ForPromotion(accounts, s.nextDone)])
  }

  /** What runReorg promotes: every queued account on a reset, the dirty ones otherwise. */
  function Promotes(run: ReorgRun, queued: set<Address>): set<Address> {
    if run.reset.Some? then queued else if run.dirty.Some? then run.dirty.value else {}
  }

  function FinishRun(s: State, k: nat, queued: set<Address>): State
    requires k < |s.runs|
  {
    s.(runs := s.runs[k := s.runs[k].(status := Finished(queued, Promotes(s.runs[k], queued)))],
       closed := s.closed + {s.runs[k].done})
  }

  /** Shutdown: wait for the current run, then release whoever waits for the next one. */
  predicate CanStop(s: State) { s.curDone == None || s.curDone.value in s.closed }

  ghost predicate Next(s: State, s': State) {
    || (CanLaunch(s) && s' == Launch(s))
    || (exists k, queued :: 0 <= k < |s.runs| && s.runs[k].status == Running && s' == FinishRun(s, k, queued))
    || (!CanLaunch(s) && !s.stopped && Select(s, s'))
  }

  ghost predicate Select(s: State, s': State) {
    || (s.heads != [] && exists head :: s' == RequestReset(s, head))
    || (exists accounts :: s' == RequestPromote(s, accounts))
    || (s.curDone.Some? && s.curDone.value in s.closed && s' == s.(curDone := None))
    || (CanStop(s) && s' == s.(closed := s.closed + {s.nextDone}, stopped := true))
  }

  // ----- what every step keeps -----

  ghost predicate ResetFits(heads: seq<Head>, r: Reset) {
    r.from < r.upto < |heads| && r.oldHead == heads[r.from] && r.newHead == heads[r.upto]
  }

  /** Where the resets handed to the first k runs end. */
  ghost function ReachedBy(runs: seq<ReorgRun>, k: nat): nat
    requires k <= |runs|
  {
    if k == 0 then 0
    else if runs[k - 1].reset.Some? then runs[k - 1].reset.value.upto
    else ReachedBy(runs, k - 1)
  }

  /** The heads of run k continue where the runs before it ended. */
  ghost predicate Linked(s: State, k: nat)
    requires k < |s.runs|
  {
    s.runs[k].reset.Some? ==>
      ResetFits(s.heads, s.runs[k].reset.value) && s.runs[k].reset.value.from == ReachedBy(s.runs, k)
  }

  /** Everything requested so far is in a run or waits for the next one. */
  ghost predicate Waiting(s: State) {
    && (s.reset.Some? ==> ResetFits(s.heads, s.reset.value) && s.reset.value.from == ReachedBy(s.runs, |s.runs|)
                          && s.reset.value.upto == |s.heads| - 1)
    && (s.reset.None? ==> ReachedBy(s.runs, |s.runs|) == |s.heads| - 1)
    && (s.launchNextRun <==> s.reset.Some? || s.dirty.Some?)
  }

  ghost predicate Covers(reset: Option<Reset>, dirty: Option<set<Address>>, req: Request) {
    match req
    case ForReset(place, _) => reset.Some? && reset.value.from <= place < reset.value.upto
    case ForPromotion(accounts, _) => dirty.Some? && accounts <= dirty.value
  }

  /** The channel handed out with a request belongs to a run that covers it, or to the next run. */
  ghost predicate Promised(s: State, req: Request) {
    if req.done < |s.runs| then Covers(s.runs[req.done].reset, s.runs[req.done].dirty, req)
    else req.done == s.nextDone && Covers(s.reset, s.dirty, req)
  }

  ghost predicate RunsFit(s: State) {
    forall k :: 0 <= k < |s.runs| ==>
      && s.runs[k].done == k && (s.runs[k].status == Running <==> k !in s.closed) && Linked(s, k)
      && (s.runs[k].status.Finished? ==> s.runs[k].status.promoted == Promotes(s.runs[k], s.runs[k].status.queued))
  }

  /** At most the last run is still going, and only while curDone is set. */
  ghost predicate OneAtATime(s: State) {
    && (forall k :: 0 <= k < |s.runs| && s.runs[k].status == Running ==> s.curDone == Some(k))
    && (s.curDone.Some? ==> |s.runs| > 0 && s.curDone.value == |s.runs| - 1)
  }

  ghost predicate Inv(s: State) {
    && |s.heads| > 0 && s.nextDone == |s.runs| && RunsFit(s) && OneAtATime(s) && Waiting(s)
    && (forall i :: 0 <= i < |s.requests| ==> Promised(s, s.requests[i]))
    && (forall c :: c in s.closed ==> c < |s.runs| || (s.stopped && c == s.nextDone))
  }

  lemma InitInv(s: State)
    requires Init(s)
    ensures Inv(s)
  {
  }

  lemma {:induction false} ReachedPrefix(a: seq<ReorgRun>, b: seq<ReorgRun>, k: nat)
    requires k <= |a| && k <= |b| && forall i :: 0 <= i < k ==> a[i].reset == b[i].reset
    ensures ReachedBy(a, k) == ReachedBy(b, k)
  {
    if k > 0 && a[k - 1].reset.None? { ReachedPrefix(a, b, k - 1); }
  }

  /** A launched run takes the waiting reset, so the runs reach the latest head. */
  lemma LaunchReaches(s: State)
    requires Inv(s) && CanLaunch(s)
    ensures var runs := Launch(s).runs;
            && ReachedBy(runs, |runs|) == |s.heads| - 1
            && forall k :: 0 <= k <= |s.runs| ==> ReachedBy(runs, k) == ReachedBy(s.runs, k)
  {
    forall k | 0 <= k <= |s.runs|
      ensures ReachedBy(Launch(s).runs, k) == ReachedBy(s.runs, k)
    {
      ReachedPrefix(s.runs, Launch(s).runs, k);
    }
  }

  lemma LaunchKeeps(s: State)
    requires Inv(s) && CanLaunch(s)
    ensures Inv(Launch(s))
  {
    hide ResetFits, Covers, ReachedBy;
    LaunchReaches(s);
    var s' := Launch(s);
    forall k | 0 <= k < |s'.runs|
      ensures Linked(s', k)
    {
      if k < |s.runs| { assert Linked(s, k); }
    }
    forall i | 0 <= i < |s'.requests|
      ensures Promised(s', s'.requests[i])
    {
      assert Promised(s, s.requests[i]);
    }
  }

  lemma ResetKeeps(s: State, head: Head)
    requires Inv(s) && !s.stopped
    ensures Inv(RequestReset(s, head))
  {
    var s' := RequestReset(s, head);
    forall k | 0 <= k < |s'.runs|
      ensures Linked(s', k)
    {
      assert Linked(s, k);
    }
    forall i | 0 <= i < |s'.requests|
      ensures Promised(s', s'.requests[i])
    {
      if i < |s.requests| { assert Promised(s, s.requests[i]); }
    }
  }

  lemma PromoteKeeps(s: State, accounts: set<Address>)
    requires Inv(s) && !s.stopped
    ensures Inv(RequestPromote(s, accounts))
  {
    var s' := RequestPromote(s, accounts);
    forall k | 0 <= k < |s'.runs|
      ensures Linked(s', k)
    {
      assert Linked(s, k);
    }
    forall i | 0 <= i < |s'.requests|
      ensures Promised(s', s'.requests[i])
    {
      if i < |s.requests| { assert Promised(s, s.requests[i]); }
    }
  }

  lemma FinishKeeps(s: State, k: nat, queued: set<Address>)
    requires Inv(s) && k < |s.runs| && s.runs[k].status == Running
    ensures Inv(FinishRun(s, k, queued))
  {
    var s' := FinishRun(s, k, queued);
    forall i | 0 <= i < |s'.runs|
      ensures Linked(s', i)
    {
      ReachedPrefix(s.runs, s'.runs, i);
      assert Linked(s, i);
    }
    ReachedPrefix(s.runs, s'.runs, |s.runs|);
    forall i | 0 <= i < |s'.requests|
      ensures Promised(s', s'.requests[i])
    {
      assert Promised(s, s.requests[i]);
    }
  }

  lemma StopKeeps(s: State, s': State)
    requires Inv(s) && !s.stopped
    requires (s' == s.(curDone := None) && s.curDone.Some? && s.curDone.value in s.closed)
             || (CanStop(s) && s' == s.(closed := s.closed + {s.nextDone}, stopped := true))
    ensures Inv(s')
  {
    forall k | 0 <= k < |s'.runs|
      ensures Linked(s', k)
    {
      assert Linked(s, k);
    }
    forall i | 0 <= i < |s'.requests|
      ensures Promised(s', s'.requests[i])
    {
      assert Promised(s, s.requests[i]);
    }
  }

  lemma StepKeeps(s: State, s': State)
    requires Inv(s) && Next(s, s')
    ensures Inv(s')
  {
    if CanLaunch(s) && s' == Launch(s) {
      LaunchKeeps(s);
    } else if k, queued :| 0 <= k < |s.runs| && s.runs[k].status == Running && s' == FinishRun(s, k, queued) {
      FinishKeeps(s, k, queued);
    } else if head :| s' == RequestReset(s, head) {
      ResetKeeps(s, head);
    } else if accounts :| s' == RequestPromote(s, accounts) {
      PromoteKeeps(s, accounts);
    } else {
      StopKeeps(s, s');
    }
  }

  // ----- runs of the scheduler -----

  /** A behaviour: any interleaving of steps from a start. */
  ghost predicate Behaviour(trace: seq<State>) {
    && trace != [] && Init(trace[0])
    && (forall i :: 0 <= i < |trace| - 1 ==> Next(trace[i], trace[i + 1]))
  }

  lemma {:induction false} AlwaysInv(trace: seq<State>, i: nat)
    requires Behaviour(trace) && i < |trace|
    ensures Inv(trace[i])
  {
    hide Inv, Next, Init;
    if i == 0 {
      InitInv(trace[0]);
    } else {
      AlwaysInv(trace, i - 1);
      assert Next(trace[i - 1], trace[i - 1 + 1]);
      StepKeeps(trace[i - 1], trace[i]);
    }
  }

  /** At any moment at most one run is active. */
  lemma AtMostOneActive(trace: seq<State>, i: nat, j: nat, k: nat)
    requires Behaviour(trace) && i < |trace| && j < |trace[i].runs| && k < |trace[i].runs|
    requires trace[i].runs[j].status == Running && trace[i].runs[k].status == Running
    ensures j == k == |trace[i].runs| - 1
  {
    AlwaysInv(trace, i);
  }

  /** When the channel of a request is closed, a finished run has covered the request (a reset run by its heads, a
      promotion by having promoted every account that had something queued), unless the scheduler was shut down
      before such a run began. */
  lemma DoneMeansCovered(trace: seq<State>, i: nat, req: Request)
    requires Behaviour(trace) && i < |trace| && req in trace[i].requests && req.done in trace[i].closed
    ensures var s := trace[i];
            if req.done < |s.runs| then
              && s.runs[req.done].status.Finished?
              && Covers(s.runs[req.done].reset, s.runs[req.done].dirty, req)
              && (req.ForPromotion? ==>
                    req.accounts * s.runs[req.done].status.queued <= s.runs[req.done].status.promoted)
            else s.stopped && req.done == s.nextDone
  {
    AlwaysInv(trace, i);
    var s := trace[i];
    var n :| 0 <= n < |s.requests| && s.requests[n] == req;
    assert Promised(s, s.requests[n]);
  }

  /** A finished reset run has promoted every account with something queued, whatever was dirty, and any other run
      exactly the accounts it was asked for. */
  lemma FinishedPromotes(trace: seq<State>, i: nat, k: nat)
    requires Behaviour(trace) && i < |trace| && k < |trace[i].runs| && trace[i].runs[k].status.Finished?
    ensures var run := trace[i].runs[k];
            && (run.reset.Some? ==> run.status.promoted == run.status.queued)
            && (run.reset.None? && run.dirty.Some? ==> run.status.promoted == run.dirty.value)
            && (run.reset.None? && run.dirty.None? ==> run.status.promoted == {})
  {
    AlwaysInv(trace, i);
  }

  /** The resets of successive runs form one unbroken path through the stream of heads: each starts at the head where
      the last one before it ended, and together with the waiting one they reach the latest head. */
  lemma ResetsTelescope(trace: seq<State>, i: nat)
    requires Behaviour(trace) && i < |trace|
    ensures var s := trace[i];
            && (forall k :: 0 <= k < |s.runs| && s.runs[k].reset.Some? ==>
                  ResetFits(s.heads, s.runs[k].reset.value) && s.runs[k].reset.value.from == ReachedBy(s.runs, k))
            && (if s.reset.Some? then s.reset.value.from else |s.heads| - 1) == ReachedBy(s.runs, |s.runs|)
            && (s.reset.Some? ==> ResetFits(s.heads, s.reset.value) && s.reset.value.upto == |s.heads| - 1)
  {
    AlwaysInv(trace, i);
    var s := trace[i];
    forall k | 0 <= k < |s.runs|
      ensures Linked(s, k)
    {
    }
  }
}
