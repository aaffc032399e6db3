/** The API client's response interceptor: one shared token refresh for all requests that meet a 401. */
module TokenRefresh {
  import opened Outcomes
  import opened Strings

  datatype Phase = Idle | InFlight | Waiting(refresh: nat) | Succeeded | Failed

  datatype Request = Request(isAuthEndpoint: bool, retried: bool, sends: nat, authorization: Option<string>,
                             phase: Phase)

  datatype RefreshResult = NewToken(token: string) | RefreshFailed

  /** A refresh promise: posted, then its then/catch handler has run, then its finally handler too. */
  datatype Refresh = Posted | Handled(result: RefreshResult) | Finished(result: RefreshResult)

  datatype Client = Client(
    requests: seq<Request>,
    refreshes: seq<Refresh>,
    refreshPromise: Option<nat>,
    accessToken: Option<string>,
    sessionExpiredEvents: nat)

  datatype Response = Success | Failure(status: Option<int>, code: Option<string>)

  /** What can happen next: each event is one uninterrupted piece of the client's code. */
  datatype Event =
    | Send(r: nat)
    | Receive(r: nat, response: Response)
    | RefreshAnswer(k: nat, answer: Option<string>)
    | RefreshFinally(k: nat)
    | Resume(r: nat)

  predicate IsEnabled(c: Client, e: Event) {
    match e
    case Send(r) => r < |c.requests| && c.requests[r].phase == Idle
    case Receive(r, _) => r < |c.requests| && c.requests[r].phase == InFlight
    case RefreshAnswer(k, _) => k < |c.refreshes| && c.refreshes[k].Posted?
    case RefreshFinally(k) => k < |c.refreshes| && c.refreshes[k].Handled?
    case Resume(r) =>
      && r < |c.requests| && c.requests[r].phase.Waiting?
      && c.requests[r].phase.refresh < |c.refreshes| && c.refreshes[c.requests[r].phase.refresh].Finished?
  }

  predicate CallsForRefresh(request: Request, response: Response) {
    response.Failure? && response.status == Some(401) && response.code == Some("UNAUTHENTICATED")
    && !request.isAuthEndpoint && !request.retried
  }

  /** The request interceptor: the stored token, when there is one, replaces the header. */
  function Dispatch(request: Request, accessToken: Option<string>): Request {
    request.(phase := InFlight, sends := request.sends + 1,
             authorization := if accessToken.Some? then accessToken else request.authorization)
  }

  /** `refreshAccessToken()`: join the refresh in flight, or post one. */
  function JoinRefresh(c: Client): (Client, nat) {
    if c.refreshPromise.Some? then (c, c.refreshPromise.value)
    else (c.(refreshes := c.refreshes + [Posted], refreshPromise := Some(|c.refreshes|)), |c.refreshes|)
  }

  function Apply(c: Client, e: Event): Client
    requires IsEnabled(c, e)
  {
    match e
    case Send(r) => c.(requests := c.requests[r := Dispatch(c.requests[r], c.accessToken)])
    case Receive(r, response) =>
      var request := c.requests[r];
      if response.Success? then c.(requests := c.requests[r := request.(phase := Succeeded)])
      else if !CallsForRefresh(request, response) then c.(requests := c.requests[r := request.(phase := Failed)])
      else
        var (joined, k) := JoinRefresh(c);
        joined.(requests := c.requests[r := request.(retried := true, phase := Waiting(k))])
    case RefreshAnswer(k, answer) =>
      if answer.Some?
      then c.(refreshes := c.refreshes[k := Handled(NewToken(answer.value))], accessToken := answer)
      else c.(refreshes := c.refreshes[k := Handled(RefreshFailed)], accessToken := None,
              sessionExpiredEvents := c.sessionExpiredEvents + 1)
    case RefreshFinally(k) =>
      c.(refreshes := c.refreshes[k := Finished(c.refreshes[k].result)], refreshPromise := None)
    case Resume(r) =>
      var request := c.requests[r];
      match c.refreshes[request.phase.refresh].result
      case NewToken(token) =>
        c.(requests := c.requests[r := Dispatch(request.(authorization := Some(token)), c.accessToken)])
      case RefreshFailed => c.(requests := c.requests[r := request.(phase := Failed)])
  }

  // ---- What every step keeps ----

  /** At most the newest refresh is unfinished, and the module variable holds it exactly that long. */
  predicate SingleFlight(c: Client) {
    forall k :: 0 <= k < |c.refreshes| ==> (c.refreshPromise == Some(k) <==> !c.refreshes[k].Finished?)
  }

  predicate PromiseIsNewest(c: Client) {
    c.refreshPromise.Some? ==> c.refreshPromise.value + 1 == |c.refreshes|
  }

  predicate RequestIsSound(request: Request, refreshes: nat) {
    && (request.retried ==> !request.isAuthEndpoint)
    && match request.phase
    case Idle => request.sends == 0 && !request.retried
    case InFlight => request.sends == if request.retried then 2 else 1
    case Waiting(k) => request.sends == 1 && request.retried && k < refreshes
    case Succeeded => 1 <= request.sends <= if request.retried then 2 else 1
    case Failed => 1 <= request.sends <= if request.retried then 2 else 1
  }

  function Retried(requests: seq<Request>): nat {
    if requests == [] then 0 else Retried(DropLast(requests)) + if Last(requests).retried then 1 else 0
  }

  predicate HasFailed(refresh: Refresh) {
    !refresh.Posted? && refresh.result == RefreshFailed
  }

  function FailedRefreshes(refreshes: seq<Refresh>): nat {
    if refreshes == [] then 0 else FailedRefreshes(DropLast(refreshes)) + if HasFailed(Last(refreshes)) then 1 else 0
  }

  function TokenOf(result: RefreshResult): Option<string> {
    match result
    case NewToken(token) => Some(token)
    case RefreshFailed => None
  }

  /** Once a refresh has been handled, the store holds what the newest handled one left there. */
  predicate TokenIsNewest(c: Client) {
    var n := |c.refreshes|;
    var handled := if n > 0 && c.refreshes[n - 1].Posted? then n - 1 else n;
    handled > 0 && !c.refreshes[handled - 1].Posted? ==> c.accessToken == TokenOf(c.refreshes[handled - 1].result)
  }

  /** No more refreshes than requests that met a 401, and one session-expired event per failed refresh. */
  predicate IsSound(c: Client) {
    && SingleFlight(c) && PromiseIsNewest(c) && TokenIsNewest(c)
    && (forall r :: 0 <= r < |c.requests| ==> RequestIsSound(c.requests[r], |c.refreshes|))
    && |c.refreshes| <= Retried(c.requests)
    && c.sessionExpiredEvents == FailedRefreshes(c.refreshes)
  }

  predicate IsStart(c: Client) {
    && c.refreshes == [] && c.refreshPromise == None && c.sessionExpiredEvents == 0
    && forall r :: 0 <= r < |c.requests| ==>
         c.requests[r].phase == Idle && c.requests[r].sends == 0 && !c.requests[r].retried
  }

  lemma {:induction false} RetriedAfterUpdate(requests: seq<Request>, r: nat, request: Request)
    requires r < |requests|
    ensures Retried(requests[r := request])
         == Retried(requests) - (if requests[r].retried then 1 else 0) + if request.retried then 1 else 0
  {
    if r == |requests| - 1 {
      assert DropLast(requests[r := request]) == DropLast(requests);
    } else {
      assert DropLast(requests[r := request]) == DropLast(requests)[r := request];
      RetriedAfterUpdate(DropLast(requests), r, request);
    }
  }

  lemma {:induction false} FailuresAfterUpdate(refreshes: seq<Refresh>, k: nat, refresh: Refresh)
    requires k < |refreshes|
    ensures FailedRefreshes(refreshes[k := refresh])
         == FailedRefreshes(refreshes)
            - (if HasFailed(refreshes[k]) then 1 else 0) + if HasFailed(refresh) then 1 else 0
  {
    if k == |refreshes| - 1 {
      assert DropLast(refreshes[k := refresh]) == DropLast(refreshes);
    } else {
      assert DropLast(refreshes[k := refresh]) == DropLast(refreshes)[k := refresh];
      FailuresAfterUpdate(DropLast(refreshes), k, refresh);
    }
  }

  lemma {:induction false} RetriedAtMostAll(requests: seq<Request>)
    ensures Retried(requests) <= |requests|
  {
    if requests != [] {
      RetriedAtMostAll(DropLast(requests));
    }
  }

  lemma StepKeepsRefreshes(c: Client, e: Event)
    requires IsSound(c) && IsEnabled(c, e)
    ensures SingleFlight(Apply(c, e)) && PromiseIsNewest(Apply(c, e)) && TokenIsNewest(Apply(c, e))
    ensures |c.refreshes| <= |Apply(c, e).refreshes|
  {
    hide Retried, FailedRefreshes, RequestIsSound, Dispatch, CallsForRefresh;
    if e.RefreshAnswer? || e.RefreshFinally? {
      assert c.refreshPromise == Some(e.k) && e.k + 1 == |c.refreshes|;
    }
  }

  lemma StepKeepsRequests(c: Client, e: Event)
    requires IsSound(c) && IsEnabled(c, e)
    ensures var next := Apply(c, e);
      forall r :: 0 <= r < |next.requests| ==> RequestIsSound(next.requests[r], |next.refreshes|)
  {
    hide Retried, FailedRefreshes, SingleFlight, TokenIsNewest;
  }

  lemma StepKeepsCounts(c: Client, e: Event)
    requires IsSound(c) && IsEnabled(c, e)
    ensures var next := Apply(c, e);
      |next.refreshes| <= Retried(next.requests) && next.sessionExpiredEvents == FailedRefreshes(next.refreshes)
  {
    hide SingleFlight, TokenIsNewest;
    match e
    case Send(r) =>
      RetriedAfterUpdate(c.requests, r, Apply(c, e).requests[r]);
    case Receive(r, response) =>
      RetriedAfterUpdate(c.requests, r, Apply(c, e).requests[r]);
      assert DropLast(c.refreshes + [Posted]) == c.refreshes;
    case RefreshAnswer(k, answer) =>
      FailuresAfterUpdate(c.refreshes, k, Apply(c, e).refreshes[k]);
    case RefreshFinally(k) =>
      FailuresAfterUpdate(c.refreshes, k, Apply(c, e).refreshes[k]);
    case Resume(r) =>
      RetriedAfterUpdate(c.requests, r, Apply(c, e).requests[r]);
  }

  lemma StepKeepsSoundness(c: Client, e: Event)
    requires IsSound(c) && IsEnabled(c, e)
    ensures IsSound(Apply(c, e))
  {
    StepKeepsRefreshes(c, e);
    StepKeepsRequests(c, e);
    StepKeepsCounts(c, e);
    hide SingleFlight, PromiseIsNewest, TokenIsNewest, RequestIsSound, Retried, FailedRefreshes;
  }

  // ---- Whole runs ----

  predicate IsRun(states: seq<Client>, events: seq<Event>) {
    && |states| == |events| + 1
    && IsStart(states[0])
    && forall i :: 0 <= i < |events| ==> IsEnabled(states[i], events[i]) && states[i + 1] == Apply(states[i], events[i])
  }

  lemma {:induction false} RunsAreSound(states: seq<Client>, events: seq<Event>, i: nat)
    requires IsRun(states, events) && i < |states|
    ensures IsSound(states[i]) && |states[i].requests| == |states[0].requests|
  {
    if i == 0 {
      StartIsSound(states[0]);
    } else {
      hide IsSound, IsEnabled, Apply, IsStart;
      RunsAreSound(states, events, i - 1);
      StepKeepsSoundness(states[i - 1], events[i - 1]);
      StepKeepsRequestCount(states[i - 1], events[i - 1]);
    }
  }

  lemma StepKeepsRequestCount(c: Client, e: Event)
    requires IsEnabled(c, e)
    ensures |Apply(c, e).requests| == |c.requests|
  {
    hide Dispatch, CallsForRefresh;
  }

  lemma StartIsSound(c: Client)
    requires IsStart(c)
    ensures IsSound(c)
  {
    NothingRetried(c.requests);
  }

  lemma {:induction false} NothingRetried(requests: seq<Request>)
    requires forall r :: 0 <= r < |requests| ==> !requests[r].retried
    ensures Retried(requests) == 0
  {
    if requests != [] {
      NothingRetried(DropLast(requests));
    }
  }

  /** In every interleaving at most one refresh is unanswered or unfinished, and no request is sent three times. */
  lemma SingleRefreshAtMostTwoSends(states: seq<Client>, events: seq<Event>, i: nat)
    requires IsRun(states, events) && i < |states|
    ensures forall j, k | 0 <= j < |states[i].refreshes| && 0 <= k < |states[i].refreshes| ::
              states[i].refreshes[j].Finished? || states[i].refreshes[k].Finished? || j == k
    ensures |states[i].refreshes| <= |states[i].requests|
    ensures forall r :: 0 <= r < |states[i].requests| ==>
              states[i].requests[r].sends <= if states[i].requests[r].isAuthEndpoint then 1 else 2
  {
    RunsAreSound(states, events, i);
    RetriedAtMostAll(states[i].requests);
  }

  /** The answer that makes a request ask for a new token, once, and never for the auth endpoints themselves. */
  predicate IsFirstUnauthenticated(request: Request, response: Response) {
    response == Failure(Some(401), Some("UNAUTHENTICATED")) && !request.isAuthEndpoint && request.sends == 1
  }

  /** On such an answer the request waits for the refresh in flight, or for the one it posts when there is none. */
  lemma UnauthenticatedWaitsForRefresh(c: Client, r: nat, response: Response)
    requires IsSound(c) && IsEnabled(c, Receive(r, response)) && IsFirstUnauthenticated(c.requests[r], response)
    ensures var after := Apply(c, Receive(r, response));
      && after.requests[r].phase.Waiting?
      && (forall k | 0 <= k < |c.refreshes| && !c.refreshes[k].Finished? ::
            after.requests[r].phase == Waiting(k) && after.refreshes == c.refreshes)
      && ((forall k | 0 <= k < |c.refreshes| :: c.refreshes[k].Finished?) ==>
            after.requests[r].phase == Waiting(|c.refreshes|) && after.refreshes == c.refreshes + [Posted])
  {
    assert RequestIsSound(c.requests[r], |c.refreshes|);
  }

  /** Nothing else posts a refresh: any other answer settles the request at once. */
  lemma OtherAnswersSettle(c: Client, r: nat, response: Response)
    requires IsSound(c) && IsEnabled(c, Receive(r, response)) && !IsFirstUnauthenticated(c.requests[r], response)
    ensures var after := Apply(c, Receive(r, response));
      after.refreshes == c.refreshes && after.requests[r].phase == if response.Success? then Succeeded else Failed
  {
    assert RequestIsSound(c.requests[r], |c.refreshes|);
  }

  /** A request meets its first UNAUTHENTICATED answer. */
  predicate MeetsUnauthenticated(c: Client, e: Event) {
    e.Receive? && e.r < |c.requests| && IsFirstUnauthenticated(c.requests[e.r], e.response)
  }

  /** It does so after every earlier refresh has finished. */
  predicate MeetsItLate(c: Client, e: Event) {
    MeetsUnauthenticated(c, e) && c.refreshes != [] && forall k :: 0 <= k < |c.refreshes| ==> c.refreshes[k].Finished?
  }

  lemma RefreshesPosted(c: Client, e: Event)
    requires IsSound(c) && IsEnabled(c, e)
    ensures |Apply(c, e).refreshes| == |c.refreshes|
         + if MeetsUnauthenticated(c, e) && (c.refreshes == [] || MeetsItLate(c, e)) then 1 else 0
  {
    hide Retried, FailedRefreshes, TokenIsNewest, Dispatch;
    if e.Receive? {
      assert RequestIsSound(c.requests[e.r], |c.refreshes|);
    }
  }

  lemma LateIsUnauthenticated(c: Client, e: Event)
    ensures MeetsItLate(c, e) ==> MeetsUnauthenticated(c, e) && c.refreshes != []
  {
  }

  /** Among the first `n` events of a run some answer is a first UNAUTHENTICATED one, or a late such one. */
  predicate SomeUnauthenticated(states: seq<Client>, events: seq<Event>, n: nat)
    requires n <= |events| < |states|
  {
    exists j :: 0 <= j < n && MeetsUnauthenticated(states[j], events[j])
  }

  predicate SomeLate(states: seq<Client>, events: seq<Event>, n: nat)
    requires n <= |events| < |states|
  {
    exists j :: 0 <= j < n && MeetsItLate(states[j], events[j])
  }

  lemma OneMoreEvent(states: seq<Client>, events: seq<Event>, n: nat)
    requires n < |events| < |states|
    ensures SomeUnauthenticated(states, events, n + 1)
       <==> SomeUnauthenticated(states, events, n) || MeetsUnauthenticated(states[n], events[n])
    ensures SomeLate(states, events, n + 1) <==> SomeLate(states, events, n) || MeetsItLate(states[n], events[n])
  {
    hide MeetsUnauthenticated, MeetsItLate;
  }

  lemma {:induction false} RefreshesSoFar(states: seq<Client>, events: seq<Event>, i: nat)
    requires IsRun(states, events) && i < |states|
    ensures states[i].refreshes != [] <==> SomeUnauthenticated(states, events, i)
    ensures |states[i].refreshes| >= 2 <==> SomeLate(states, events, i)
  {
    hide SomeUnauthenticated, SomeLate, MeetsUnauthenticated, MeetsItLate, IsSound, IsEnabled, Apply;
    if i == 0 {
      NoEventYet(states, events);
    } else {
      RefreshesSoFar(states, events, i - 1);
      RunsAreSound(states, events, i - 1);
      OneMoreEvent(states, events, i - 1);
      RefreshesPosted(states[i - 1], events[i - 1]);
      LateIsUnauthenticated(states[i - 1], events[i - 1]);
    }
  }

  lemma NoEventYet(states: seq<Client>, events: seq<Event>)
    requires |events| < |states|
    ensures !SomeUnauthenticated(states, events, 0) && !SomeLate(states, events, 0)
  {
  }

  /**
   * A run posts exactly one refresh when some request meets a first UNAUTHENTICATED answer and none does after that
   * refresh has finished.
   */
  lemma OneRefreshIffNoLateAnswer(states: seq<Client>, events: seq<Event>)
    requires IsRun(states, events)
    ensures |Last(states).refreshes| == 1
       <==> SomeUnauthenticated(states, events, |events|) && !SomeLate(states, events, |events|)
  {
    hide SomeUnauthenticated, SomeLate;
    RefreshesSoFar(states, events, |events|);
  }

  /** Two requests of one page, and a second refresh: the second answer arrives after the first refresh has finished. */
  lemma TwoRefreshesHappen() returns (states: seq<Client>, events: seq<Event>)
    ensures IsRun(states, events) && |states[0].requests| == 2 && |Last(states).refreshes| == 2
  {
    var idle := Request(false, false, 0, None, Idle);
    var expired := Failure(Some(401), Some("UNAUTHENTICATED"));
    var s0 := Client([idle, idle], [], None, None, 0);
    events := [
      Send(0), Send(1), Receive(0, expired), RefreshAnswer(0, Some("new")), RefreshFinally(0), Receive(1, expired)];
    var s1 := Apply(s0, events[0]);
    var s2 := Apply(s1, events[1]);
    var s3 := Apply(s2, events[2]);
    var s4 := Apply(s3, events[3]);
    var s5 := Apply(s4, events[4]);
    states := [s0, s1, s2, s3, s4, s5, Apply(s5, events[5])];
  }

  /** A refresh that has been handled keeps its result for the rest of the run. */
  lemma {:induction false} ResultIsFinal(states: seq<Client>, events: seq<Event>, k: nat, i: nat, j: nat)
    requires IsRun(states, events) && i <= j < |states|
    requires k < |states[i].refreshes| && !states[i].refreshes[k].Posted?
    ensures k < |states[j].refreshes| && !states[j].refreshes[k].Posted?
    ensures states[j].refreshes[k].result == states[i].refreshes[k].result
    decreases j
  {
    if i < j {
      ResultIsFinal(states, events, k, i, j - 1);
      assert states[j] == Apply(states[j - 1], events[j - 1]);
    }
  }

  /** All requests that waited for one refresh share its outcome: either each is resent or each fails. */
  lemma WaitersShareOutcome(states: seq<Client>, events: seq<Event>, k: nat, i: nat, r: nat, j: nat, s: nat)
    requires IsRun(states, events) && i < |events| && j < |events|
    requires events[i] == Resume(r) && r < |states[i].requests| && states[i].requests[r].phase == Waiting(k)
    requires events[j] == Resume(s) && s < |states[j].requests| && states[j].requests[s].phase == Waiting(k)
    ensures r < |states[i + 1].requests| && s < |states[j + 1].requests|
    ensures states[i + 1].requests[r].phase == states[j + 1].requests[s].phase
    ensures k < |states[i].refreshes| && states[i].refreshes[k].Finished?
    ensures states[i + 1].requests[r].phase == if states[i].refreshes[k].result.NewToken? then InFlight else Failed
  {
    assert IsEnabled(states[i], events[i]) && IsEnabled(states[j], events[j]);
    if i <= j {
      ResultIsFinal(states, events, k, i, j);
    } else {
      ResultIsFinal(states, events, k, j, i);
    }
  }

  /** After a refresh that brought a token the request is resent, with no token older than that one. */
  lemma ResentWithFreshToken(states: seq<Client>, events: seq<Event>, i: nat, r: nat, k: nat)
    requires IsRun(states, events) && i < |events|
    requires events[i] == Resume(r) && r < |states[i].requests| && states[i].requests[r].phase == Waiting(k)
    ensures k < |states[i].refreshes| && states[i].refreshes[k].Finished? && r < |states[i + 1].requests|
    ensures states[i].refreshes[k].result.NewToken? ==>
      states[i + 1].requests[r].phase == InFlight && states[i + 1].requests[r].sends == 2 &&
      exists m | k <= m < |states[i].refreshes| :: !states[i].refreshes[m].Posted?
        && states[i].refreshes[m].result.NewToken?
        && states[i + 1].requests[r].authorization == Some(states[i].refreshes[m].result.token)
  {
    RunsAreSound(states, events, i);
    var c := states[i];
    assert IsEnabled(c, events[i]);
    var n := |c.refreshes|;
    var newest := if c.refreshes[n - 1].Posted? then n - 2 else n - 1;
    if states[i + 1].requests[r].phase == InFlight {
      var m := if c.accessToken.Some? then newest else k;
      assert k <= m < n && !c.refreshes[m].Posted? && c.refreshes[m].result.NewToken?;
    }
  }

  /** A waiting request is resent exactly when its refresh brought a token, and fails exactly when it did not. */
  lemma ResumeFollowsRefresh(states: seq<Client>, events: seq<Event>, i: nat, r: nat, k: nat)
    requires IsRun(states, events) && i < |events|
    requires events[i] == Resume(r) && r < |states[i].requests| && states[i].requests[r].phase == Waiting(k)
    ensures k < |states[i].refreshes| && states[i].refreshes[k].Finished? && r < |states[i + 1].requests|
    ensures states[i + 1].requests[r].phase == InFlight && states[i + 1].requests[r].sends == 2
       <==> states[i].refreshes[k].result.NewToken?
    ensures states[i + 1].requests[r].phase == Failed && states[i + 1].requests[r].sends == 1
       <==> states[i].refreshes[k].result == RefreshFailed
    ensures states[i].refreshes[k].result.NewToken? ==> states[i + 1].requests[r].authorization.Some?
  {
    RunsAreSound(states, events, i);
    assert IsEnabled(states[i], events[i]);
    assert RequestIsSound(states[i].requests[r], |states[i].refreshes|);
  }

  /** What becomes of a request that waited for refresh `k`: it waits still, was resent, or failed with the refresh. */
  predicate FollowsRefresh(c: Client, r: nat, k: nat) {
    && r < |c.requests| && c.requests[r].retried
    && (c.requests[r].phase == Waiting(k)
        || (&& k < |c.refreshes| && !c.refreshes[k].Posted?
            && if c.refreshes[k].result.NewToken?
               then c.requests[r].sends == 2 && c.requests[r].phase in {InFlight, Succeeded, Failed}
               else c.requests[r].sends == 1 && c.requests[r].phase == Failed))
  }

  lemma StepFollowsRefresh(c: Client, e: Event, r: nat, k: nat)
    requires IsSound(c) && IsEnabled(c, e) && FollowsRefresh(c, r, k)
    ensures FollowsRefresh(Apply(c, e), r, k)
  {
    assert RequestIsSound(c.requests[r], |c.refreshes|);
    hide SingleFlight, PromiseIsNewest, TokenIsNewest, Retried, FailedRefreshes;
  }

  /** Over whole runs: a request whose refresh brought a token has been sent exactly twice when it settles. */
  lemma {:induction false} RefreshDecidesSends(
    states: seq<Client>, events: seq<Event>, i: nat, j: nat, r: nat, k: nat)
    requires IsRun(states, events) && i <= j < |states|
    requires r < |states[i].requests| && states[i].requests[r].phase == Waiting(k)
    ensures FollowsRefresh(states[j], r, k)
    ensures IsSettled(states[j].requests[r]) ==>
      && k < |states[j].refreshes| && !states[j].refreshes[k].Posted?
      && states[j].requests[r].sends == (if states[j].refreshes[k].result.NewToken? then 2 else 1)
      && (states[j].refreshes[k].result == RefreshFailed ==> states[j].requests[r].phase == Failed)
    decreases j
  {
    RunsAreSound(states, events, i);
    assert RequestIsSound(states[i].requests[r], |states[i].refreshes|);
    if i < j {
      RefreshDecidesSends(states, events, i, j - 1, r, k);
      RunsAreSound(states, events, j - 1);
      hide IsSound;
      StepFollowsRefresh(states[j - 1], events[j - 1], r, k);
    }
  }

  // ---- Every run settles ----

  function Rank(request: Request): nat {
    match request.phase
    case Idle => 6
    case InFlight => if request.retried then 1 else 5
    case Waiting(_) => 2
    case Succeeded => 0
    case Failed => 0
  }

  function RefreshRank(refresh: Refresh): nat {
    match refresh
    case Posted => 2
    case Handled(_) => 1
    case Finished(_) => 0
  }

  function RequestWork(requests: seq<Request>): nat {
    if requests == [] then 0 else RequestWork(DropLast(requests)) + Rank(Last(requests))
  }

  function RefreshWork(refreshes: seq<Refresh>): nat {
    if refreshes == [] then 0 else RefreshWork(DropLast(refreshes)) + RefreshRank(Last(refreshes))
  }

  function Variant(c: Client): nat {
    RequestWork(c.requests) + RefreshWork(c.refreshes)
  }

  lemma {:induction false} RequestWorkAfterUpdate(requests: seq<Request>, r: nat, request: Request)
    requires r < |requests|
    ensures RequestWork(requests[r := request]) == RequestWork(requests) - Rank(requests[r]) + Rank(request)
  {
    if r == |requests| - 1 {
      assert DropLast(requests[r := request]) == DropLast(requests);
    } else {
      assert DropLast(requests[r := request]) == DropLast(requests)[r := request];
      RequestWorkAfterUpdate(DropLast(requests), r, request);
    }
  }

  lemma {:induction false} RefreshWorkAfterUpdate(refreshes: seq<Refresh>, k: nat, refresh: Refresh)
    requires k < |refreshes|
    ensures RefreshWork(refreshes[k := refresh])
         == RefreshWork(refreshes) - RefreshRank(refreshes[k]) + RefreshRank(refresh)
  {
    if k == |refreshes| - 1 {
      assert DropLast(refreshes[k := refresh]) == DropLast(refreshes);
    } else {
      assert DropLast(refreshes[k := refresh]) == DropLast(refreshes)[k := refresh];
      RefreshWorkAfterUpdate(DropLast(refreshes), k, refresh);
    }
  }

  lemma StepDecreasesVariant(c: Client, e: Event)
    requires IsSound(c) && IsEnabled(c, e)
    ensures Variant(Apply(c, e)) < Variant(c)
  {
    if e.RefreshAnswer? || e.RefreshFinally? {
      RefreshStepsDecrease(c, e);
    } else {
      RequestStepsDecrease(c, e);
    }
  }

  lemma RefreshStepsDecrease(c: Client, e: Event)
    requires IsEnabled(c, e) && (e.RefreshAnswer? || e.RefreshFinally?)
    ensures Variant(Apply(c, e)) < Variant(c)
  {
    hide RequestWork, RefreshWork;
    RefreshWorkAfterUpdate(c.refreshes, e.k, Apply(c, e).refreshes[e.k]);
  }

  lemma RequestStepsDecrease(c: Client, e: Event)
    requires IsSound(c) && IsEnabled(c, e) && !e.RefreshAnswer? && !e.RefreshFinally?
    ensures Variant(Apply(c, e)) < Variant(c)
  {
    var next := Apply(c, e);
    RequestStepRanks(c, e);
    OnePostedMore(c.refreshes);
    RequestWorkAfterUpdate(c.requests, e.r, next.requests[e.r]);
    hide Rank, RequestWork, RefreshWork, IsSound, IsEnabled, Apply;
  }

  /** The request an event moves loses rank, by more than a refresh it may post adds. */
  lemma RequestStepRanks(c: Client, e: Event)
    requires IsSound(c) && IsEnabled(c, e) && !e.RefreshAnswer? && !e.RefreshFinally?
    ensures var next := Apply(c, e);
      && |next.requests| == |c.requests| && next.requests == c.requests[e.r := next.requests[e.r]]
      && (next.refreshes == c.refreshes || next.refreshes == c.refreshes + [Posted])
      && Rank(next.requests[e.r]) + (if next.refreshes == c.refreshes then 0 else 2) < Rank(c.requests[e.r])
  {
    assert RequestIsSound(c.requests[e.r], |c.refreshes|);
    assert c.refreshes + [Posted] != c.refreshes by { assert |c.refreshes + [Posted]| > |c.refreshes|; }
    hide IsSound;
  }

  lemma OnePostedMore(refreshes: seq<Refresh>)
    ensures RefreshWork(refreshes + [Posted]) == RefreshWork(refreshes) + 2
  {
    assert DropLast(refreshes + [Posted]) == refreshes;
  }

  predicate IsSettled(request: Request) {
    request.phase == Succeeded || request.phase == Failed
  }

  /** While a request is unsettled some event can still happen: nothing waits forever on anything but a response. */
  lemma UnsettledMeansEnabled(c: Client, r: nat) returns (e: Event)
    requires IsSound(c) && r < |c.requests| && !IsSettled(c.requests[r])
    ensures IsEnabled(c, e)
  {
    match c.requests[r].phase
    case Idle => e := Send(r);
    case InFlight => e := Receive(r, Success);
    case Waiting(k) =>
      e := match c.refreshes[k]
        case Posted => RefreshAnswer(k, None)
        case Handled(_) => RefreshFinally(k)
        case Finished(_) => Resume(r);
  }

  lemma {:induction false} RunIsShort(states: seq<Client>, events: seq<Event>, i: nat)
    requires IsRun(states, events) && i < |states|
    ensures Variant(states[i]) + i <= 6 * |states[0].requests|
  {
    if i == 0 {
      IdleWork(states[0].requests);
    } else {
      RunIsShort(states, events, i - 1);
      RunsAreSound(states, events, i - 1);
      StepDecreasesVariant(states[i - 1], events[i - 1]);
    }
  }

  lemma {:induction false} IdleWork(requests: seq<Request>)
    requires forall r :: 0 <= r < |requests| ==> requests[r].phase == Idle
    ensures RequestWork(requests) == 6 * |requests|
  {
    if requests != [] {
      IdleWork(DropLast(requests));
    }
  }

  /** Every run has at most six events per request, and one that cannot continue has settled them all. */
  lemma RunsSettle(states: seq<Client>, events: seq<Event>)
    requires IsRun(states, events)
    ensures |events| <= 6 * |states[0].requests|
    ensures (forall e :: !IsEnabled(Last(states), e)) ==> forall request <- Last(states).requests :: IsSettled(request)
  {
    RunIsShort(states, events, |events|);
    RunsAreSound(states, events, |events|);
    if forall e :: !IsEnabled(Last(states), e) {
      forall request <- Last(states).requests
        ensures IsSettled(request)
      {
        var r :| 0 <= r < |Last(states).requests| && Last(states).requests[r] == request;
        if !IsSettled(request) {
          var e := UnsettledMeansEnabled(Last(states), r);
        }
      }
    }
  }

  lemma SoundPromiseIsNewest(c: Client)
    requires IsSound(c)
    ensures PromiseIsNewest(c)
  {
  }

  // ---- The client itself ----

  class ApiClient {
    var requests: seq<Request>
    var refreshes: seq<Refresh>
    var refreshPromise: Option<nat>
    var accessToken: Option<string>
    var sessionExpiredEvents: nat

    ghost function State(): Client
      reads this
    {
      Client(requests, refreshes, refreshPromise, accessToken, sessionExpiredEvents)
    }

    method RequestInterceptor(r: nat)
      requires r < |requests|
      modifies this`requests
      ensures requests == old(requests)[r := Dispatch(old(requests)[r], accessToken)]
      ensures requests[r].phase == InFlight && requests[r].sends == old(requests)[r].sends + 1
      ensures requests[r].authorization == if accessToken.Some? then accessToken else old(requests)[r].authorization
    {
      var request := requests[r].(phase := InFlight, sends := requests[r].sends + 1);
      if accessToken.Some? {
        request := request.(authorization := accessToken);
      }
      requests := requests[r := request];
    }

    method OnSend(r: nat)
      requires IsSound(State()) && IsEnabled(State(), Send(r))
      modifies this`requests
      ensures State() == Apply(old(State()), Send(r)) && IsSound(State())
      ensures
        var request := old(requests)[r];
        var header := if accessToken.Some? then accessToken else request.authorization;
        requests == old(requests)[r := request.(phase := InFlight, sends := request.sends + 1, authorization := header)]
    {
      hide IsSound;
      StepKeepsSoundness(State(), Send(r));
      RequestInterceptor(r);
    }

    method RefreshAccessToken() returns (promise: nat)
      modifies this`refreshes, this`refreshPromise
      ensures (State(), promise) == JoinRefresh(old(State()))
      ensures refreshPromise == Some(promise)
      ensures old(refreshPromise).Some? ==> promise == old(refreshPromise).value && refreshes == old(refreshes)
      ensures old(refreshPromise).None? ==> promise == |old(refreshes)| && refreshes == old(refreshes) + [Posted]
    {
      if refreshPromise.None? {
        refreshPromise := Some(|refreshes|);
        refreshes := refreshes + [Posted];
      }
      promise := refreshPromise.value;
    }

    method OnResponse(r: nat, response: Response)
      requires IsSound(State()) && IsEnabled(State(), Receive(r, response))
      modifies this
      ensures State() == Apply(old(State()), Receive(r, response)) && IsSound(State())
      ensures accessToken == old(accessToken) && sessionExpiredEvents == old(sessionExpiredEvents)
      ensures
        var request := old(requests)[r];
        if response.Failure? && response.status == Some(401) && response.code == Some("UNAUTHENTICATED")
           && !request.isAuthEndpoint && !request.retried
        then
          && requests == old(requests)[r := request.(retried := true, phase := Waiting(|refreshes| - 1))]
          && refreshes == (if old(refreshPromise).Some? then old(refreshes) else old(refreshes) + [Posted])
          && refreshPromise == Some(|refreshes| - 1)
        else
          && requests == old(requests)[r := request.(phase := if response.Success? then Succeeded else Failed)]
          && refreshes == old(refreshes) && refreshPromise == old(refreshPromise)
    {
      hide IsSound;
      SoundPromiseIsNewest(State());
      StepKeepsSoundness(State(), Receive(r, response));
      if response.Success? {
        requests := requests[r := requests[r].(phase := Succeeded)];
        return;
      }
      if CallsForRefresh(requests[r], response) {
        requests := requests[r := requests[r].(retried := true)];
        var promise := RefreshAccessToken();
        requests := requests[r := requests[r].(phase := Waiting(promise))];
        return;
      }
      requests := requests[r := requests[r].(phase := Failed)];
    }

    method OnRefreshAnswer(k: nat, answer: Option<string>)
      requires IsSound(State()) && IsEnabled(State(), RefreshAnswer(k, answer))
      modifies this
      ensures State() == Apply(old(State()), RefreshAnswer(k, answer)) && IsSound(State())
      ensures accessToken == answer && requests == old(requests) && refreshPromise == old(refreshPromise)
      ensures refreshes
           == old(refreshes)[k := Handled(if answer.Some? then NewToken(answer.value) else RefreshFailed)]
      ensures sessionExpiredEvents == old(sessionExpiredEvents) + if answer.None? then 1 else 0
    {
      hide IsSound;
      StepKeepsSoundness(State(), RefreshAnswer(k, answer));
      if answer.Some? {
        accessToken := answer;
        refreshes := refreshes[k := Handled(NewToken(answer.value))];
      } else {
        accessToken := None;
        sessionExpiredEvents := sessionExpiredEvents + 1;
        refreshes := refreshes[k := Handled(RefreshFailed)];
      }
    }

    method OnRefreshFinally(k: nat)
      requires IsSound(State()) && IsEnabled(State(), RefreshFinally(k))
      modifies this
      ensures State() == Apply(old(State()), RefreshFinally(k)) && IsSound(State())
      ensures refreshPromise == None && refreshes == old(refreshes)[k := Finished(old(refreshes)[k].result)]
      ensures requests == old(requests) && accessToken == old(accessToken)
      ensures sessionExpiredEvents == old(sessionExpiredEvents)
    {
      hide IsSound;
      StepKeepsSoundness(State(), RefreshFinally(k));
      refreshPromise := None;
      refreshes := refreshes[k := Finished(refreshes[k].result)];
    }

    method OnResume(r: nat)
      requires IsSound(State()) && IsEnabled(State(), Resume(r))
      modifies this
      ensures State() == Apply(old(State()), Resume(r)) && IsSound(State())
      ensures refreshes == old(refreshes) && refreshPromise == old(refreshPromise) && accessToken == old(accessToken)
      ensures sessionExpiredEvents == old(sessionExpiredEvents)
      ensures
        var request := old(requests)[r];
        match old(refreshes)[request.phase.refresh].result
        case NewToken(token) =>
          var header := if accessToken.Some? then accessToken else Some(token);
          var resent := request.(phase := InFlight, sends := request.sends + 1, authorization := header);
          requests == old(requests)[r := resent]
        case RefreshFailed => requests == old(requests)[r := request.(phase := Failed)]
    {
      hide IsSound;
      StepKeepsSoundness(State(), Resume(r));
      match refreshes[requests[r].phase.refresh].result {
        case NewToken(token) =>
          requests := requests[r := requests[r].(authorization := Some(token))];
          RequestInterceptor(r);
        case RefreshFailed =>
          requests := requests[r := requests[r].(phase := Failed)];
      }
    }
  }
}
