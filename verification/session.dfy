/** The mounted widget as a sequential event machine. Clicks reach a
    handler only when the button is on screen and not `disabled`; each
    handler's request stays in flight until its reply event arrives; the
    one-second interval fires only while it is armed. */
module Session {
  import opened JsValues
  import opened Widget
  import opened Display

  /** The widget's state plus the number of requests of each kind that have
      been sent and not yet answered. */
  datatype Instance = Instance(ui: State, launchesInFlight: nat, refreshesInFlight: nat)

  const Mounted: Instance := Instance(Initial, 0, 0)

  datatype Event =
    | ClickLaunch
    | ClickRefresh
    | LaunchReturns(launchReply: Reply<LaunchBody>)
    | RefreshReturns(refreshReply: Reply<RefreshBody>)
    | SecondElapses

  /** The refresh button is rendered (a launch result exists) and enabled. */
  predicate RefreshClickable(s: State) {
    var p := Render(s).panel;
    p.Some? && p.value.refreshEnabled
  }

  function Step(w: Instance, e: Event): (v: Instance)
    ensures e.ClickLaunch? ==>
      (if w.ui.loading then v == w
       else v.ui == LaunchStart(w.ui) && v.launchesInFlight == w.launchesInFlight + 1
            && v.refreshesInFlight == w.refreshesInFlight)
    ensures e.ClickRefresh? && (w.ui.refreshingCode || !HasUsername(w.ui)) ==> v == w
    ensures e.ClickRefresh? && !w.ui.refreshingCode && HasUsername(w.ui) ==>
      && v.ui.refreshingCode
      && v.refreshesInFlight == w.refreshesInFlight + 1
      && v.launchesInFlight == w.launchesInFlight
    ensures e.SecondElapses? ==> v.ui.secondsRemaining == Max(0, w.ui.secondsRemaining - 1)
    ensures e.ClickLaunch? || e.ClickRefresh? ==> v.ui.secondsRemaining == w.ui.secondsRemaining
    ensures !IsReply(e) ==> v.ui.totpCode == w.ui.totpCode && v.ui.responseData == w.ui.responseData
    ensures e.ClickRefresh? && RefreshClickable(w.ui) ==> v.ui == RefreshStart(w.ui)
    ensures e.SecondElapses? ==> v == w.(ui := Tick(w.ui))
    ensures e.LaunchReturns? && w.launchesInFlight == 0 ==> v == w
    ensures e.LaunchReturns? && w.launchesInFlight > 0 ==>
      v == Instance(LaunchFinish(w.ui, e.launchReply), w.launchesInFlight - 1, w.refreshesInFlight)
    ensures e.RefreshReturns? && w.refreshesInFlight == 0 ==> v == w
    ensures e.RefreshReturns? && w.refreshesInFlight > 0 ==>
      v == Instance(RefreshFinish(w.ui, e.refreshReply), w.launchesInFlight, w.refreshesInFlight - 1)
  {
    match e
    case ClickLaunch =>
      if Render(w.ui).launchEnabled then
        Instance(LaunchStart(w.ui), w.launchesInFlight + 1, w.refreshesInFlight)
      else w
    case ClickRefresh =>
      if RefreshClickable(w.ui) then
        var sent := if RefreshRequest(w.ui).Some? then 1 else 0;
        Instance(RefreshStart(w.ui), w.launchesInFlight, w.refreshesInFlight + sent)
      else w
    case LaunchReturns(r) =>
      if w.launchesInFlight > 0 then
        Instance(LaunchFinish(w.ui, r), w.launchesInFlight - 1, w.refreshesInFlight)
      else w
    case RefreshReturns(r) =>
      if w.refreshesInFlight > 0 then
        Instance(RefreshFinish(w.ui, r), w.launchesInFlight, w.refreshesInFlight - 1)
      else w
    case SecondElapses =>
      w.(ui := Tick(w.ui))
  }

  function Run(w: Instance, events: seq<Event>): Instance
    decreases |events|
  {
    if |events| == 0 then w else Run(Step(w, events[0]), events[1..])
  }

  /** At most one launch and one refresh in flight, and each busy flag raised
      exactly while its request is in flight. */
  predicate InFlightConsistent(w: Instance) {
    && w.launchesInFlight <= 1
    && w.refreshesInFlight <= 1
    && (w.ui.loading <==> w.launchesInFlight == 1)
    && (w.ui.refreshingCode <==> w.refreshesInFlight == 1)
  }

  /** Every event, whatever the server sends, keeps the in-flight invariant. */
  lemma StepInFlight(w: Instance, e: Event)
    requires InFlightConsistent(w)
    ensures InFlightConsistent(Step(w, e))
  {
  }

  /** Along any sequence of events, overlapping launches or refreshes never
      happen. */
  lemma {:induction false} RunInFlight(w: Instance, events: seq<Event>)
    requires InFlightConsistent(w)
    ensures InFlightConsistent(Run(w, events))
    decreases |events|
  {
    if |events| > 0 {
      StepInFlight(w, events[0]);
      RunInFlight(Step(w, events[0]), events[1..]);
    }
  }

  /** Every instance reachable from mounting keeps the in-flight invariant. */
  lemma ReachableInFlight(events: seq<Event>)
    ensures InFlightConsistent(Run(Mounted, events))
  {
    RunInFlight(Mounted, events);
  }

  predicate IsReply(e: Event) {
    e.LaunchReturns? || e.RefreshReturns?
  }

  /** False only for a successful reply that installs a negative countdown:
      a 2xx refresh, or a 2xx launch carrying a non-empty code. Failed
      replies never touch the count, so their values do not matter. */
  predicate InstallsNonNegativeCount(e: Event) {
    match e
    case LaunchReturns(r) =>
      r.Answered? && Ok(r.status) && Truthy(r.body.totpCode) ==> r.body.totpSecondsRemaining >= 0
    case RefreshReturns(r) =>
      r.Answered? && Ok(r.status) ==> r.body.secondsRemaining >= 0
    case _ => true
  }

  /** From a non-negative count, an event leaves the count negative only if it
      is a successful reply installing a negative value; an elapsed second
      always leaves a non-negative count, whatever the count was before. */
  lemma StepCountNonNegative(w: Instance, e: Event)
    ensures w.ui.secondsRemaining >= 0 && InstallsNonNegativeCount(e) ==>
      Step(w, e).ui.secondsRemaining >= 0
    ensures e.SecondElapses? ==> Step(w, e).ui.secondsRemaining >= 0
  {
  }

  /** The countdown of a mounted widget is never negative as long as the
      server never installs a negative count. */
  lemma {:induction false} RunCountNonNegative(w: Instance, events: seq<Event>)
    requires w.ui.secondsRemaining >= 0
    requires forall i :: 0 <= i < |events| ==> InstallsNonNegativeCount(events[i])
    ensures Run(w, events).ui.secondsRemaining >= 0
    decreases |events|
  {
    if |events| > 0 {
      assert InstallsNonNegativeCount(events[0]);
      StepCountNonNegative(w, events[0]);
      var rest := events[1..];
      assert forall i :: 0 <= i < |rest| ==> InstallsNonNegativeCount(rest[i]) by {
        forall i | 0 <= i < |rest|
          ensures InstallsNonNegativeCount(rest[i])
        {
          assert rest[i] == events[i + 1];
        }
      }
      RunCountNonNegative(Step(w, events[0]), rest);
    }
  }

  function SecondsIn(events: seq<Event>): nat
    decreases |events|
  {
    if |events| == 0 then 0
    else (if events[0].SecondElapses? then 1 else 0) + SecondsIn(events[1..])
  }

  /** Between server replies, the count stays as it is until the first
      elapsed second; after `k >= 1` seconds it is `max(0, n - k)`. So it
      never rises above `max(0, n)`: a negative count installed by the server
      rises to 0 at the first second, and a non-negative one only falls. The
      code on display and the launch result stay the same. */
  lemma {:induction false} CountdownBetweenReplies(w: Instance, events: seq<Event>)
    requires forall i :: 0 <= i < |events| ==> !IsReply(events[i])
    ensures SecondsIn(events) == 0 ==> Run(w, events).ui.secondsRemaining == w.ui.secondsRemaining
    ensures SecondsIn(events) > 0 ==>
      Run(w, events).ui.secondsRemaining == Max(0, w.ui.secondsRemaining - SecondsIn(events))
    ensures Run(w, events).ui.secondsRemaining <= Max(0, w.ui.secondsRemaining)
    ensures w.ui.secondsRemaining >= 0 ==> Run(w, events).ui.secondsRemaining <= w.ui.secondsRemaining
    ensures Run(w, events).ui.totpCode == w.ui.totpCode
    ensures Run(w, events).ui.responseData == w.ui.responseData
    decreases |events|
  {
    if |events| > 0 {
      var v := Step(w, events[0]);
      assert !IsReply(events[0]);
      CountdownBetweenReplies(v, events[1..]);
    }
  }

  /** A reply that installs a server-provided count: a 2xx refresh, or a
      2xx launch carrying a non-empty code. Failed replies and code-less
      launches keep the count. */
  predicate ResetsCount(e: Event) {
    match e
    case LaunchReturns(r) => r.Answered? && Ok(r.status) && Truthy(r.body.totpCode)
    case RefreshReturns(r) => r.Answered? && Ok(r.status)
    case _ => false
  }

  /** Between server-provided resets the countdown behaves as if only the
      elapsed seconds happened: unchanged before the first one, `max(0, n - k)`
      after `k >= 1` of them, never above `max(0, n)`, and only falling from a
      non-negative `n`. Failed replies and code-less launches in between keep
      both the count and the code. */
  lemma {:induction false} CountdownBetweenResets(w: Instance, events: seq<Event>)
    requires forall i :: 0 <= i < |events| ==> !ResetsCount(events[i])
    ensures SecondsIn(events) == 0 ==> Run(w, events).ui.secondsRemaining == w.ui.secondsRemaining
    ensures SecondsIn(events) > 0 ==>
      Run(w, events).ui.secondsRemaining == Max(0, w.ui.secondsRemaining - SecondsIn(events))
    ensures Run(w, events).ui.secondsRemaining <= Max(0, w.ui.secondsRemaining)
    ensures w.ui.secondsRemaining >= 0 ==> Run(w, events).ui.secondsRemaining <= w.ui.secondsRemaining
    ensures Run(w, events).ui.totpCode == w.ui.totpCode
    decreases |events|
  {
    if |events| > 0 {
      var v := Step(w, events[0]);
      assert !ResetsCount(events[0]);
      assert v.ui.totpCode == w.ui.totpCode;
      assert !events[0].SecondElapses? ==> v.ui.secondsRemaining == w.ui.secondsRemaining;
      var rest := events[1..];
      assert forall i :: 0 <= i < |rest| ==> !ResetsCount(rest[i]) by {
        forall i | 0 <= i < |rest|
          ensures !ResetsCount(rest[i])
        {
          assert rest[i] == events[i + 1];
        }
      }
      CountdownBetweenResets(v, rest);
    }
  }

  /** With five seconds left, a second, a failed refresh and another second
      leave three: the failure neither resets nor stops the countdown. */
  lemma ScenarioFailedRefreshKeepsCounting(w: Instance, reply: Reply<RefreshBody>)
    requires w.ui.secondsRemaining == 5
    requires reply.Thrown? || !Ok(reply.status)
    ensures Run(w, [SecondElapses, RefreshReturns(reply), SecondElapses]).ui.secondsRemaining == 3
  {
    var events := [SecondElapses, RefreshReturns(reply), SecondElapses];
    assert !ResetsCount(events[0]) && !ResetsCount(events[1]) && !ResetsCount(events[2]);
    assert SecondsIn(events[2..]) == 1;
    assert SecondsIn(events[1..]) == 1;
    assert SecondsIn(events) == 2;
    CountdownBetweenResets(w, events);
  }

  // ---------------------------------------------------------------- scenarios

  lemma RunOne(w: Instance, a: Event)
    ensures Run(w, [a]) == Step(w, a)
  {
    assert [a][1..] == [];
  }

  lemma RunPair(w: Instance, a: Event, b: Event)
    ensures Run(w, [a, b]) == Step(Step(w, a), b)
  {
    assert [a, b][1..] == [b];
    assert [b][1..] == [];
    assert Run(w, [a, b]) == Run(Step(w, a), [b]);
    assert Run(Step(w, a), [b]) == Run(Step(Step(w, a), b), []);
  }

  function Seconds(n: nat): (events: seq<Event>)
    ensures |events| == n
    ensures forall i :: 0 <= i < n ==> events[i] == SecondElapses
    ensures SecondsIn(events) == n
    decreases n
  {
    if n == 0 then [] else [SecondElapses] + Seconds(n - 1)
  }

  const LabUser: LaunchBody :=
    LaunchBody(Some("labuser"), Some("secret"), Some("123456"),
               Some("2030-01-01T00:00:30Z"), 30, None)

  const LaunchSucceeds: seq<Event> := [ClickLaunch, LaunchReturns(Answered(200, LabUser))]

  /** A launch answered 200 with code "123456" and 30 seconds shows the
      credentials and the code with "30s remaining". */
  lemma ScenarioLaunchShowsCode()
    ensures var w := Run(Mounted, LaunchSucceeds);
      && w.ui.totpCode == Some("123456")
      && w.ui.secondsRemaining == 30
      && Render(w.ui).panel == Some(Panel("labuser", "secret", RefreshIdleLabel, true,
                                          CodeShown("123456", "30s remaining", false, 100.0)))
  {
    var e := LaunchReturns(Answered(200, LabUser));
    RunPair(Mounted, ClickLaunch, e);
    var w0 := Step(Mounted, ClickLaunch);
    assert w0.launchesInFlight == 1;
    var w := Step(w0, e);
    assert w.ui == LaunchFinish(w0.ui, Answered(200, LabUser));
    assert Truthy(LabUser.totpCode);
    assert w.ui.secondsRemaining == 30;
    assert Decimal.NatToString(30) == "30";
    assert TimerText(30) == "30s remaining";
  }

  /** `n` elapsed seconds in a row, and nothing else, are `n` ticks. */
  lemma {:induction false} RunSeconds(w: Instance, n: nat)
    ensures Run(w, Seconds(n)) == w.(ui := Ticks(w.ui, n))
    decreases n
  {
    if n > 0 {
      assert Seconds(n)[1..] == Seconds(n - 1);
      RunSeconds(Step(w, SecondElapses), n - 1);
    }
  }

  /** A code "123456" shown with 30 seconds left shows "1s remaining" 29
      seconds later and "Code expired - please refresh" after 30 seconds. */
  lemma ScenarioCodeExpires(w: Instance)
    requires w.ui.responseData.Some?
    requires w.ui.totpCode == Some("123456") && w.ui.secondsRemaining == 30
    ensures Render(Run(w, Seconds(29)).ui).panel.Some?
    ensures Render(Run(w, Seconds(29)).ui).panel.value.codeArea
            == CodeShown("123456", "1s remaining", true, 100.0 / 30.0)
    ensures Render(Run(w, Seconds(30)).ui).panel.Some?
    ensures Render(Run(w, Seconds(30)).ui).panel.value.codeArea
            == CodeShown("123456", ExpiredText, true, 0.0)
  {
    RunSeconds(w, 29);
    RunSeconds(w, 30);
    TicksCountDown(w.ui, 29);
    TicksCountDown(w.ui, 30);
    var a := Run(w, Seconds(29)).ui;
    var b := Run(w, Seconds(30)).ui;
    assert a.secondsRemaining == 1 && b.secondsRemaining == 0;
    assert Decimal.NatToString(1) == "1";
    assert TimerText(1) == "1s remaining";
  }

  /** The launch of the first scenario is followed by the countdown above. */
  lemma ScenarioLaunchThenExpire()
    ensures Render(Run(Run(Mounted, LaunchSucceeds), Seconds(30)).ui).panel.Some?
    ensures Render(Run(Run(Mounted, LaunchSucceeds), Seconds(30)).ui).panel.value.codeArea
            == CodeShown("123456", ExpiredText, true, 0.0)
  {
    ScenarioLaunchShowsCode();
    ScenarioCodeExpires(Run(Mounted, LaunchSucceeds));
  }

  /** A launch answered 500 with `{"error": "quota exceeded"}` shows exactly
      that message, no credentials panel, and no code. */
  lemma ScenarioLaunchServerError()
    ensures var w := Run(Mounted, [ClickLaunch,
                                   LaunchReturns(Answered(500, LaunchBody(None, None, None, None, 0,
                                                                          Some("quota exceeded"))))]);
      && w.ui.error == Some("quota exceeded")
      && w.ui.totpCode == None
      && !w.ui.loading
      && Render(w.ui).errorLine == Some("Error: quota exceeded")
      && Render(w.ui).panel == None
  {
    var reply := Answered(500, LaunchBody(None, None, None, None, 0, Some("quota exceeded")));
    var e := LaunchReturns(reply);
    RunPair(Mounted, ClickLaunch, e);
    var w0 := Step(Mounted, ClickLaunch);
    assert w0 == Instance(LaunchStart(Initial), 1, 0);
    var ui := LaunchFinish(w0.ui, reply);
    assert Step(w0, e) == Instance(ui, 0, 0);
    assert ui.error == Some("quota exceeded");
    assert ui.responseData == None && ui.totpCode == None && !ui.loading;
    assert ErrorPrefix + "quota exceeded" == "Error: quota exceeded";
  }

  /** A refresh click before any launch result is known changes nothing and
      sends nothing; so does one after a launch whose result has no username. */
  lemma ScenarioRefreshWithoutUsername(body: LaunchBody)
    requires !Truthy(body.username)
    ensures Run(Mounted, [ClickRefresh]) == Mounted
    ensures var w := Run(Mounted, [ClickLaunch, LaunchReturns(Answered(200, body))]);
      Run(w, [ClickRefresh]) == w
  {
    var e := LaunchReturns(Answered(200, body));
    RunOne(Mounted, ClickRefresh);
    RunPair(Mounted, ClickLaunch, e);
    var w := Step(Step(Mounted, ClickLaunch), e);
    RunOne(w, ClickRefresh);
    assert !HasUsername(w.ui);
  }

  /** Two refresh clicks in a row send exactly one request. */
  lemma ScenarioDoubleRefresh(w: Instance)
    requires InFlightConsistent(w)
    requires w.refreshesInFlight == 0 && HasUsername(w.ui)
    ensures Run(w, [ClickRefresh, ClickRefresh]).refreshesInFlight == 1
    ensures Run(w, [ClickRefresh, ClickRefresh]) == Run(w, [ClickRefresh])
  {
    RunOne(w, ClickRefresh);
    RunPair(w, ClickRefresh, ClickRefresh);
    var v := Step(w, ClickRefresh);
    assert v.ui.refreshingCode;
    assert Step(v, ClickRefresh) == v;
  }
}
