/** The lab-launch widget's state record and the pure transition for each
    discrete event that changes it: the one-second countdown tick, the
    start and completion of a launch, and the start and completion of a
    one-time-code refresh. Each `await fetch(...)` is an event boundary:
    the HTTP outcome arrives as the parameter of the completion event. */
module Widget {
  import opened JsValues
  import Decimal

  /** The fields of a launch response body that the widget reads. */
  datatype LaunchBody = LaunchBody(
    username: Option<string>,
    password: Option<string>,
    totpCode: Option<string>,
    totpExpiryTime: Option<string>,
    totpSecondsRemaining: int,
    error: Option<string>)

  /** The fields of a refresh response body that the widget reads. */
  datatype RefreshBody = RefreshBody(
    code: Option<string>,
    expiryTime: Option<string>,
    secondsRemaining: int,
    error: Option<string>)

  /** How a `fetch` followed by `response.json()` ends: an HTTP answer with
      its status and parsed body, or an exception (no response, or a body
      that is not JSON) carrying its message. */
  datatype Reply<+B> = Answered(status: nat, body: B) | Thrown(message: string)

  /** `response.ok`: a status in the 2xx range. */
  predicate Ok(status: nat) {
    200 <= status <= 299
  }

  /** The value of `new Date(raw)`. The widget stores it and never reads it. */
  datatype Instant = DateOf(raw: Option<string>)

  /** The widget's seven `useState` cells. */
  datatype State = State(
    responseData: Option<LaunchBody>,
    loading: bool,
    error: Option<string>,
    totpCode: Option<string>,
    totpExpiry: Option<Instant>,
    secondsRemaining: int,
    refreshingCode: bool)

  const Initial: State := State(None, false, None, None, None, 0, false)

  const RefreshDefaultError: string := "Failed to refresh verification code"
  const LaunchFailedPrefix: string := "Request failed: "

  function Max(a: int, b: int): int {
    if a < b then b else a
  }

  // ---------------------------------------------------------------- countdown

  /** The interval is installed only while `secondsRemaining` is truthy. */
  predicate TimerArmed(s: State) {
    s.secondsRemaining != 0
  }

  /** The functional update the interval applies to the previous count. */
  function CountdownStep(prev: int): (next: int)
    ensures next == Max(0, prev - 1)
    ensures next >= 0
    ensures prev >= 0 ==> next <= prev
    ensures prev > 0 ==> next == prev - 1
  {
    if prev <= 1 then 0 else prev - 1
  }

  /** One elapsed second. With no timer armed nothing happens. */
  function Tick(s: State): (t: State)
    ensures t.secondsRemaining == Max(0, s.secondsRemaining - 1)
    ensures t.secondsRemaining >= 0
    ensures t.(secondsRemaining := s.secondsRemaining) == s
    ensures s.secondsRemaining == 0 ==> t == s
  {
    if TimerArmed(s) then s.(secondsRemaining := CountdownStep(s.secondsRemaining)) else s
  }

  /** `k` elapsed seconds. */
  function Ticks(s: State, k: nat): State
    decreases k
  {
    if k == 0 then s else Ticks(Tick(s), k - 1)
  }

  /** From a non-negative count, `k` seconds take the count to `max(0, n - k)`
      and touch no other field. */
  lemma {:induction false} TicksCountDown(s: State, k: nat)
    requires s.secondsRemaining >= 0
    ensures Ticks(s, k).secondsRemaining == Max(0, s.secondsRemaining - k)
    ensures Ticks(s, k).(secondsRemaining := s.secondsRemaining) == s
    decreases k
  {
    if k > 0 {
      TicksCountDown(Tick(s), k - 1);
    }
  }

  /** A positive count `n` reaches 0 after exactly `n` seconds: not sooner,
      and it then stays at 0 because the timer is no longer armed. */
  lemma ExactlyNTicksExpire(s: State, k: nat)
    requires s.secondsRemaining > 0
    ensures k < s.secondsRemaining ==> Ticks(s, k).secondsRemaining > 0
    ensures k >= s.secondsRemaining ==> Ticks(s, k).secondsRemaining == 0
    ensures Ticks(s, s.secondsRemaining).secondsRemaining == 0
    ensures !TimerArmed(Ticks(s, s.secondsRemaining))
  {
    TicksCountDown(s, k);
    TicksCountDown(s, s.secondsRemaining);
  }

  // ------------------------------------------------------------------ refresh

  /** The guard of `refreshTotpCode`: a launch result with a truthy username. */
  predicate HasUsername(s: State) {
    s.responseData.Some? && Truthy(s.responseData.value.username)
  }

  /** The username a refresh posts, if the guard lets it through. */
  function RefreshRequest(s: State): (u: Option<string>)
    ensures u.Some? <==> HasUsername(s)
    ensures u.Some? ==> u.value != "" && Some(u.value) == s.responseData.value.username
  {
    if HasUsername(s) then s.responseData.value.username else None
  }

  /** `refreshTotpCode` up to its `await`: with no username it returns at
      once; otherwise it raises `refreshingCode` and nothing else. */
  function RefreshStart(s: State): (t: State)
    ensures !HasUsername(s) ==> t == s
    ensures HasUsername(s) ==> t.refreshingCode && t.(refreshingCode := s.refreshingCode) == s
  {
    if HasUsername(s) then s.(refreshingCode := true) else s
  }

  /** The message the refresh handler's `catch` stores. */
  function RefreshErrorMessage(reply: Reply<RefreshBody>): (m: string)
    requires reply.Thrown? || !Ok(reply.status)
    ensures reply.Thrown? ==> m == reply.message
    ensures reply.Answered? && Truthy(reply.body.error) ==> m == reply.body.error.value
    ensures reply.Answered? && !Truthy(reply.body.error) ==> m == RefreshDefaultError
  {
    match reply
    case Thrown(msg) => msg
    case Answered(_, b) => OrElse(b.error, RefreshDefaultError)
  }

  /** `refreshTotpCode` after its `await`, including the `finally`. */
  function RefreshFinish(s: State, reply: Reply<RefreshBody>): (t: State)
    ensures !t.refreshingCode
    ensures t.responseData == s.responseData && t.loading == s.loading
    ensures reply.Answered? && Ok(reply.status) ==>
      && t.totpCode == reply.body.code
      && t.totpExpiry == Some(DateOf(reply.body.expiryTime))
      && t.secondsRemaining == reply.body.secondsRemaining
      && t.error == s.error
    ensures !(reply.Answered? && Ok(reply.status)) ==>
      && t.error == Some(RefreshErrorMessage(reply))
      && t.totpCode == s.totpCode
      && t.totpExpiry == s.totpExpiry
      && t.secondsRemaining == s.secondsRemaining
  {
    match reply
    case Answered(status, b) =>
      if Ok(status) then
        s.(totpCode := b.code, totpExpiry := Some(DateOf(b.expiryTime)),
           secondsRemaining := b.secondsRemaining, refreshingCode := false)
      else
        s.(error := Some(OrElse(b.error, RefreshDefaultError)), refreshingCode := false)
    case Thrown(msg) =>
      s.(error := Some(msg), refreshingCode := false)
  }

  /** A successful refresh replaces the code wholesale: the result does not
      depend on the code, expiry or count held before. */
  lemma RefreshOverwritesCode(s1: State, s2: State, reply: Reply<RefreshBody>)
    requires reply.Answered? && Ok(reply.status)
    requires s1.(totpCode := s2.totpCode, totpExpiry := s2.totpExpiry,
                 secondsRemaining := s2.secondsRemaining) == s2
    ensures RefreshFinish(s1, reply) == RefreshFinish(s2, reply)
  {
  }

  // ------------------------------------------------------------------- launch

  /** `handleClick` up to its `await`: raise `loading`, clear `error`. */
  function LaunchStart(s: State): (t: State)
    ensures t.loading && t.error == None
    ensures t.(loading := s.loading, error := s.error) == s
  {
    s.(loading := true, error := None)
  }

  /** The message the launch handler's `catch` stores. */
  function LaunchErrorMessage(reply: Reply<LaunchBody>): (m: string)
    requires reply.Thrown? || !Ok(reply.status)
    ensures reply.Thrown? ==> m == reply.message
    ensures reply.Answered? && Truthy(reply.body.error) ==> m == reply.body.error.value
    ensures reply.Answered? && !Truthy(reply.body.error) ==>
      && m == LaunchFailedPrefix + Decimal.NatToString(reply.status)
      && Decimal.ParseDecimal(m[|LaunchFailedPrefix|..]) == reply.status
  {
    match reply
    case Thrown(msg) => msg
    case Answered(status, b) =>
      var fallback := LaunchFailedPrefix + Decimal.NatToString(status);
      assert fallback[|LaunchFailedPrefix|..] == Decimal.NatToString(status);
      Decimal.ParseNatToString(status);
      OrElse(b.error, fallback)
  }

  /** `handleClick` after its `await`, including the `finally`. */
  function LaunchFinish(s: State, reply: Reply<LaunchBody>): (t: State)
    ensures !t.loading
    ensures t.refreshingCode == s.refreshingCode
    ensures reply.Answered? && Ok(reply.status) ==>
      && t.responseData == Some(reply.body)
      && t.error == s.error
      && (Truthy(reply.body.totpCode) ==>
            && t.totpCode == reply.body.totpCode
            && t.totpExpiry == Some(DateOf(reply.body.totpExpiryTime))
            && t.secondsRemaining == reply.body.totpSecondsRemaining)
      && (!Truthy(reply.body.totpCode) ==>
            && t.totpCode == s.totpCode
            && t.totpExpiry == s.totpExpiry
            && t.secondsRemaining == s.secondsRemaining)
    ensures !(reply.Answered? && Ok(reply.status)) ==>
      && t.error == Some(LaunchErrorMessage(reply))
      && t.responseData == s.responseData
      && t.totpCode == s.totpCode
      && t.totpExpiry == s.totpExpiry
      && t.secondsRemaining == s.secondsRemaining
  {
    match reply
    case Answered(status, b) =>
      if Ok(status) then
        var withData := s.(responseData := Some(b));
        var withCode :=
          if Truthy(b.totpCode) then
            withData.(totpCode := b.totpCode, totpExpiry := Some(DateOf(b.totpExpiryTime)),
                      secondsRemaining := b.totpSecondsRemaining)
          else withData;
        withCode.(loading := false)
      else
        s.(error := Some(LaunchErrorMessage(reply)), loading := false)
    case Thrown(msg) =>
      s.(error := Some(msg), loading := false)
  }
}
