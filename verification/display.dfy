/** What the widget renders for a given state, reduced to the texts shown,
    the warning colour and whether each button is enabled. */
module Display {
  import opened JsValues
  import Decimal
  import opened Widget

  const LaunchIdleLabel: string := "Launch Lab Environment"
  const LaunchBusyLabel: string := "Launching Lab..."
  const RefreshIdleLabel: string := "Refresh Code"
  const RefreshBusyLabel: string := "Refreshing..."
  const ExpiredText: string := "Code expired - please refresh"
  const RemainingSuffix: string := "s remaining"
  const NoCodeText: string := "No verification code available. Click 'Refresh Code'."
  const ErrorPrefix: string := "Error: "

  /** The code area of the credentials panel. */
  datatype CodeArea =
    | CodeShown(code: string, timerText: string, warning: bool, progressPercent: real)
    | NoCode(prompt: string)

  /** The credentials panel, present once a launch has succeeded. */
  datatype Panel = Panel(
    username: string,
    password: string,
    refreshLabel: string,
    refreshEnabled: bool,
    codeArea: CodeArea)

  datatype Screen = Screen(
    launchLabel: string,
    launchEnabled: bool,
    panel: Option<Panel>,
    errorLine: Option<string>)

  /** The width of the progress bar, as a percentage of a 30-second cycle. */
  function ProgressPercent(n: int): (p: real)
    ensures 0 <= n <= 30 ==> 0.0 <= p <= 100.0
    ensures n == 30 ==> p == 100.0
    ensures n == 0 ==> p == 0.0
  {
    (n as real / 30.0) * 100.0
  }

  /** The bar is proportional to the count: each elapsed second shrinks it
      by a thirtieth of its full width, and `n` seconds by `n` thirtieths. */
  lemma {:induction false} ProgressShrinksPerSecond(n: int, k: nat)
    ensures ProgressPercent(n) - ProgressPercent(n - 1) == 100.0 / 30.0
    ensures ProgressPercent(n) - ProgressPercent(n - k) == (k as real) * (100.0 / 30.0)
    decreases k
  {
    if k > 0 {
      ProgressShrinksPerSecond(n - 1, k - 1);
    }
  }

  /** The timer line under the code. */
  function TimerText(n: int): (text: string)
    ensures n > 0 ==> |text| > |RemainingSuffix|
    ensures n > 0 ==> text[|text| - |RemainingSuffix|..] == RemainingSuffix
    ensures n > 0 ==> Decimal.AllDigits(text[..|text| - |RemainingSuffix|])
    ensures n > 0 ==> Decimal.ParseDecimal(text[..|text| - |RemainingSuffix|]) == n
    ensures n > 0 ==> text[0] != '0'
    ensures n <= 0 <==> text == ExpiredText
  {
    if n > 0 then
      var digits := Decimal.NatToString(n);
      Decimal.ParseNatToString(n);
      assert (digits + RemainingSuffix)[..|digits|] == digits;
      digits + RemainingSuffix
    else
      ExpiredText
  }

  function CodeAreaOf(s: State): CodeArea {
    if Truthy(s.totpCode) then
      CodeShown(s.totpCode.value, TimerText(s.secondsRemaining),
                s.secondsRemaining < 10, ProgressPercent(s.secondsRemaining))
    else
      NoCode(NoCodeText)
  }

  /** The rendered screen of a state. */
  function Render(s: State): (r: Screen)
    ensures r.launchEnabled <==> !s.loading
    ensures r.launchLabel == (if s.loading then LaunchBusyLabel else LaunchIdleLabel)
    ensures r.panel.Some? <==> s.responseData.Some?
    ensures r.panel.Some? ==>
      && r.panel.value.username == Shown(s.responseData.value.username)
      && r.panel.value.password == Shown(s.responseData.value.password)
      && (r.panel.value.refreshEnabled <==> !s.refreshingCode)
      && r.panel.value.refreshLabel == (if s.refreshingCode then RefreshBusyLabel else RefreshIdleLabel)
      && (r.panel.value.codeArea.CodeShown? <==> Truthy(s.totpCode))
    ensures r.panel.Some? && r.panel.value.codeArea.CodeShown? ==>
      && Some(r.panel.value.codeArea.code) == s.totpCode
      && (r.panel.value.codeArea.warning <==> s.secondsRemaining < 10)
      && (r.panel.value.codeArea.timerText == ExpiredText <==> s.secondsRemaining <= 0)
      && r.panel.value.codeArea.timerText == TimerText(s.secondsRemaining)
      && r.panel.value.codeArea.progressPercent == ProgressPercent(s.secondsRemaining)
    ensures r.panel.Some? && r.panel.value.codeArea.NoCode? ==>
      r.panel.value.codeArea.prompt == NoCodeText
    ensures r.errorLine.Some? <==> Truthy(s.error)
    ensures r.errorLine.Some? ==> r.errorLine.value == ErrorPrefix + s.error.value
  {
    var panel :=
      match s.responseData
      case None => None
      case Some(d) =>
        Some(Panel(Shown(d.username), Shown(d.password),
                   if s.refreshingCode then RefreshBusyLabel else RefreshIdleLabel,
                   !s.refreshingCode, CodeAreaOf(s)));
    Screen(if s.loading then LaunchBusyLabel else LaunchIdleLabel,
           !s.loading,
           panel,
           if Truthy(s.error) then Some(ErrorPrefix + s.error.value) else None)
  }

  /** While a code is shown with a positive count, the timer line reads back
      as that count followed by "s remaining". */
  lemma TimerLineShowsCount(s: State)
    requires s.responseData.Some? && Truthy(s.totpCode) && s.secondsRemaining > 0
    ensures var area := Render(s).panel.value.codeArea;
      && area.CodeShown?
      && var text := area.timerText;
      && text == Decimal.NatToString(s.secondsRemaining) + RemainingSuffix
      && |text| > |RemainingSuffix|
      && Decimal.ParseDecimal(text[..|text| - |RemainingSuffix|]) == s.secondsRemaining
  {
  }

  /** Once the countdown has run out, the code stays on screen but the timer
      line asks for a refresh; one more tick changes nothing. */
  lemma ExpiredAfterCountdown(s: State)
    requires s.responseData.Some? && Truthy(s.totpCode) && s.secondsRemaining > 0
    ensures var t := Ticks(s, s.secondsRemaining);
      && Render(t).panel.Some?
      && Render(t).panel.value.codeArea.CodeShown?
      && Render(t).panel.value.codeArea.code == s.totpCode.value
      && Render(t).panel.value.codeArea.timerText == ExpiredText
      && Render(t).panel.value.codeArea.warning
      && Tick(t) == t
  {
    TicksCountDown(s, s.secondsRemaining);
  }

  /** What the error line shows after a refresh completes. A failed HTTP
      answer always shows a non-empty message: the server's `error` field
      when it is non-empty, else the fixed default. A thrown exception shows
      its message unless that message is empty. A successful refresh leaves
      the error line as it was, so an earlier error stays on screen. */
  lemma RefreshErrorLine(s: State, reply: Reply<RefreshBody>)
    ensures reply.Answered? && !Ok(reply.status) ==>
      && Render(RefreshFinish(s, reply)).errorLine
         == Some(ErrorPrefix + OrElse(reply.body.error, RefreshDefaultError))
      && OrElse(reply.body.error, RefreshDefaultError) != ""
    ensures reply.Thrown? ==>
      (Render(RefreshFinish(s, reply)).errorLine.Some? <==> reply.message != "")
    ensures reply.Answered? && Ok(reply.status) ==>
      Render(RefreshFinish(s, reply)).errorLine == Render(s).errorLine
  {
  }

  /** What the error line shows after a launch completes. A failed HTTP
      answer always shows a non-empty message: the server's `error` field
      when it is non-empty, else "Request failed: " and the status. A thrown
      exception shows its message unless that message is empty. A successful
      launch leaves the error line as it was. */
  lemma LaunchErrorLine(s: State, reply: Reply<LaunchBody>)
    ensures reply.Answered? && !Ok(reply.status) ==>
      && Render(LaunchFinish(s, reply)).errorLine
         == Some(ErrorPrefix + OrElse(reply.body.error, LaunchFailedPrefix + Decimal.NatToString(reply.status)))
      && OrElse(reply.body.error, LaunchFailedPrefix + Decimal.NatToString(reply.status)) != ""
    ensures reply.Thrown? ==>
      (Render(LaunchFinish(s, reply)).errorLine.Some? <==> reply.message != "")
    ensures reply.Answered? && Ok(reply.status) ==>
      Render(LaunchFinish(s, reply)).errorLine == Render(s).errorLine
  {
  }
}
