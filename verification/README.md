# Lab-launch widget: credentials and one-time-code state machine

This project models `AzureFunctionButton`, the lab-launch widget in
`Lab_Function_Code/lab_launch_component_w_otp.js`. The widget has one button that
provisions a lab environment. It shows the returned username and password and an
MFA one-time code with a one-second countdown. A second button re-fetches the code.

The widget's seven `useState` cells become one immutable record, `Widget.State`.
Each event that changes the record is a pure function:

- `Tick` is the interval's one-second update.
- `LaunchStart` and `LaunchFinish` are the two halves of `handleClick`.
- `RefreshStart` and `RefreshFinish` are the two halves of `refreshTotpCode`.

Each `await fetch(...)` is an event boundary. The HTTP outcome arrives as a
`Reply` parameter: either `Answered(status, body)` or `Thrown(message)`.
`Thrown` stands for a network failure or a body that is not JSON.
`Display.Render` maps a state to what the user sees: the texts, the warning
colour and which buttons are enabled.

`Session` puts these together as a sequential event machine. A click reaches
its handler only while the button is rendered and not `disabled`. Each request
stays in flight until its reply event arrives. The timer fires only while
`secondsRemaining` is non-zero. On this machine the model proves:

- whatever the server sends, at most one launch and one refresh are ever in
  flight, and each busy flag is raised exactly while its request is;
- the countdown is never negative as long as no successful reply installs a
  negative count; a negative count installed by the server stays until the
  next second, which raises it to 0;
- between server-provided resets (a 2xx refresh, or a 2xx launch carrying a
  code) the countdown never rises above `max(0, n)`, and from a non-negative
  `n` it only falls; failed replies and code-less launches keep it running;
- the scenarios listed in the table below hold.

Modules: `JsValues` (absent values, string truthiness, `||` defaults, React
text), `Decimal` (printing an integral number, with its parser), `Widget`,
`Display`, `Session`.

Behaviours of the code that the model keeps as written:

- A failed refresh keeps the existing code, expiry and countdown (lines 67-68).
  It does not empty them.
- The handlers have no re-entrancy guard. Overlap is prevented only by the
  buttons' `disabled` attributes (lines 133 and 156). `Session` models that guard
  at the click, not inside the handlers.
- The launch request is a fixed object (lines 84-89). Nothing checks its
  fields, so the model has no such check.
- A refresh never clears `error`, and neither does a successful launch
  completion. Only the start of a launch clears it (line 77). So an old error
  message stays on screen next to a freshly fetched code.

## Model

| member | source | states |
|---|---|---|
| Decimal.NatToString | Lab_Function_Code/lab_launch_component_w_otp.js:104 | a printed status or count is at least one digit, all digits, with no leading zero; it is "0" exactly for 0 |
| Decimal.ParseNatToString | Lab_Function_Code/lab_launch_component_w_otp.js:104 | reading back a printed number gives the number |
| Decimal.NatToStringInjective | Lab_Function_Code/lab_launch_component_w_otp.js:181 | two counts print the same text exactly when they are equal |
| Widget.CountdownStep | Lab_Function_Code/lab_launch_component_w_otp.js:21-27 | the interval update maps `prev` to `max(0, prev - 1)`: never negative, never larger than a non-negative `prev`, exactly one less while positive |
| Widget.Tick | Lab_Function_Code/lab_launch_component_w_otp.js:17-31 | one second takes the count to `max(0, n - 1)` and changes no other field; at 0 the timer is not armed, so 0 is a fixed point |
| Widget.TicksCountDown | Lab_Function_Code/lab_launch_component_w_otp.js:18-27 | from a count `n >= 0`, `k` seconds give `max(0, n - k)` and change no other field |
| Widget.ExactlyNTicksExpire | Lab_Function_Code/lab_launch_component_w_otp.js:18-24 | from a positive `n`, the count is still positive after fewer than `n` seconds, is 0 after `n` or more, and the timer is then disarmed |
| Widget.RefreshRequest | Lab_Function_Code/lab_launch_component_w_otp.js:35-51 | a refresh posts a request exactly when a launch result with a non-empty username exists, and posts that username |
| Widget.RefreshStart | Lab_Function_Code/lab_launch_component_w_otp.js:34-39 | without a username the refresh changes nothing; with one it raises `refreshingCode` and changes nothing else |
| Widget.RefreshErrorMessage | Lab_Function_Code/lab_launch_component_w_otp.js:55-68 | a failed refresh reports the server's `error` field when it is non-empty, else "Failed to refresh verification code"; a thrown exception reports its own message |
| Widget.RefreshFinish | Lab_Function_Code/lab_launch_component_w_otp.js:55-71 | a successful refresh sets code, expiry and countdown to exactly the server's values and keeps the launch result, `loading` and `error`. A failed refresh sets `error` and keeps the code fields. Either way `refreshingCode` ends false |
| Widget.RefreshOverwritesCode | Lab_Function_Code/lab_launch_component_w_otp.js:62-66 | the state after a successful refresh does not depend on the code, expiry or countdown held before (the replacement is atomic, with no merging) |
| Widget.LaunchStart | Lab_Function_Code/lab_launch_component_w_otp.js:75-77 | a launch raises `loading`, clears `error`, and changes nothing else |
| Widget.LaunchErrorMessage | Lab_Function_Code/lab_launch_component_w_otp.js:101-121 | a failed launch reports the server's `error` field when it is non-empty, else "Request failed: " followed by the status, which reads back as that status; a thrown exception reports its own message |
| Widget.LaunchFinish | Lab_Function_Code/lab_launch_component_w_otp.js:101-124 | a successful launch stores the result. It replaces the three code fields only when the result's `totpCode` is non-empty, and otherwise keeps them. A failed launch sets `error` and keeps the result and code fields. Either way `loading` ends false and `refreshingCode` is untouched |
| Display.ProgressPercent | Lab_Function_Code/lab_launch_component_w_otp.js:171 | the bar width is within 0-100% for a count within a 30-second cycle: full at 30, empty at 0 |
| Display.ProgressShrinksPerSecond | Lab_Function_Code/lab_launch_component_w_otp.js:171 | the bar width is proportional to the count: each second removes a thirtieth of the full width, and `k` seconds remove `k` thirtieths |
| Display.TimerText | Lab_Function_Code/lab_launch_component_w_otp.js:179-183 | for a positive count the timer line is the count in decimal, with no leading zero and reading back as the count, followed by "s remaining"; it is "Code expired - please refresh" exactly when the count is not positive |
| Display.Render | Lab_Function_Code/lab_launch_component_w_otp.js:127-197 | launch enabled iff not loading; panel present iff a launch result exists; refresh enabled iff not refreshing; code shown iff `totpCode` is non-empty, else the "No verification code available" prompt; a shown code carries the timer line of its count and a bar of proportional width; warning colour iff count < 10; error line iff `error` is non-empty |
| Display.TimerLineShowsCount | Lab_Function_Code/lab_launch_component_w_otp.js:179-181 | while a code is shown with a positive count, the rendered timer line is the count in decimal followed by "s remaining", and its number reads back as the count |
| Display.RefreshErrorLine | Lab_Function_Code/lab_launch_component_w_otp.js:55-71 | after a failed HTTP refresh the error line is "Error: " and the server's `error` field or the fixed default, never empty; after a thrown exception it appears exactly when the message is non-empty; a successful refresh leaves the error line as it was |
| Display.LaunchErrorLine | Lab_Function_Code/lab_launch_component_w_otp.js:101-124 | after a failed HTTP launch the error line is "Error: " and the server's `error` field or "Request failed: " and the status, never empty; after a thrown exception it appears exactly when the message is non-empty; a successful launch leaves the error line as it was |
| Display.ExpiredAfterCountdown | Lab_Function_Code/lab_launch_component_w_otp.js:164-183 | after exactly `n` seconds a shown code stays on screen in the warning colour with the expired text, and further seconds change nothing |
| Session.Step | Lab_Function_Code/lab_launch_component_w_otp.js:130-161 | a launch click while loading does nothing. A refresh click while refreshing or without a username does nothing. Otherwise a launch click runs the launch start, and a refresh click runs the refresh start and sends a request exactly when a username is known. An elapsed second is one tick and touches nothing else. A reply runs its completion and retires its request; a reply with no request in flight changes nothing. Clicks leave the countdown as it is, and no non-reply event changes the code or the launch result |
| Session.StepInFlight | Lab_Function_Code/lab_launch_component_w_otp.js:130-161 | every event, whatever the server replies, keeps at most one request of each kind in flight, with `loading`/`refreshingCode` raised exactly while it is in flight |
| Session.RunInFlight | Lab_Function_Code/lab_launch_component_w_otp.js:130-161 | the in-flight invariant holds after any sequence of events |
| Session.ReachableInFlight | Lab_Function_Code/lab_launch_component_w_otp.js:6-14 | every state reachable from the freshly mounted widget satisfies the in-flight invariant |
| Session.StepCountNonNegative | Lab_Function_Code/lab_launch_component_w_otp.js:62-66 | from a non-negative count, only a successful reply installing a negative value leaves the count negative; an elapsed second always leaves it non-negative |
| Session.RunCountNonNegative | Lab_Function_Code/lab_launch_component_w_otp.js:17-31 | starting from a non-negative count, the count stays non-negative along any sequence of events in which no successful reply installs a negative count |
| Session.CountdownBetweenReplies | Lab_Function_Code/lab_launch_component_w_otp.js:17-31 | with no server reply in between, the count is unchanged until the first elapsed second and is `max(0, n - k)` after `k >= 1` seconds. It never rises above `max(0, n)`: a negative count rises to 0 at the first second. From a non-negative count it only falls. The code and launch result stay the same |
| Session.CountdownBetweenResets | Lab_Function_Code/lab_launch_component_w_otp.js:17-119 | with no server-provided reset in between (failed refreshes and launches, and 2xx launches without a code, are allowed), the count is unchanged until the first elapsed second and is `max(0, n - k)` after `k >= 1` seconds; it never rises above `max(0, n)`, only falls from a non-negative `n`, and the code stays the same |
| Session.ScenarioFailedRefreshKeepsCounting | Lab_Function_Code/lab_launch_component_w_otp.js:67-68 | with 5 seconds left, a second, a failed refresh and another second leave 3 |
| Session.RunSeconds | Lab_Function_Code/lab_launch_component_w_otp.js:20-28 | `n` elapsed seconds in a row act on the widget state as `n` ticks and leave the request counters alone |
| Session.ScenarioLaunchShowsCode | Lab_Function_Code/lab_launch_component_w_otp.js:109-119 | a 200 launch carrying code "123456" and 30 seconds shows the credentials and the code with "30s remaining" |
| Session.ScenarioCodeExpires | Lab_Function_Code/lab_launch_component_w_otp.js:164-183 | that code shows "1s remaining" 29 seconds later and the expired text after 30 seconds |
| Session.ScenarioLaunchThenExpire | Lab_Function_Code/lab_launch_component_w_otp.js:17-31 | the launch followed by 30 seconds ends showing the code with the expired text |
| Session.ScenarioLaunchServerError | Lab_Function_Code/lab_launch_component_w_otp.js:101-105 | a 500 launch with `{"error": "quota exceeded"}` shows exactly "Error: quota exceeded", no panel and no code |
| Session.ScenarioRefreshWithoutUsername | Lab_Function_Code/lab_launch_component_w_otp.js:35-37 | a refresh click before any launch result, or after one without a username, changes nothing and sends nothing |
| Session.ScenarioDoubleRefresh | Lab_Function_Code/lab_launch_component_w_otp.js:153-157 | two refresh clicks in a row send exactly one request |

## Left out

- `fetch`, the endpoint URLs, request headers and the fixed launch request body (lines 42-53, 80-99) are I/O. Each HTTP outcome is a `Reply` event parameter.
- JSON parsing is not modelled. A body is a record of the fields the widget reads. A body that is not JSON becomes a `Thrown` reply. A 2xx launch body that is not an object (`null`, `false`, `0`, `""`) is not modelled: the code would store it, hide the panel behind `responseData &&` (line 139), block refresh at line 35, and for `null` throw at `result.totpCode`; the model always takes a success body to be an object.
- Decimal.NatToString: prints every natural number in plain decimal. JavaScript does so for an integral `Number` only below 10^21 and switches to exponent form above; statuses and counts are far below that bound, so it is not modelled.
- Widget.CountdownStep: subtracts exactly on unbounded integers. JavaScript's `prev - 1` is exact only below 2^53; counts are far below that bound, so it is not modelled.
- Numeric fields are integers. `secondsRemaining` values that are absent, fractional, `NaN` or strings are not modelled. A negative server value is modelled; one tick takes it to 0.
- Strings are modelled as present or absent. Non-string JSON values in the `error`, `code` or `username` fields, and their truthiness, are not modelled.
- React hooks, `setInterval`/`clearInterval`, effect cleanup and render batching (lines 17-31) belong to the runtime. Only the tick and the "armed while non-zero" condition are modelled. Each event is taken to see the state re-rendered after the previous one.
- `new Date(...)` (lines 65, 117) is kept as the opaque value `DateOf(raw)`, because nothing reads `totpExpiry`.
- The progress bar width is a `real` percentage (line 171). The CSS string is not modelled.
- Style objects (lines 201-293) and `addPropertyControls` (lines 296-298) are presentational.
- Replies that arrive after the widget is unmounted are not modelled. Unmounting is outside this model.
- `Lab_Function_Code/supabase_code_component.js` is not part of this model. Its only local logic is copying the session user into state; the email and password fields are plain form state, and sign-in and sign-out are calls to the Supabase client whose outcome is only logged.
- `Lab_Function_Code/Button_Override.js` is not part of this model. It sends one POST and logs the outcome, and keeps no state.
