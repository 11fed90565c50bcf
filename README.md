# NexEvent session and paragraph model

A Dafny model of the two parts of the NexEvent mobile client that carry
logic: the paragraph normaliser of the event-details screen, and the
login / registration / logout flow with its token storage and navigation.

**Paragraphs** (`paragraphs.dfy`) models `formatContent` as a pure function
from a string to its paragraphs. It runs three global replacements in
source order, each a single left-to-right, non-overlapping pass. First every
literal backslash + `r` is removed. Then every literal backslash + `n`
becomes a line feed. Then every real CR LF becomes a line feed. The result
is split on line feed and each piece is trimmed. The trim predicate is a
parameter; `IsEcmaTrimmable` is the WhiteSpace and LineTerminator set that
ECMAScript's `String.prototype.trim` strips. A paragraph's render key is its
index in the result.

**Session** (`runtime.dfy`, `auth_service.dfy`, `login_screen.dfy`,
`register_screen.dfy`, `app.dfy`) models the running app as one `Device`
object. Its fields are the key-value store (AsyncStorage) as a
`map<string, string>`, the navigator's current route, the running screen's
`loading` flag, and one ordered trace of outside effects: posts, storage
calls, alerts, navigations and `loading` changes. The service-call log
(`Calls`), the alert log (`Alerts`), the storage log (`Writes`), the
navigation log (`Moves`) and the `loading` log (`Loads`) are projections of
that one trace, so orderings across them can be stated. Every handler is a
method on the device. Its contract ties the new fields to pure functions of
the inputs (the effects it emits, the store it leaves), and lemmas state the
source's promises about those functions. How a post, a storage write or the
logout prompt settles is a parameter of the handler (`LoginEnv`,
`RegisterEnv`, `LogoutEnv`); nothing performs real I/O.

Behaviours of the code a reader might not expect:
- Blank lines are kept as empty paragraphs rather than collapsed
  (`BlankLineKept`).
- The navigator registers only Login and Home, not Register or
  EventDetails, and a navigation to an unregistered screen is ignored.
- The "Create an account" link navigates to Login, not to a registration
  screen (`LoginScreen.FollowLink`).
- Tokens are not all-or-nothing: a failed refresh-token write keeps the
  access token already written (`AuthService.LoginStore`). The bypass pair
  reaches Home without storing tokens.

## Model

| member | source | states |
|---|---|---|
| Paragraphs.ReplaceAll | screens/EventDetailsScreen.js:17-19 | a global replace by text no longer than the pattern never lengthens the text; replacing a pattern by itself changes nothing |
| Paragraphs.RemoveEscapedCr | screens/EventDetailsScreen.js:17 | deleting backslash + `r` never lengthens the text, and text without a backslash is unchanged |
| Paragraphs.UnescapeLf | screens/EventDetailsScreen.js:18 | after the pass no backslash + `n` is left; the text does not grow; text without a backslash is unchanged |
| Paragraphs.CrLfToLf | screens/EventDetailsScreen.js:19 | the CR LF pass keeps the number of line feeds, never lengthens the text, and leaves text without CR unchanged |
| Paragraphs.ReplaceKeepsCount | screens/EventDetailsScreen.js:19 | replacing a pattern that holds a character once by that character alone keeps that character's count |
| Paragraphs.Normalize | screens/EventDetailsScreen.js:16-19 | the three passes in source order leave no backslash + `n`, never lengthen the text, and leave text without backslash and CR unchanged |
| Paragraphs.IsEcmaTrimmable | screens/EventDetailsScreen.js:23 | line feed, CR, space and tab are stripped by `trim()`; letters, digits and the backslash never are |
| Paragraphs.Split | screens/EventDetailsScreen.js:20 | split on one character gives one more piece than there are separators; no piece holds the separator; the first piece is a prefix of the text |
| Paragraphs.JoinSplit | screens/EventDetailsScreen.js:20 | joining the pieces of a split with the separator gives the text back |
| Paragraphs.SplitJoin | screens/EventDetailsScreen.js:20 | splitting separator-free pieces joined by the separator gives the pieces back |
| Paragraphs.SplitWithoutSeparator | screens/EventDetailsScreen.js:20 | text without the separator is a single piece |
| Paragraphs.LeadingSpaces | screens/EventDetailsScreen.js:23 | the leading run of spaces is all spaces and is maximal |
| Paragraphs.TrailingSpaces | screens/EventDetailsScreen.js:23 | the trailing run of spaces is all spaces and is maximal |
| Paragraphs.Trim | screens/EventDetailsScreen.js:23 | the trimmed text neither starts nor ends with a space |
| Paragraphs.TrimCutsSpaces | screens/EventDetailsScreen.js:23 | trim keeps a contiguous middle slice of the text and cuts off only spaces at either end |
| Paragraphs.TrimTrimmed | screens/EventDetailsScreen.js:23 | trim leaves text without spaces at its ends unchanged |
| Paragraphs.TrimIdempotent | screens/EventDetailsScreen.js:23 | trimming twice is the same as trimming once |
| Paragraphs.Lines | screens/EventDetailsScreen.js:17-20 | the untrimmed pieces number one more than the line feeds of the normalised text |
| Paragraphs.TrimEach | screens/EventDetailsScreen.js:21-25 | mapping trim keeps the count and the order and trims each piece |
| Paragraphs.FormatContent | screens/EventDetailsScreen.js:15-26 | one paragraph per line feed of the normalised text plus one; paragraph i is line i trimmed; no paragraph holds a line feed or starts or ends with a space |
| Paragraphs.LinesRoundTrip | screens/EventDetailsScreen.js:17-21 | joining the untrimmed pieces with line feed gives the normalised text back, in source order |
| Paragraphs.EmptyText | screens/EventDetailsScreen.js:16-20 | the empty text gives exactly one empty paragraph |
| Paragraphs.ReplaceAbsent | screens/EventDetailsScreen.js:17-19 | a pass changes nothing when a character of the pattern never occurs |
| Paragraphs.ReplaceSkipsPlain | screens/EventDetailsScreen.js:17-19 | no match starts inside a prefix that lacks the pattern's first character |
| Paragraphs.ReplaceRemovesPair | screens/EventDetailsScreen.js:18 | replacing every two-character pair by a third character leaves no such pair |
| Paragraphs.ReplaceKeepsPairFree | screens/EventDetailsScreen.js:19 | the CR LF pass creates no backslash + `n` pair |
| Paragraphs.SplitKeepsPairFree | screens/EventDetailsScreen.js:20 | splitting creates no backslash + `n` pair |
| Paragraphs.TrimKeepsPairFree | screens/EventDetailsScreen.js:23 | trimming creates no backslash + `n` pair |
| Paragraphs.NoEscapedLfSurvives | screens/EventDetailsScreen.js:18-23 | no paragraph holds a backslash followed by `n` |
| Paragraphs.PlainTextLines | screens/EventDetailsScreen.js:17-20 | text without backslashes or CRs is left alone by all three passes and split at its line feeds |
| Paragraphs.FormatsLines | screens/EventDetailsScreen.js:20-23 | when the normalised text is separator-free lines joined by line feed, the paragraphs are exactly those lines, trimmed |
| Paragraphs.FormatsAs | screens/EventDetailsScreen.js:20-23 | when those lines are also trimmed, the paragraphs are exactly the lines |
| Paragraphs.EscapedCrLfIsOneBreak | screens/EventDetailsScreen.js:17-20 | a literal backslash-r backslash-n between plain texts gives exactly two paragraphs, because the removal of backslash-r runs first |
| Paragraphs.RealCrLfIsOneBreak | screens/EventDetailsScreen.js:19-20 | a real CR LF between plain texts gives exactly two paragraphs |
| Paragraphs.LoneCrIsNoBreak | screens/EventDetailsScreen.js:19-20 | a CR that is not followed by LF is no split point: one paragraph |
| Paragraphs.EscapedLfTwice | screens/EventDetailsScreen.js:18 | two escaped line feeds in a row become two line feeds |
| Paragraphs.BlankLineKeptAt | screens/EventDetailsScreen.js:17-23 | escaped CR LF, then two escaped LFs, between plain texts: four paragraphs, the third empty |
| Paragraphs.BlankLineKeptTrimmed | screens/EventDetailsScreen.js:17-23 | the same with already-trimmed texts gives exactly those texts around one empty paragraph |
| Paragraphs.BlankLineKept | screens/EventDetailsScreen.js:17-23 | `Line1\r\nLine2\n\nLine3` (escaped) gives `["Line1", "Line2", "", "Line3"]` under the ECMAScript trim set |
| Paragraphs.RemovalIsSinglePass | screens/EventDetailsScreen.js:17 | backslash, backslash, r, r becomes backslash, r: the removal is one pass, and that backslash-r reaches the paragraph |
| Paragraphs.RemovalBeforeConversion | screens/EventDetailsScreen.js:17-18 | backslash, backslash, r, n becomes an escaped line feed and then a break: two empty paragraphs |
| Platform.FalsyValues | screens/LoginScreen.js:31 | `Platform.Truthy`, the `if (user)` test: the values it rejects are exactly undefined, null, false, 0 and the empty string; every object is accepted |
| Platform.Device.constructor | App.js:46 | the app starts on the Login screen whatever the store holds |
| Platform.Device.Navigate | App.js:46-62 | navigation changes the route only to a screen the navigator registers (Login, Home) |
| Platform.Device.SetItem | services/authService.js:16-17 | a successful write sets that one key; a failed write leaves the store unchanged |
| Platform.Device.RemoveItem | App.js:30-31 | a successful removal drops that one key; a failed removal leaves the store unchanged |
| Platform.Device.Post | services/authService.js:8-11 | a post appends itself to the trace and leaves store, route and `loading` alone |
| Platform.Device.Alert | screens/LoginScreen.js:35 | an alert appends itself to the trace and leaves store, route and `loading` alone |
| Platform.Device.Replace | App.js:33 | `replace` changes the route only to a registered screen, and leaves store and `loading` alone |
| Platform.Device.SetLoading | screens/LoginScreen.js:24 | `setLoading` sets the flag to its argument and leaves store and route alone |
| AuthService.LoginBody | services/authService.js:8-11 | the login body holds exactly `email` and `password` |
| AuthService.RegisterBody | services/authService.js:29-33 | the registration body holds exactly `username`, `email` and `password` |
| AuthService.LoginResult | services/authService.js:13-22 | login resolves exactly when the post and both writes succeed, to the response's `user` unchanged; otherwise it throws the first error unchanged |
| AuthService.LoginEffects | services/authService.js:8-17 | the post comes first; a failed post is the only effect; otherwise the access-token write, then the refresh-token write unless the first write failed; only the two token keys are written |
| AuthService.LoginStore | services/authService.js:13-22 | every key other than the two token keys is unchanged; a failed post or failed first write leaves the store as it was; the access token stays when the refresh write fails (no rollback) |
| AuthService.LoginLogs | services/authService.js:8-17 | one login post, with the credentials; the storage log is the token writes; no alert, navigation or `loading` change |
| AuthService.LoginUser | services/authService.js:6-24 | the call returns `LoginResult`, leaves `LoginStore`, appends `LoginEffects`, and leaves route and `loading` alone |
| AuthService.RegisterEffects | services/authService.js:29-33 | one registration post, with username, email and password, and no storage call or alert |
| AuthService.RegisterUser | services/authService.js:27-40 | the call returns the post's data or rethrows its error unchanged, and leaves store, route and `loading` alone |
| LoginScreen.AfterLogin | screens/LoginScreen.js:30-35 | navigation to Home exactly on a truthy user; the "Login Failed" alert exactly on a thrown error; nothing on a falsy user |
| LoginScreen.HandleLoginEffects | screens/LoginScreen.js:23-40 | the run starts by setting `loading` and ends by clearing it |
| LoginScreen.HandleLoginCalls | screens/LoginScreen.js:25-30 | the bypass pair calls no service; any other pair calls `loginUser(email, password)` exactly once |
| LoginScreen.HandleLoginAlerts | screens/LoginScreen.js:31-35 | the only alert is "Login Failed" / "Invalid credentials", raised exactly when `loginUser` throws |
| LoginScreen.HandleLoginMoves | screens/LoginScreen.js:25-33 | the handler navigates at most once, only to Home, exactly on the bypass pair or a truthy user |
| LoginScreen.HandleLoginLoading | screens/LoginScreen.js:24-37 | `loading` is set first, cleared last, and changed nowhere else, on every path |
| LoginScreen.SignInOrder | screens/LoginScreen.js:28-33 | on a successful sign-in the trace is: loading on, post, access write, refresh write, navigate Home, loading off |
| LoginScreen.AfterLoginMoves | screens/LoginScreen.js:31-33 | after `loginUser` settles, the only navigation is one to Home, made exactly on a truthy user |
| LoginScreen.HandleLogin | screens/LoginScreen.js:23-40 | `loading` ends false; the store is untouched on the bypass path and is `LoginStore` otherwise; the route becomes Home exactly on the bypass pair or a truthy user |
| LoginScreen.FollowLink | screens/LoginScreen.js:122-129 | both footer links navigate to Login and change nothing else |
| RegisterScreen.AfterLogin | screens/RegisterScreen.js:39-47 | after the automatic login: Home exactly on a truthy user; the "Registration Failed" alert exactly when the login throws |
| RegisterScreen.AfterRegister | screens/RegisterScreen.js:37-47 | a failed registration gives only the failure alert; a successful one gives the success alert, then the login effects, then the reaction to the login |
| RegisterScreen.HandleRegisterEffects | screens/RegisterScreen.js:28-51 | the run starts by setting `loading` and ends by clearing it; on a password mismatch the mismatch alert is its only other effect |
| RegisterScreen.HandleRegisterCalls | screens/RegisterScreen.js:30-39 | a mismatch calls no service; otherwise `registerUser(username, email, password)` once, and `loginUser(email, password)` once only after registration succeeds; the confirmation is never sent |
| RegisterScreen.AfterRegisterCalls | screens/RegisterScreen.js:37-39 | once `registerUser` has settled, the only call is `loginUser(email, password)`, made exactly when registration succeeded |
| RegisterScreen.HandleRegisterAlerts | screens/RegisterScreen.js:30-47 | alerts are the mismatch alert alone, or the failure alert alone, or the success alert followed by the failure alert exactly when the login throws |
| RegisterScreen.SuccessBeforeLogin | screens/RegisterScreen.js:37-39 | after a successful registration the success alert comes before the login post |
| RegisterScreen.HandleRegisterMoves | screens/RegisterScreen.js:39-42 | the handler navigates at most once, only to Home, exactly when registration succeeds and the login returns a truthy user |
| RegisterScreen.AfterRegisterMoves | screens/RegisterScreen.js:37-42 | once `registerUser` has settled, the only navigation is one to Home, made exactly when registration succeeded and the login returns a truthy user |
| RegisterScreen.AfterRegisterLoads | screens/RegisterScreen.js:37-47 | once `registerUser` has settled, `loading` is not changed |
| RegisterScreen.HandleRegisterLoading | screens/RegisterScreen.js:29-49 | `loading` is set first, cleared last, and changed nowhere else, on every path |
| RegisterScreen.HandleRegisterStore | screens/RegisterScreen.js:30-47 | only the token keys can change; a mismatch or a failed registration leaves the store as it was; otherwise it is what the login leaves |
| RegisterScreen.SignInAfterRegister | screens/RegisterScreen.js:38-42 | the rest of the `try` block appends `AfterRegister`, leaves `LoginStore`, and goes Home exactly on a truthy user |
| RegisterScreen.RegisterAndSignIn | screens/RegisterScreen.js:36-47 | appends `RegisterEffects` then `AfterRegister`; the store is `LoginStore` after a successful registration and unchanged otherwise; Home exactly when registration succeeds and the login returns a truthy user |
| RegisterScreen.CheckAndRegister | screens/RegisterScreen.js:30-47 | appends the mismatch alert alone, or the `try` block's effects; the store is `HandleRegisterStore`; Home exactly when the whole sequence completes; `loading` is not touched |
| RegisterScreen.HandleRegister | screens/RegisterScreen.js:28-51 | `loading` ends false; the store is `HandleRegisterStore`; the route becomes Home exactly when the whole sequence completes |
| App.HandleLogoutEffects | App.js:15-42 | the prompt comes first; Cancel adds nothing; a full OK is prompt, remove access token, remove refresh token, replace with Login; a failed removal ends with "Logout failed:" and its message |
| App.LogoutWrites | App.js:28-31 | only the two token keys are removed, access token first, the second only after the first succeeded |
| App.LogoutMoves | App.js:28-35 | the only navigation is the replace with Login, exactly when both removals succeed |
| App.LogoutAlerts | App.js:17-35 | the prompt, then the "Logout failed:" alert exactly when a removal fails |
| App.LogoutStore | App.js:21-35 | every other key is unchanged; Cancel or a failed first removal changes nothing; a removal that succeeded may stand when the next fails |
| App.LoginThenLogout | App.js:27-33 | a login whose writes succeed followed by a completed logout leaves the original store less the two token keys |
| App.HandleLogout | App.js:15-62 | reachable only from Home; appends `HandleLogoutEffects`, leaves `LogoutStore`, and ends on Login exactly when both removals succeed, otherwise stays on Home |

## Left out

- JSX rendering, styles, icons, focus and password-visibility toggles, and the `<Text key={index}>` wrapper around each paragraph.
- The event-details fetch, `formatDate`, the dummy event-registration alert and the Home screen: network plus locale-dependent date formatting.
- The HTTP client configuration (base URL, headers): a foreign library; only the posted path and body are modelled.
- `console.error` logging: it has no effect the app observes.
- Real network and storage calls: their outcomes are parameters of each handler.
- Async interleaving, unmount races and the button's `disabled={loading}` guard against a second press: each handler is one sequential run.
- The navigation stack: only the current route is modelled, so `navigate` and `replace` differ only in the trace.
- The Register screen is not registered with the navigator, so nothing reaches `handleRegister`. It is modelled as if its screen were mounted. The device never shows the `Register` route, because no modelled navigation targets it, so the `Registered` guard in `Device.Navigate` and `Device.Replace` never rejects a route a caller produces. `HandleRegister` runs while the device shows Login or Home.
- `loading`: the Login and Register screens each keep their own flag; the model keeps one flag for the running screen.
- The buttons and `cancelable: false` of the logout prompt: the button pressed is the `Choice` parameter.
- JavaScript numbers: `Platform.Value` uses integers, so the falsy `NaN` is not modelled.
- The token fields are taken to be strings. A response whose `access` or `refresh` is missing appears only as a failed write.
- Strings are sequences of Unicode scalar values, not UTF-16 code units. No character of the trim set is a surrogate, so trimming is unaffected.
- FormatContent: the argument is taken to be a string. `formatContent` receives `event.description` and `event.terms_and_conditions` straight from the server response, and on a null or missing field `text.replace` throws during render; that error path is not modelled.
