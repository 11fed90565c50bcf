/** The Login screen's handler and its two footer links.  The handler sets
    `loading`, lets one hard-coded pair straight through to Home, and
    otherwise calls `loginUser` once: a truthy user goes to Home, a falsy one
    stays, a thrown error raises one alert; `loading` is cleared on every
    path. */
module LoginScreen {
  import opened Platform
  import opened AuthService

  /** The hard-coded pair that skips the service. */
  const BypassEmail: string := "test@example.com"
  const BypassPassword: string := "admin"

  const FailedTitle: string := "Login Failed"
  const FailedMessage: string := "Invalid credentials"

  predicate Bypass(email: string, password: string)
  {
    email == BypassEmail && password == BypassPassword
  }

  /** `loginUser` resolved to a truthy user. */
  predicate SignsIn(env: LoginEnv)
  {
    LoginResult(env).Ok? && Truthy(LoginResult(env).value)
  }

  /** What the handler does once `loginUser` has settled. */
  function AfterLogin(env: LoginEnv): (es: seq<Effect>)
    ensures es == [] || es == [Navigate(Home)] || es == [Alert(FailedTitle, FailedMessage)]
    ensures Navigate(Home) in es <==> SignsIn(env)
    ensures Alert(FailedTitle, FailedMessage) in es <==> LoginResult(env).Fail?
  {
    match LoginResult(env)
    case Ok(user) => if Truthy(user) then [Navigate(Home)] else []
    case Fail(_) => [Alert(FailedTitle, FailedMessage)]
  }

  /** The effects of one run of the handler, in order. */
  function HandleLoginEffects(email: string, password: string, env: LoginEnv): (es: seq<Effect>)
    ensures |es| >= 2 && es[0] == SetLoading(true) && es[|es| - 1] == SetLoading(false)
  {
    [SetLoading(true)]
    + (if Bypass(email, password) then [Navigate(Home)] else LoginEffects(email, password, env) + AfterLogin(env))
    + [SetLoading(false)]
  }

  /** The middle part of a run, between the two `loading` changes. */
  lemma Middle(email: string, password: string, env: LoginEnv) returns (mid: seq<Effect>)
    ensures HandleLoginEffects(email, password, env) == [SetLoading(true)] + mid + [SetLoading(false)]
    ensures Bypass(email, password) ==> mid == [Navigate(Home)]
    ensures !Bypass(email, password) ==> mid == LoginEffects(email, password, env) + AfterLogin(env)
  {
    mid := if Bypass(email, password) then [Navigate(Home)] else LoginEffects(email, password, env) + AfterLogin(env);
  }

  /** The bypass pair never calls the service; any other pair calls
      `loginUser(email, password)` exactly once. */
  lemma {:induction false} HandleLoginCalls(email: string, password: string, env: LoginEnv)
    ensures Calls(HandleLoginEffects(email, password, env))
         == if Bypass(email, password) then [] else [Post(LoginPath, LoginBody(email, password))]
  {
    var mid := Middle(email, password, env);
    Bracketed(mid, IsCall);
    if Bypass(email, password) {
      FilterNone(mid, IsCall);
    } else {
      LoginLogs(email, password, env);
      FilterAppend(LoginEffects(email, password, env), AfterLogin(env), IsCall);
      FilterNone(AfterLogin(env), IsCall);
    }
  }

  /** Only a thrown error raises an alert ("Login Failed" / "Invalid
      credentials"); a falsy user raises none. */
  lemma {:induction false} HandleLoginAlerts(email: string, password: string, env: LoginEnv)
    ensures Alerts(HandleLoginEffects(email, password, env))
         == if !Bypass(email, password) && LoginResult(env).Fail? then [Alert(FailedTitle, FailedMessage)] else []
  {
    var mid := Middle(email, password, env);
    FilterThree([SetLoading(true)], mid, [SetLoading(false)], IsAlert);
    if !Bypass(email, password) {
      LoginLogs(email, password, env);
      FilterAppend(LoginEffects(email, password, env), AfterLogin(env), IsAlert);
    }
  }

  /** The handler navigates at most once, and only ever to Home: on the
      bypass pair or on a truthy user. */
  lemma {:induction false} HandleLoginMoves(email: string, password: string, env: LoginEnv)
    ensures Moves(HandleLoginEffects(email, password, env))
         == if Bypass(email, password) || SignsIn(env) then [Navigate(Home)] else []
  {
    var mid := Middle(email, password, env);
    Bracketed(mid, IsMove);
    if Bypass(email, password) {
      FilterAll(mid, IsMove);
    } else {
      LoginLogs(email, password, env);
      FilterAppend(LoginEffects(email, password, env), AfterLogin(env), IsMove);
      AfterLoginMoves(env);
    }
  }

  /** Once `loginUser` has settled, the only navigation is to Home, on a truthy user. */
  lemma AfterLoginMoves(env: LoginEnv)
    ensures Moves(AfterLogin(env)) == if SignsIn(env) then [Navigate(Home)] else []
  {
    if SignsIn(env) {
      FilterAll(AfterLogin(env), IsMove);
    } else {
      FilterNone(AfterLogin(env), IsMove);
    }
  }

  /** `loading` goes true first and false last, and changes nowhere else. */
  lemma {:induction false} HandleLoginLoading(email: string, password: string, env: LoginEnv)
    ensures Loads(HandleLoginEffects(email, password, env)) == [SetLoading(true), SetLoading(false)]
  {
    var mid := Middle(email, password, env);
    FilterThree([SetLoading(true)], mid, [SetLoading(false)], IsLoading);
    if !Bypass(email, password) {
      LoginLogs(email, password, env);
      FilterAppend(LoginEffects(email, password, env), AfterLogin(env), IsLoading);
      FilterNone(AfterLogin(env), IsLoading);
    }
  }

  /** On a successful sign-in both tokens are written, in order, before the
      navigation to Home. */
  lemma SignInOrder(email: string, password: string, env: LoginEnv)
    requires !Bypass(email, password) && SignsIn(env)
    ensures HandleLoginEffects(email, password, env)
         == [SetLoading(true), Post(LoginPath, LoginBody(email, password)),
             SetItem(AccessKey, env.post.value.access), SetItem(RefreshKey, env.post.value.refresh),
             Navigate(Home), SetLoading(false)]
  {
  }

  /** `handleLogin` on the device. */
  method HandleLogin(d: Device, email: string, password: string, env: LoginEnv)
    requires d.Valid()
    modifies d
    ensures d.Valid() && !d.loading
    ensures d.trace == old(d.trace) + HandleLoginEffects(email, password, env)
    ensures d.store == if Bypass(email, password) then old(d.store) else LoginStore(old(d.store), env)
    ensures d.route == if Bypass(email, password) || SignsIn(env) then Home else old(d.route)
  {
    ghost var mid := Middle(email, password, env);
    ghost var before := d.trace;
    d.SetLoading(true);
    if email == BypassEmail && password == BypassPassword {
      d.Navigate(Home);
    } else {
      var result := LoginUser(d, email, password, env);
      ghost var called := d.trace;
      match result {
        case Ok(user) =>
          if Truthy(user) {
            d.Navigate(Home);
          }
        case Fail(_) =>
          d.Alert(FailedTitle, FailedMessage);
      }
      assert d.trace == called + AfterLogin(env);
    }
    assert d.trace == before + [SetLoading(true)] + mid;
    d.SetLoading(false);
  }

  /** The two footer links, "Create an account" and "Forgot Password?". */
  datatype Link = CreateAccount | ForgotPassword

  /** Both footer links navigate to Login. */
  method FollowLink(d: Device, link: Link)
    requires d.Valid()
    modifies d
    ensures d.Valid() && d.route == Login
    ensures d.trace == old(d.trace) + [Navigate(Login)]
    ensures d.store == old(d.store) && d.loading == old(d.loading)
  {
    match link
    case CreateAccount => d.Navigate(Login);
    case ForgotPassword => d.Navigate(Login);
  }
}
