/** The Register screen's handler: it sets `loading`, stops early with an
    alert when the two passwords differ, and otherwise registers, announces
    success, logs in with the same email and password, and goes to Home on a
    truthy user.  Any error thrown by either call ends in one "Registration
    Failed" alert.  `loading` is cleared on every path. */
module RegisterScreen {
  import opened Platform
  import opened AuthService
  import LoginScreen

  const MismatchTitle: string := "Error"
  const MismatchMessage: string := "Passwords do not match"
  const SuccessTitle: string := "Success"
  const SuccessMessage: string := "Registration successful"
  const FailedTitle: string := "Registration Failed"
  const FailedMessage: string := "An error occurred during registration"

  /** How the `registerUser` post settles, and how the automatic login that
      follows a successful registration settles. */
  datatype RegisterEnv = RegisterEnv(register: Outcome<Value>, login: LoginEnv)

  /** Registration succeeded, and the automatic login resolved to a truthy user. */
  predicate Completes(password: string, confirmPassword: string, env: RegisterEnv)
  {
    password == confirmPassword && env.register.Ok? && LoginScreen.SignsIn(env.login)
  }

  /** What the handler does once the automatic login has settled. */
  function AfterLogin(env: LoginEnv): (es: seq<Effect>)
    ensures es == [] || es == [Navigate(Home)] || es == [Alert(FailedTitle, FailedMessage)]
    ensures Navigate(Home) in es <==> LoginScreen.SignsIn(env)
    ensures Alert(FailedTitle, FailedMessage) in es <==> LoginResult(env).Fail?
  {
    match LoginResult(env)
    case Ok(user) => if Truthy(user) then [Navigate(Home)] else []
    case Fail(_) => [Alert(FailedTitle, FailedMessage)]
  }

  /** What the handler does once `registerUser` has settled. */
  function AfterRegister(email: string, password: string, env: RegisterEnv): (es: seq<Effect>)
    ensures env.register.Fail? ==> es == [Alert(FailedTitle, FailedMessage)]
    ensures env.register.Ok? ==>
      es == [Alert(SuccessTitle, SuccessMessage)] + LoginEffects(email, password, env.login) + AfterLogin(env.login)
  {
    match env.register
    case Fail(_) => [Alert(FailedTitle, FailedMessage)]
    case Ok(_) => [Alert(SuccessTitle, SuccessMessage)] + LoginEffects(email, password, env.login) + AfterLogin(env.login)
  }

  /** The effects of one run of the handler, in order. */
  function HandleRegisterEffects(username: string, email: string, password: string, confirmPassword: string,
                                 env: RegisterEnv): (es: seq<Effect>)
    ensures |es| >= 3 && es[0] == SetLoading(true) && es[|es| - 1] == SetLoading(false)
    ensures password != confirmPassword ==>
      es == [SetLoading(true), Alert(MismatchTitle, MismatchMessage), SetLoading(false)]
  {
    [SetLoading(true)] + RegisterSteps(username, email, password, confirmPassword, env) + [SetLoading(false)]
  }

  /** What happens between the two `loading` changes: the mismatch alert, or
      the registration and what follows it. */
  function RegisterSteps(username: string, email: string, password: string, confirmPassword: string,
                         env: RegisterEnv): seq<Effect>
  {
    if password != confirmPassword then [Alert(MismatchTitle, MismatchMessage)]
    else RegisterEffects(username, email, password) + AfterRegister(email, password, env)
  }

  /** The middle part of a run, between the two `loading` changes. */
  lemma Middle(username: string, email: string, password: string, confirmPassword: string, env: RegisterEnv)
    returns (mid: seq<Effect>)
    ensures HandleRegisterEffects(username, email, password, confirmPassword, env)
         == [SetLoading(true)] + mid + [SetLoading(false)]
    ensures password != confirmPassword ==> mid == [Alert(MismatchTitle, MismatchMessage)]
    ensures password == confirmPassword ==>
      mid == RegisterEffects(username, email, password) + AfterRegister(email, password, env)
  {
    mid := RegisterSteps(username, email, password, confirmPassword, env);
  }

  /** The logs of `AfterRegister`, split into its three parts. */
  lemma AfterRegisterLogs(email: string, password: string, env: RegisterEnv, keep: Effect -> bool)
    requires env.register.Ok?
    ensures Filter(AfterRegister(email, password, env), keep)
         == Filter([Alert(SuccessTitle, SuccessMessage)], keep)
          + Filter(LoginEffects(email, password, env.login), keep)
          + Filter(AfterLogin(env.login), keep)
  {
    FilterThree([Alert(SuccessTitle, SuccessMessage)], LoginEffects(email, password, env.login), AfterLogin(env.login), keep);
  }

  /** On a mismatch no service is called; otherwise `registerUser` is called
      once, with the username, email and password (never the confirmation),
      and only after it succeeds `loginUser` once, with the same email and
      password. */
  lemma {:induction false} HandleRegisterCalls(username: string, email: string, password: string,
                                               confirmPassword: string, env: RegisterEnv)
    ensures Calls(HandleRegisterEffects(username, email, password, confirmPassword, env))
         == if password != confirmPassword then [] else
              [Post(RegisterPath, RegisterBody(username, email, password))]
              + (if env.register.Ok? then [Post(LoginPath, LoginBody(email, password))] else [])
  {
    var mid := Middle(username, email, password, confirmPassword, env);
    Bracketed(mid, IsCall);
    if password == confirmPassword {
      FilterAppend(RegisterEffects(username, email, password), AfterRegister(email, password, env), IsCall);
      AfterRegisterCalls(email, password, env);
    }
  }

  /** After `registerUser` settles, the only call is the automatic login, and
      only when registration succeeded. */
  lemma AfterRegisterCalls(email: string, password: string, env: RegisterEnv)
    ensures Calls(AfterRegister(email, password, env))
         == if env.register.Ok? then [Post(LoginPath, LoginBody(email, password))] else []
  {
    if env.register.Ok? {
      AfterRegisterLogs(email, password, env, IsCall);
      LoginLogs(email, password, env.login);
    }
  }

  /** The alert log: the mismatch alert alone; or the failure alert alone
      when registration fails; or the success alert, followed by the failure
      alert only when the automatic login throws. */
  lemma {:induction false} HandleRegisterAlerts(username: string, email: string, password: string,
                                                confirmPassword: string, env: RegisterEnv)
    ensures Alerts(HandleRegisterEffects(username, email, password, confirmPassword, env))
         == if password != confirmPassword then [Alert(MismatchTitle, MismatchMessage)]
            else if env.register.Fail? then [Alert(FailedTitle, FailedMessage)] else
              [Alert(SuccessTitle, SuccessMessage)]
              + (if LoginResult(env.login).Fail? then [Alert(FailedTitle, FailedMessage)] else [])
  {
    var mid := Middle(username, email, password, confirmPassword, env);
    Bracketed(mid, IsAlert);
    if password == confirmPassword {
      var ar := AfterRegister(email, password, env);
      FilterAppend(RegisterEffects(username, email, password), ar, IsAlert);
      if env.register.Ok? {
        AfterRegisterLogs(email, password, env, IsAlert);
        LoginLogs(email, password, env.login);
      }
    }
  }

  /** The success alert comes before the login post. */
  lemma SuccessBeforeLogin(username: string, email: string, password: string, confirmPassword: string,
                           env: RegisterEnv)
    requires password == confirmPassword && env.register.Ok?
    ensures var es := HandleRegisterEffects(username, email, password, confirmPassword, env);
      && es[..3] == [SetLoading(true), Post(RegisterPath, RegisterBody(username, email, password)),
                     Alert(SuccessTitle, SuccessMessage)]
      && es[3] == Post(LoginPath, LoginBody(email, password))
  {
    var mid := Middle(username, email, password, confirmPassword, env);
    var es := HandleRegisterEffects(username, email, password, confirmPassword, env);
    var reg := RegisterEffects(username, email, password);
    var ar := AfterRegister(email, password, env);
    var login := LoginEffects(email, password, env.login);
    assert reg == [Post(RegisterPath, RegisterBody(username, email, password))];
    assert ar == [Alert(SuccessTitle, SuccessMessage)] + (login + AfterLogin(env.login));
    assert ar[0] == Alert(SuccessTitle, SuccessMessage) && ar[1] == login[0];
    assert mid == reg + ar && mid[0] == reg[0] && mid[1] == ar[0] && mid[2] == ar[1];
    assert es[1] == mid[0] && es[2] == mid[1] && es[3] == mid[2];
    assert es[..3] == [es[0], es[1], es[2]];
  }

  /** The handler navigates at most once, only to Home, and only when the
      whole sequence completes. */
  lemma {:induction false} HandleRegisterMoves(username: string, email: string, password: string,
                                               confirmPassword: string, env: RegisterEnv)
    ensures Moves(HandleRegisterEffects(username, email, password, confirmPassword, env))
         == if Completes(password, confirmPassword, env) then [Navigate(Home)] else []
  {
    var mid := Middle(username, email, password, confirmPassword, env);
    Bracketed(mid, IsMove);
    if password == confirmPassword {
      FilterAppend(RegisterEffects(username, email, password), AfterRegister(email, password, env), IsMove);
      AfterRegisterMoves(email, password, env);
    }
  }

  /** Once `registerUser` has settled, the only navigation is to Home, after
      a successful registration and a truthy login. */
  lemma AfterRegisterMoves(email: string, password: string, env: RegisterEnv)
    ensures Moves(AfterRegister(email, password, env))
         == if env.register.Ok? && LoginScreen.SignsIn(env.login) then [Navigate(Home)] else []
  {
    if env.register.Ok? {
      AfterRegisterLogs(email, password, env, IsMove);
      LoginLogs(email, password, env.login);
    }
  }

  /** Once `registerUser` has settled, `loading` is not touched. */
  lemma AfterRegisterLoads(email: string, password: string, env: RegisterEnv)
    ensures Loads(AfterRegister(email, password, env)) == []
  {
    if env.register.Ok? {
      AfterRegisterLogs(email, password, env, IsLoading);
      LoginLogs(email, password, env.login);
      FilterNone(AfterLogin(env.login), IsLoading);
    }
  }

  /** `loading` goes true first and false last, and changes nowhere else. */
  lemma {:induction false} HandleRegisterLoading(username: string, email: string, password: string,
                                                 confirmPassword: string, env: RegisterEnv)
    ensures Loads(HandleRegisterEffects(username, email, password, confirmPassword, env))
         == [SetLoading(true), SetLoading(false)]
  {
    var mid := Middle(username, email, password, confirmPassword, env);
    FilterThree([SetLoading(true)], mid, [SetLoading(false)], IsLoading);
    if password == confirmPassword {
      FilterAppend(RegisterEffects(username, email, password), AfterRegister(email, password, env), IsLoading);
      AfterRegisterLoads(email, password, env);
    }
  }

  /** The store after one run: untouched unless registration succeeded, and
      then exactly what the automatic `loginUser` call leaves. */
  function HandleRegisterStore(store: map<string, string>, password: string, confirmPassword: string,
                               env: RegisterEnv): (m: map<string, string>)
    ensures AgreeExcept(m, store, TokenKeys)
    ensures password != confirmPassword || env.register.Fail? ==> m == store
    ensures password == confirmPassword && env.register.Ok? ==> m == LoginStore(store, env.login)
  {
    if password == confirmPassword && env.register.Ok? then LoginStore(store, env.login) else store
  }

  /** The rest of the `try` block once `registerUser` has resolved: the
      success alert, the automatic login, and Home on a truthy user. */
  method SignInAfterRegister(d: Device, email: string, password: string, env: RegisterEnv)
    requires d.Valid() && env.register.Ok?
    modifies d
    ensures d.Valid() && d.loading == old(d.loading)
    ensures d.trace == old(d.trace) + AfterRegister(email, password, env)
    ensures d.store == LoginStore(old(d.store), env.login)
    ensures d.route == if LoginScreen.SignsIn(env.login) then Home else old(d.route)
  {
    ghost var before := d.trace;
    d.Alert(SuccessTitle, SuccessMessage);
    var result := LoginUser(d, email, password, env.login);
    ghost var called := d.trace;
    match result {
      case Ok(user) =>
        if Truthy(user) {
          d.Navigate(Home);
        }
      case Fail(_) =>
        d.Alert(FailedTitle, FailedMessage);
    }
    assert d.trace == called + AfterLogin(env.login);
    assert d.trace == before + ([Alert(SuccessTitle, SuccessMessage)]
                                + (LoginEffects(email, password, env.login) + AfterLogin(env.login)));
  }

  /** The `try` block once the passwords match: register, then on success
      the rest of the block, and on a throw the failure alert. */
  method RegisterAndSignIn(d: Device, username: string, email: string, password: string, env: RegisterEnv)
    requires d.Valid()
    modifies d
    ensures d.Valid() && d.loading == old(d.loading)
    ensures d.trace == old(d.trace) + RegisterEffects(username, email, password) + AfterRegister(email, password, env)
    ensures d.store == if env.register.Ok? then LoginStore(old(d.store), env.login) else old(d.store)
    ensures d.route == if env.register.Ok? && LoginScreen.SignsIn(env.login) then Home else old(d.route)
  {
    var registered := RegisterUser(d, username, email, password, env.register);
    if registered.Fail? {
      d.Alert(FailedTitle, FailedMessage);
    } else {
      SignInAfterRegister(d, email, password, env);
    }
  }

  /** Lines 30-47, between the two `loading` changes: the mismatch alert, or
      the `try` block. */
  method CheckAndRegister(d: Device, username: string, email: string, password: string, confirmPassword: string,
                          env: RegisterEnv)
    requires d.Valid()
    modifies d
    ensures d.Valid() && d.loading == old(d.loading)
    ensures d.trace == old(d.trace) + RegisterSteps(username, email, password, confirmPassword, env)
    ensures d.store == HandleRegisterStore(old(d.store), password, confirmPassword, env)
    ensures d.route == if Completes(password, confirmPassword, env) then Home else old(d.route)
  {
    ghost var before := d.trace;
    if password != confirmPassword {
      d.Alert(MismatchTitle, MismatchMessage);
    } else {
      RegisterAndSignIn(d, username, email, password, env);
      RegisteredTrace(before, username, email, password, env);
    }
  }

  /** The trace once the passwords match, appended to what came before. */
  lemma RegisteredTrace(before: seq<Effect>, username: string, email: string, password: string, env: RegisterEnv)
    ensures before + RegisterEffects(username, email, password) + AfterRegister(email, password, env)
         == before + RegisterSteps(username, email, password, password, env)
  {
  }

  /** `handleRegister` on the device. */
  method HandleRegister(d: Device, username: string, email: string, password: string, confirmPassword: string,
                        env: RegisterEnv)
    requires d.Valid()
    modifies d
    ensures d.Valid() && !d.loading
    ensures d.trace == old(d.trace) + HandleRegisterEffects(username, email, password, confirmPassword, env)
    ensures d.store == HandleRegisterStore(old(d.store), password, confirmPassword, env)
    ensures d.route == if Completes(password, confirmPassword, env) then Home else old(d.route)
  {
    ghost var before := d.trace;
    d.SetLoading(true);
    CheckAndRegister(d, username, email, password, confirmPassword, env);
    d.SetLoading(false);
    HandleRegisterTrace(before, username, email, password, confirmPassword, env);
  }

  /** The trace of a run, appended to what came before. */
  lemma HandleRegisterTrace(before: seq<Effect>, username: string, email: string, password: string, confirmPassword: string,
                 env: RegisterEnv)
    ensures before + [SetLoading(true)] + RegisterSteps(username, email, password, confirmPassword, env)
            + [SetLoading(false)]
         == before + HandleRegisterEffects(username, email, password, confirmPassword, env)
  {
  }
}
