/** The app shell: the navigator starts on Login and registers only Login and
    Home; Home's header holds the logout control.  Logout asks for
    confirmation; Cancel does nothing, OK removes the access token, then the
    refresh token, then replaces the screen with Login.  A failed removal
    stops the sequence with a "Logout failed:" alert and no navigation. */
module App {
  import opened Platform
  import opened AuthService

  const PromptTitle: string := "Confirm Logout"
  const PromptMessage: string := "Are you sure you want to log out?"
  const FailedTitle: string := "Logout failed:"

  /** The button the user presses in the confirmation prompt. */
  datatype Choice = Cancel | Confirm

  /** The choice, and how each of the two removals settles. */
  datatype LogoutEnv = LogoutEnv(choice: Choice, removeAccess: Status, removeRefresh: Status)

  /** Both removals were attempted and succeeded. */
  predicate LoggedOut(env: LogoutEnv)
  {
    env.choice == Confirm && env.removeAccess.Done? && env.removeRefresh.Done?
  }

  /** An OK press that one of the removals stops. */
  predicate Stopped(env: LogoutEnv)
  {
    env.choice == Confirm && (env.removeAccess.Failed? || env.removeRefresh.Failed?)
  }

  /** The error of the removal that stopped it. */
  function StopError(env: LogoutEnv): Error
    requires Stopped(env)
  {
    if env.removeAccess.Failed? then env.removeAccess.error else env.removeRefresh.error
  }

  /** The effects of one press of the logout control, in order. */
  function HandleLogoutEffects(env: LogoutEnv): (es: seq<Effect>)
    ensures |es| >= 1 && es[0] == Alert(PromptTitle, PromptMessage)
    ensures env.choice == Cancel ==> es == [Alert(PromptTitle, PromptMessage)]
    ensures LoggedOut(env) ==>
      es == [Alert(PromptTitle, PromptMessage), RemoveItem(AccessKey), RemoveItem(RefreshKey), Replace(Login)]
    ensures Stopped(env) ==> es[|es| - 1] == Alert(FailedTitle, StopError(env).message)
  {
    [Alert(PromptTitle, PromptMessage)] +
    match env.choice
    case Cancel => []
    case Confirm =>
      [RemoveItem(AccessKey)] +
      if env.removeAccess.Failed? then [Alert(FailedTitle, env.removeAccess.error.message)]
      else
        [RemoveItem(RefreshKey)] +
        if env.removeRefresh.Failed? then [Alert(FailedTitle, env.removeRefresh.error.message)]
        else [Replace(Login)]
  }

  /** Only the two token keys are removed, access token first; the refresh
      token's removal is attempted only after the first one succeeded. */
  lemma {:induction false} LogoutWrites(env: LogoutEnv)
    ensures Writes(HandleLogoutEffects(env))
         == if env.choice == Cancel then []
            else if env.removeAccess.Failed? then [RemoveItem(AccessKey)]
            else [RemoveItem(AccessKey), RemoveItem(RefreshKey)]
  {
    var es := HandleLogoutEffects(env);
    assert es == [es[0]] + es[1..];
    FilterAppend([es[0]], es[1..], IsWrite);
    if env.choice == Confirm {
      var rest := es[2..];
      assert es[1..] == [RemoveItem(AccessKey)] + rest;
      FilterAppend([RemoveItem(AccessKey)], rest, IsWrite);
      if env.removeAccess.Done? {
        assert rest == [RemoveItem(RefreshKey)] + rest[1..];
        FilterAppend([RemoveItem(RefreshKey)], rest[1..], IsWrite);
      }
    }
  }

  /** The only navigation is the final replace with Login, after both
      removals succeeded. */
  lemma {:induction false} LogoutMoves(env: LogoutEnv)
    ensures Moves(HandleLogoutEffects(env)) == if LoggedOut(env) then [Replace(Login)] else []
  {
    var es := HandleLogoutEffects(env);
    if env.choice == Cancel {
      assert es == [Alert(PromptTitle, PromptMessage)];
    } else if LoggedOut(env) {
      FilterNone(es[..3], IsMove);
      FilterAppend(es[..3], [Replace(Login)], IsMove);
      assert es == es[..3] + [Replace(Login)];
    } else {
      FilterNone(es, IsMove);
    }
  }

  /** The prompt, then a "Logout failed:" alert with the error's message
      exactly when a removal fails. */
  lemma {:induction false} LogoutAlerts(env: LogoutEnv)
    ensures Alerts(HandleLogoutEffects(env))
         == [Alert(PromptTitle, PromptMessage)]
          + (if Stopped(env) then [Alert(FailedTitle, StopError(env).message)] else [])
  {
    var es := HandleLogoutEffects(env);
    assert es == [es[0]] + es[1..];
    FilterAppend([es[0]], es[1..], IsAlert);
    if env.choice == Confirm {
      var n := |es|;
      assert es[1..] == es[1..n - 1] + [es[n - 1]];
      FilterAppend(es[1..n - 1], [es[n - 1]], IsAlert);
      FilterNone(es[1..n - 1], IsAlert);
    }
  }

  /** The store after one press: the removed keys are gone and every other
      key keeps its value. */
  function LogoutStore(store: map<string, string>, env: LogoutEnv): (m: map<string, string>)
    ensures AgreeExcept(m, store, TokenKeys)
    ensures env.choice == Cancel || env.removeAccess.Failed? ==> m == store
    ensures env.choice == Confirm && env.removeAccess.Done? ==> AccessKey !in m
    ensures LoggedOut(env) ==> RefreshKey !in m
    ensures !LoggedOut(env) ==>
      (RefreshKey in m <==> RefreshKey in store) && (RefreshKey in store ==> m[RefreshKey] == store[RefreshKey])
  {
    match env.choice
    case Cancel => store
    case Confirm =>
      if env.removeAccess.Failed? then store
      else if env.removeRefresh.Failed? then store - {AccessKey}
      else store - {AccessKey} - {RefreshKey}
  }

  /** A log-in whose tokens are both stored, followed by a completed logout,
      leaves the store as it was, less the two token keys. */
  lemma LoginThenLogout(store: map<string, string>, login: LoginEnv, logout: LogoutEnv)
    requires LoginStored(login) && LoggedOut(logout)
    ensures LogoutStore(LoginStore(store, login), logout) == store - TokenKeys
  {
    var m := LogoutStore(LoginStore(store, login), logout);
    forall k | k in m ensures k in store - TokenKeys && m[k] == store[k] {
    }
    forall k | k in store - TokenKeys ensures k in m {
    }
  }

  /** `handleLogout(navigation)`, reachable only from Home's header. */
  method HandleLogout(d: Device, env: LogoutEnv)
    requires d.Valid() && d.route == Home
    modifies d
    ensures d.Valid()
    ensures d.trace == old(d.trace) + HandleLogoutEffects(env)
    ensures d.store == LogoutStore(old(d.store), env)
    ensures d.route == if LoggedOut(env) then Login else Home
    ensures d.loading == old(d.loading)
  {
    d.Alert(PromptTitle, PromptMessage);
    if env.choice == Cancel {
      return;
    }
    d.RemoveItem(AccessKey, env.removeAccess);
    if env.removeAccess.Failed? {
      d.Alert(FailedTitle, env.removeAccess.error.message);
      return;
    }
    d.RemoveItem(RefreshKey, env.removeRefresh);
    if env.removeRefresh.Failed? {
      d.Alert(FailedTitle, env.removeRefresh.error.message);
      return;
    }
    d.Replace(Login);
  }
}
