/** The two service calls: `loginUser` posts the credentials and stores the
    two tokens of the response, one write after the other; `registerUser`
    posts the new account and never touches storage.  Both rethrow whatever
    they catch.  The post's and the writes' outcomes are parameters; the
    `console.error` logging is not modelled. */
module AuthService {
  import opened Platform

  const LoginPath: string := "/auth/login/"
  const RegisterPath: string := "/auth/register/"
  const AccessKey: string := "accessToken"
  const RefreshKey: string := "refreshToken"

  /** The only keys the session code writes or removes. */
  const TokenKeys: set<string> := {AccessKey, RefreshKey}

  /** The `data` of a successful login response. */
  datatype Tokens = Tokens(access: string, refresh: string, user: Value)

  /** How one `loginUser` call's post and its two writes settle. */
  datatype LoginEnv = LoginEnv(post: Outcome<Tokens>, saveAccess: Status, saveRefresh: Status)

  /** The request body of a login. */
  function LoginBody(email: string, password: string): (body: map<string, string>)
    ensures body.Keys == {"email", "password"}
    ensures body["email"] == email && body["password"] == password
  {
    map["email" := email, "password" := password]
  }

  /** The request body of a registration. */
  function RegisterBody(username: string, email: string, password: string): (body: map<string, string>)
    ensures body.Keys == {"username", "email", "password"}
    ensures body["username"] == username && body["email"] == email && body["password"] == password
  {
    map["username" := username, "email" := email, "password" := password]
  }

  /** The post happened, and both token writes succeeded. */
  predicate LoginStored(env: LoginEnv)
  {
    env.post.Ok? && env.saveAccess.Done? && env.saveRefresh.Done?
  }

  /** What `loginUser` resolves to or throws. */
  function LoginResult(env: LoginEnv): (r: Outcome<Value>)
    ensures r.Ok? <==> LoginStored(env)
    ensures r.Ok? ==> r.value == env.post.value.user
    ensures env.post.Fail? ==> r == Fail(env.post.error)
    ensures env.post.Ok? && env.saveAccess.Failed? ==> r == Fail(env.saveAccess.error)
    ensures env.post.Ok? && env.saveAccess.Done? && env.saveRefresh.Failed? ==> r == Fail(env.saveRefresh.error)
  {
    match env.post
    case Fail(e) => Fail(e)
    case Ok(data) =>
      if env.saveAccess.Failed? then Fail(env.saveAccess.error)
      else if env.saveRefresh.Failed? then Fail(env.saveRefresh.error)
      else Ok(data.user)
  }

  /** The effects of one `loginUser` call, in order: the post, then the
      access-token write, then (unless that failed) the refresh-token write. */
  function LoginEffects(email: string, password: string, env: LoginEnv): (es: seq<Effect>)
    ensures |es| >= 1 && es[0] == Post(LoginPath, LoginBody(email, password))
    ensures forall e :: e in es ==> e.Post? || e.SetItem?
    ensures forall e :: e in es && e.SetItem? ==> e.key in TokenKeys
    ensures env.post.Fail? ==> es == [Post(LoginPath, LoginBody(email, password))]
    ensures env.post.Ok? ==>
      es[1..] == [SetItem(AccessKey, env.post.value.access)]
        + (if env.saveAccess.Done? then [SetItem(RefreshKey, env.post.value.refresh)] else [])
  {
    [Post(LoginPath, LoginBody(email, password))] +
    match env.post
    case Fail(_) => []
    case Ok(data) =>
      [SetItem(AccessKey, data.access)]
      + (if env.saveAccess.Done? then [SetItem(RefreshKey, data.refresh)] else [])
  }

  /** The store after one `loginUser` call. */
  function LoginStore(store: map<string, string>, env: LoginEnv): (m: map<string, string>)
    ensures AgreeExcept(m, store, TokenKeys)
    ensures env.post.Fail? || env.saveAccess.Failed? ==> m == store
    ensures env.post.Ok? && env.saveAccess.Done? ==> AccessKey in m && m[AccessKey] == env.post.value.access
    ensures LoginStored(env) ==> RefreshKey in m && m[RefreshKey] == env.post.value.refresh
    ensures !LoginStored(env) ==>
      (RefreshKey in m <==> RefreshKey in store) && (RefreshKey in store ==> m[RefreshKey] == store[RefreshKey])
  {
    match env.post
    case Fail(_) => store
    case Ok(data) =>
      if env.saveAccess.Failed? then store
      else if env.saveRefresh.Failed? then store[AccessKey := data.access]
      else store[AccessKey := data.access][RefreshKey := data.refresh]
  }

  /** The service-call and storage logs of one `loginUser` call: one post
      of the credentials, then the token writes; no alert, no navigation. */
  lemma LoginLogs(email: string, password: string, env: LoginEnv)
    ensures var es := LoginEffects(email, password, env);
      && Calls(es) == [Post(LoginPath, LoginBody(email, password))]
      && Writes(es) == es[1..]
      && Alerts(es) == [] && Moves(es) == [] && Loads(es) == []
  {
    var es := LoginEffects(email, password, env);
    var post := [Post(LoginPath, LoginBody(email, password))];
    assert es == post + es[1..];
    FilterAppend(post, es[1..], IsCall);
    FilterAppend(post, es[1..], IsWrite);
    FilterNone(es[1..], IsCall);
    FilterAll(es[1..], IsWrite);
    FilterNone(es, IsAlert);
    FilterNone(es, IsMove);
    FilterNone(es, IsLoading);
  }

  /** `loginUser(email, password)` on the device. */
  method LoginUser(d: Device, email: string, password: string, env: LoginEnv) returns (result: Outcome<Value>)
    modifies d
    ensures result == LoginResult(env)
    ensures d.store == LoginStore(old(d.store), env)
    ensures d.trace == old(d.trace) + LoginEffects(email, password, env)
    ensures d.route == old(d.route) && d.loading == old(d.loading)
  {
    d.Post(LoginPath, LoginBody(email, password));
    match env.post
    case Fail(e) =>
      result := Fail(e);
    case Ok(data) =>
      d.SetItem(AccessKey, data.access, env.saveAccess);
      if env.saveAccess.Failed? {
        return Fail(env.saveAccess.error);
      }
      d.SetItem(RefreshKey, data.refresh, env.saveRefresh);
      if env.saveRefresh.Failed? {
        return Fail(env.saveRefresh.error);
      }
      result := Ok(data.user);
  }

  /** The effects of one `registerUser` call: the post and nothing else. */
  function RegisterEffects(username: string, email: string, password: string): (es: seq<Effect>)
    ensures |es| == 1 && Calls(es) == [Post(RegisterPath, RegisterBody(username, email, password))]
    ensures Writes(es) == [] && Alerts(es) == []
  {
    [Post(RegisterPath, RegisterBody(username, email, password))]
  }

  /** `registerUser(username, email, password)` on the device: it resolves to
      the response data or rethrows the post's error, and never touches the
      store. */
  method RegisterUser(d: Device, username: string, email: string, password: string, post: Outcome<Value>)
    returns (result: Outcome<Value>)
    modifies d
    ensures result == post
    ensures d.trace == old(d.trace) + RegisterEffects(username, email, password)
    ensures d.store == old(d.store) && d.route == old(d.route) && d.loading == old(d.loading)
  {
    d.Post(RegisterPath, RegisterBody(username, email, password));
    result := post;
  }
}
