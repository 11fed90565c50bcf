/** The runtime the session code runs on: JavaScript values as far as the
    handlers look at them, the key-value store (AsyncStorage), the stack
    navigator's current route, a screen's `loading` flag, and one ordered
    trace of every outside effect a handler causes (posts, storage calls,
    alerts, navigations, loading changes).  Network and storage outcomes are
    parameters, never real I/O. */
module Platform {

  /** A JavaScript value, as far as truthiness and identity matter. */
  datatype Value =
    | Undefined
    | Null
    | Bool(b: bool)
    | Number(n: int)
    | Text(s: string)
    | Object(fields: map<string, Value>)

  /** JavaScript truthiness (`if (user)`). */
  predicate Truthy(v: Value)
  {
    match v
    case Undefined => false
    case Null => false
    case Bool(b) => b
    case Number(n) => n != 0
    case Text(s) => s != []
    case Object(_) => true
  }

  /** The falsy values are exactly undefined, null, false, 0 and the empty
      string; every object, the empty one included, is truthy. */
  lemma FalsyValues(v: Value)
    ensures !Truthy(v) <==> v in {Undefined, Null, Bool(false), Number(0), Text([])}
    ensures v.Object? ==> Truthy(v)
  {
  }

  /** A thrown error; handlers only ever read its message. */
  datatype Error = Error(message: string)

  /** What an awaited call that produces a value settles to. */
  datatype Outcome<T> = Ok(value: T) | Fail(error: Error)

  /** What an awaited storage call with no value settles to. */
  datatype Status = Done | Failed(error: Error)

  /** The screens of the app.  `Register` exists as a screen but is not
      registered with the navigator. */
  datatype Route = Login | Home | Register

  /** The screens the stack navigator registers. */
  const Registered: set<Route> := {Login, Home}

  /** The navigator's first screen, whatever the store holds. */
  const InitialRoute: Route := Login

  /** One outside effect, in the order it happens. */
  datatype Effect =
    | Post(path: string, body: map<string, string>)
    | SetItem(key: string, value: string)
    | RemoveItem(key: string)
    | Alert(title: string, message: string)
    | Navigate(to: Route)
    | Replace(to: Route)
    | SetLoading(on: bool)

  /** The effects of `trace` that satisfy `keep`, in order. */
  function Filter(trace: seq<Effect>, keep: Effect -> bool): (r: seq<Effect>)
    ensures |r| <= |trace|
  {
    if trace == [] then []
    else (if keep(trace[0]) then [trace[0]] else []) + Filter(trace[1..], keep)
  }

  lemma {:induction false} FilterAppend(a: seq<Effect>, b: seq<Effect>, keep: Effect -> bool)
    ensures Filter(a + b, keep) == Filter(a, keep) + Filter(b, keep)
  {
    if a == [] {
      assert a + b == b;
    } else {
      var head := if keep(a[0]) then [a[0]] else [];
      assert (a + b)[0] == a[0] && (a + b)[1..] == a[1..] + b;
      FilterAppend(a[1..], b, keep);
      assert Filter(a + b, keep) == head + (Filter(a[1..], keep) + Filter(b, keep));
      assert Filter(a, keep) == head + Filter(a[1..], keep);
    }
  }

  lemma FilterThree(a: seq<Effect>, b: seq<Effect>, c: seq<Effect>, keep: Effect -> bool)
    ensures Filter(a + b + c, keep) == Filter(a, keep) + Filter(b, keep) + Filter(c, keep)
  {
    FilterAppend(a + b, c, keep);
    FilterAppend(a, b, keep);
  }

  /** A filter that rejects both `loading` changes sees only what happens
      between them. */
  lemma Bracketed(mid: seq<Effect>, keep: Effect -> bool)
    requires !keep(SetLoading(true)) && !keep(SetLoading(false))
    ensures Filter([SetLoading(true)] + mid + [SetLoading(false)], keep) == Filter(mid, keep)
  {
    FilterThree([SetLoading(true)], mid, [SetLoading(false)], keep);
  }

  /** Nothing that `keep` rejects survives the filter ... */
  lemma {:induction false} FilterNone(trace: seq<Effect>, keep: Effect -> bool)
    requires forall e :: e in trace ==> !keep(e)
    ensures Filter(trace, keep) == []
  {
    if trace != [] {
      assert forall e :: e in trace[1..] ==> e in trace;
      FilterNone(trace[1..], keep);
    }
  }

  /** ... and everything that it accepts does. */
  lemma {:induction false} FilterAll(trace: seq<Effect>, keep: Effect -> bool)
    requires forall e :: e in trace ==> keep(e)
    ensures Filter(trace, keep) == trace
  {
    if trace != [] {
      assert forall e :: e in trace[1..] ==> e in trace;
      FilterAll(trace[1..], keep);
      assert trace == [trace[0]] + trace[1..];
    }
  }

  predicate IsCall(e: Effect) { e.Post? }
  predicate IsAlert(e: Effect) { e.Alert? }
  predicate IsWrite(e: Effect) { e.SetItem? || e.RemoveItem? }
  predicate IsMove(e: Effect) { e.Navigate? || e.Replace? }
  predicate IsLoading(e: Effect) { e.SetLoading? }

  /** The service-call log: the posts in `trace`. */
  function Calls(trace: seq<Effect>): seq<Effect> { Filter(trace, IsCall) }

  /** The alert log: the alerts in `trace`. */
  function Alerts(trace: seq<Effect>): seq<Effect> { Filter(trace, IsAlert) }

  /** The storage calls in `trace`. */
  function Writes(trace: seq<Effect>): seq<Effect> { Filter(trace, IsWrite) }

  /** The navigation calls in `trace`. */
  function Moves(trace: seq<Effect>): seq<Effect> { Filter(trace, IsMove) }

  /** The changes of the `loading` flag in `trace`. */
  function Loads(trace: seq<Effect>): seq<Effect> { Filter(trace, IsLoading) }

  /** `a` and `b` agree on every key outside `keys`. */
  ghost predicate AgreeExcept(a: map<string, string>, b: map<string, string>, keys: set<string>)
  {
    forall k :: k !in keys ==> (k in a <==> k in b) && (k in a ==> a[k] == b[k])
  }

  /** The running app: the store, the current route, the running screen's
      `loading` flag and the trace, updated in place. */
  class Device {
    var store: map<string, string>
    var route: Route
    var loading: bool
    var trace: seq<Effect>

    /** The navigator only ever shows a registered screen. */
    ghost predicate Valid()
      reads this
    {
      route in Registered
    }

    /** The app starts on the Login screen whatever tokens are stored. */
    constructor (stored: map<string, string>)
      ensures Valid()
      ensures store == stored && route == Login && !loading && trace == []
    {
      store := stored;
      route := InitialRoute;
      loading := false;
      trace := [];
    }

    method Post(path: string, body: map<string, string>)
      modifies this
      ensures trace == old(trace) + [Effect.Post(path, body)]
      ensures store == old(store) && route == old(route) && loading == old(loading)
    {
      trace := trace + [Effect.Post(path, body)];
    }

    /** `setItem`; a failed write leaves the store as it was. */
    method SetItem(key: string, value: string, status: Status)
      modifies this
      ensures trace == old(trace) + [Effect.SetItem(key, value)]
      ensures store == if status.Done? then old(store)[key := value] else old(store)
      ensures route == old(route) && loading == old(loading)
    {
      trace := trace + [Effect.SetItem(key, value)];
      if status.Done? {
        store := store[key := value];
      }
    }

    /** `removeItem`; a failed removal leaves the store as it was. */
    method RemoveItem(key: string, status: Status)
      modifies this
      ensures trace == old(trace) + [Effect.RemoveItem(key)]
      ensures store == if status.Done? then old(store) - {key} else old(store)
      ensures route == old(route) && loading == old(loading)
    {
      trace := trace + [Effect.RemoveItem(key)];
      if status.Done? {
        store := store - {key};
      }
    }

    method Alert(title: string, message: string)
      modifies this
      ensures trace == old(trace) + [Effect.Alert(title, message)]
      ensures store == old(store) && route == old(route) && loading == old(loading)
    {
      trace := trace + [Effect.Alert(title, message)];
    }

    /** `navigate`; a screen the navigator does not register is ignored. */
    method Navigate(to: Route)
      requires Valid()
      modifies this
      ensures Valid()
      ensures trace == old(trace) + [Effect.Navigate(to)]
      ensures route == if to in Registered then to else old(route)
      ensures store == old(store) && loading == old(loading)
    {
      trace := trace + [Effect.Navigate(to)];
      if to in Registered {
        route := to;
      }
    }

    /** `replace`: the current screen gives way to `to`. */
    method Replace(to: Route)
      requires Valid()
      modifies this
      ensures Valid()
      ensures trace == old(trace) + [Effect.Replace(to)]
      ensures route == if to in Registered then to else old(route)
      ensures store == old(store) && loading == old(loading)
    {
      trace := trace + [Effect.Replace(to)];
      if to in Registered {
        route := to;
      }
    }

    method SetLoading(on: bool)
      modifies this
      ensures trace == old(trace) + [Effect.SetLoading(on)]
      ensures loading == on
      ensures store == old(store) && route == old(route)
    {
      trace := trace + [Effect.SetLoading(on)];
      loading := on;
    }
  }
}
