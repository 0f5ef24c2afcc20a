/** The event builder: an error and the request it happened in become the
    Sentry event. The error's own enumerable properties become `extra`
    under the error's name, its stack becomes the stack trace (oldest frame
    first), and the request, when it has a URL, becomes the request block.
    The URL parser is a parameter (`None` where `new URL` throws), and so
    are the event identifier and the clock reading. */
module SentryEvent {
  import opened Js
  import opened StackParser

  /** The error as the builder sees it. `ownProps` are the own enumerable
      string-keyed properties of the error object, in the order
      `Object.keys` lists them, each with its value. */
  datatype ErrorInfo<V> = ErrorInfo(name: string, message: string, stack: Option<string>, ownProps: seq<(string, V)>)

  /** The request the error happened in; `headers` and `body` are passed
      through untouched. */
  datatype RequestInfo<H, B> = RequestInfo(httpMethod: string, url: string, headers: H, body: B)

  datatype RequestBlock<H, B> = RequestBlock(httpMethod: string, url: string, queryString: string, headers: H, data: B)

  datatype ExceptionValue = ExceptionValue(errorType: string, value: string, stacktrace: Option<seq<Frame>>)

  /** The event; `extra` is the object `{ [name]: fields }` when present and
      `tags` is `{ app }`. */
  datatype Event<V, H, B> = Event(
    eventId: string,
    message: string,
    exception: seq<ExceptionValue>,
    extra: Option<(string, seq<(string, V)>)>,
    tagsApp: string,
    platform: string,
    environment: string,
    serverName: string,
    timestamp: real,
    request: Option<RequestBlock<H, B>>,
    release: string)

  // ------------------------------------------------------------- objects

  /** `Object.keys` of an object given as its properties in order. */
  function Keys<V>(props: seq<(string, V)>): (keys: seq<string>)
    ensures |keys| == |props|
    ensures forall i | 0 <= i < |props| :: keys[i] == props[i].0
  {
    if props == [] then [] else [props[0].0] + Keys(props[1..])
  }

  /** The object has a property named `key`. */
  predicate HasKey<V>(props: seq<(string, V)>, key: string)
  {
    props != [] && (props[0].0 == key || HasKey(props[1..], key))
  }

  lemma {:induction false} HasKeyInKeys<V>(props: seq<(string, V)>, key: string)
    ensures HasKey(props, key) <==> key in Keys(props)
    decreases |props|
  {
    if props != [] {
      HasKeyInKeys(props[1..], key);
      assert Keys(props) == [props[0].0] + Keys(props[1..]);
    }
  }

  lemma {:induction false} HasKeyAt<V>(props: seq<(string, V)>, i: nat)
    requires i < |props|
    ensures HasKey(props, props[i].0)
    decreases i
  {
    if i > 0 {
      HasKeyAt(props[1..], i - 1);
    }
  }

  lemma {:induction false} HasKeyAppend<V>(obj: seq<(string, V)>, p: (string, V), key: string)
    ensures HasKey(obj + [p], key) <==> HasKey(obj, key) || p.0 == key
    decreases |obj|
  {
    if obj != [] {
      assert (obj + [p])[1..] == obj[1..] + [p];
      HasKeyAppend(obj[1..], p, key);
    }
  }

  /** `obj[key]` for a key the object has. */
  function Get<V>(props: seq<(string, V)>, key: string): V
    requires HasKey(props, key)
  {
    if props[0].0 == key then props[0].1 else Get(props[1..], key)
  }

  /** `{ ...obj, [key]: value }`: an existing key keeps its place and takes
      the new value, a new key goes last. (JavaScript lists integer-like
      keys first; the builder adds keys in `Object.keys` order, which
      already lists them first, so there the new key is indeed last.) */
  function Put<V>(obj: seq<(string, V)>, key: string, value: V): (r: seq<(string, V)>)
    ensures HasKey(r, key) && Get(r, key) == value
  {
    if obj == [] then [(key, value)]
    else if obj[0].0 == key then [(key, value)] + obj[1..]
    else [obj[0]] + Put(obj[1..], key, value)
  }

  /** The spread replaces an existing key and adds a missing one. */
  lemma {:induction false} PutSize<V>(obj: seq<(string, V)>, key: string, value: V)
    ensures |Put(obj, key, value)| == if HasKey(obj, key) then |obj| else |obj| + 1
    decreases |obj|
  {
    if obj != [] && obj[0].0 != key {
      PutSize(obj[1..], key, value);
    }
  }

  /** The other properties keep their values. */
  lemma {:induction false} PutOthers<V>(obj: seq<(string, V)>, key: string, value: V, other: string)
    requires other != key
    ensures HasKey(Put(obj, key, value), other) <==> HasKey(obj, other)
    ensures HasKey(obj, other) ==> Get(Put(obj, key, value), other) == Get(obj, other)
    decreases |obj|
  {
    if obj != [] && obj[0].0 != key {
      PutOthers(obj[1..], key, value, other);
    }
  }

  lemma {:induction false} PutNew<V>(obj: seq<(string, V)>, key: string, value: V)
    requires !HasKey(obj, key)
    ensures Put(obj, key, value) == obj + [(key, value)]
    decreases |obj|
  {
    if obj != [] {
      PutNew(obj[1..], key, value);
      assert [obj[0]] + (obj[1..] + [(key, value)]) == obj + [(key, value)];
    }
  }

  /** The keys the builder leaves out of `extra`. */
  predicate IsReserved(key: string)
  {
    key == "name" || key == "message" || key == "stack"
  }

  /** `keys.filter(key => !['name', 'message', 'stack'].includes(key))`. */
  function FilterReserved(keys: seq<string>): (r: seq<string>)
    ensures |r| <= |keys|
    ensures forall k :: k in r <==> k in keys && !IsReserved(k)
  {
    if keys == [] then []
    else if IsReserved(keys[0]) then FilterReserved(keys[1..])
    else [keys[0]] + FilterReserved(keys[1..])
  }

  /** `keys.reduce((obj, key) => ({ ...obj, [key]: err[key] }), obj)`. */
  function Reduce<V>(keys: seq<string>, props: seq<(string, V)>, obj: seq<(string, V)>): seq<(string, V)>
    requires forall i | 0 <= i < |keys| :: HasKey(props, keys[i])
  {
    if keys == [] then obj else Reduce(keys[1..], props, Put(obj, keys[0], Get(props, keys[0])))
  }

  /** Each folded key adds at most one property and none is lost. */
  lemma {:induction false} ReduceSize<V>(keys: seq<string>, props: seq<(string, V)>, obj: seq<(string, V)>)
    requires forall i | 0 <= i < |keys| :: HasKey(props, keys[i])
    ensures |obj| <= |Reduce(keys, props, obj)| <= |obj| + |keys|
    decreases |keys|
  {
    if keys != [] {
      PutSize(obj, keys[0], Get(props, keys[0]));
      ReduceSize(keys[1..], props, Put(obj, keys[0], Get(props, keys[0])));
    }
  }

  /** `extraKeys.length ? { [name]: fields } : undefined`. */
  function ExtraOf<V>(name: string, props: seq<(string, V)>): (r: Option<(string, seq<(string, V)>)>)
    ensures r.None? <==> forall i | 0 <= i < |props| :: IsReserved(props[i].0)
    ensures r.Some? ==> r.value.0 == name
  {
    var extraKeys := FilterReserved(Keys(props));
    assert extraKeys == [] <==> forall i | 0 <= i < |props| :: IsReserved(props[i].0) by {
      if extraKeys != [] {
        assert extraKeys[0] in Keys(props);
      }
      forall i | 0 <= i < |props| && !IsReserved(props[i].0) ensures extraKeys != [] {
        assert Keys(props)[i] in Keys(props);
      }
    }
    forall i | 0 <= i < |extraKeys| ensures HasKey(props, extraKeys[i]) {
      assert extraKeys[i] in extraKeys;
      HasKeyInKeys(props, extraKeys[i]);
    }
    if |extraKeys| > 0 then Some((name, Reduce(extraKeys, props, []))) else None
  }

  // Lemmas about the fields object.

  /** No key occurs twice: what `Object.keys` always gives. */
  predicate DistinctKeys<V>(props: seq<(string, V)>)
  {
    props == [] || (!HasKey(props[1..], props[0].0) && DistinctKeys(props[1..]))
  }

  /** The properties whose keys are not reserved, in order. */
  function Unreserved<V>(props: seq<(string, V)>): (r: seq<(string, V)>)
    ensures Keys(r) == FilterReserved(Keys(props))
    ensures forall k | HasKey(r, k) :: HasKey(props, k)
  {
    if props == [] then []
    else
      assert Keys(props[1..]) == Keys(props)[1..];
      if IsReserved(props[0].0) then Unreserved(props[1..]) else [props[0]] + Unreserved(props[1..])
  }

  /** Every entry of `sub` has the value `props` gives its key. */
  ghost predicate Agrees<V>(sub: seq<(string, V)>, props: seq<(string, V)>)
  {
    forall i | 0 <= i < |sub| :: HasKey(props, sub[i].0) && Get(props, sub[i].0) == sub[i].1
  }

  /** None of the keys of `sub` is in `obj`. */
  predicate Fresh<V>(sub: seq<(string, V)>, obj: seq<(string, V)>)
  {
    forall i | 0 <= i < |sub| :: !HasKey(obj, sub[i].0)
  }

  lemma {:induction false} UnreservedDistinct<V>(props: seq<(string, V)>)
    requires DistinctKeys(props)
    ensures DistinctKeys(Unreserved(props))
    decreases |props|
  {
    if props != [] {
      UnreservedDistinct(props[1..]);
    }
  }

  lemma {:induction false} UnreservedAgrees<V>(props: seq<(string, V)>)
    requires DistinctKeys(props)
    ensures Agrees(Unreserved(props), props)
    decreases |props|
  {
    if props != [] {
      var rest := Unreserved(props[1..]);
      UnreservedAgrees(props[1..]);
      forall i | 0 <= i < |rest|
        ensures HasKey(props, rest[i].0) && Get(props, rest[i].0) == rest[i].1
      {
        HasKeyAt(rest, i);
        assert rest[i].0 != props[0].0;
      }
      if !IsReserved(props[0].0) {
        var u := Unreserved(props);
        forall i | 0 <= i < |u| ensures HasKey(props, u[i].0) && Get(props, u[i].0) == u[i].1 {
          if i > 0 {
            assert u[i] == rest[i - 1];
          }
        }
      }
    }
  }

  lemma FreshTail<V>(sub: seq<(string, V)>, obj: seq<(string, V)>)
    requires sub != [] && DistinctKeys(sub) && Fresh(sub, obj)
    ensures Fresh(sub[1..], obj + [sub[0]])
  {
    forall i | 0 <= i < |sub[1..]| ensures !HasKey(obj + [sub[0]], sub[1..][i].0) {
      HasKeyAt(sub[1..], i);
      HasKeyAppend(obj, sub[0], sub[1..][i].0);
      assert sub[1..][i] == sub[i + 1];
    }
  }

  lemma AgreesKeys<V>(sub: seq<(string, V)>, props: seq<(string, V)>)
    requires Agrees(sub, props)
    ensures forall i | 0 <= i < |Keys(sub)| :: HasKey(props, Keys(sub)[i])
  {
  }

  lemma AgreesTail<V>(sub: seq<(string, V)>, props: seq<(string, V)>)
    requires sub != [] && Agrees(sub, props)
    ensures Agrees(sub[1..], props)
  {
    forall i | 0 <= i < |sub[1..]| ensures sub[1..][i] == sub[i + 1] {
    }
  }

  /** One step of the fold: a fresh key goes last with its value. */
  lemma ReduceHead<V>(sub: seq<(string, V)>, props: seq<(string, V)>, obj: seq<(string, V)>)
    requires sub != [] && Agrees(sub, props) && !HasKey(obj, sub[0].0)
    requires forall i | 0 <= i < |Keys(sub)| :: HasKey(props, Keys(sub)[i])
    ensures forall i | 0 <= i < |Keys(sub[1..])| :: HasKey(props, Keys(sub[1..])[i])
    ensures Reduce(Keys(sub), props, obj) == Reduce(Keys(sub[1..]), props, obj + [sub[0]])
  {
    var keys := Keys(sub);
    assert keys[1..] == Keys(sub[1..]);
    PutNew(obj, sub[0].0, sub[0].1);
    assert Put(obj, keys[0], Get(props, keys[0])) == obj + [sub[0]];
  }

  /** Folding distinct keys that the object does not have yet appends them
      in order, each with its value in `props`. */
  lemma {:induction false} ReduceAppends<V>(sub: seq<(string, V)>, props: seq<(string, V)>, obj: seq<(string, V)>)
    requires DistinctKeys(sub) && Agrees(sub, props) && Fresh(sub, obj)
    requires forall i | 0 <= i < |Keys(sub)| :: HasKey(props, Keys(sub)[i])
    ensures Reduce(Keys(sub), props, obj) == obj + sub
    decreases |sub|
  {
    if sub != [] {
      ReduceHead(sub, props, obj);
      AgreesTail(sub, props);
      FreshTail(sub, obj);
      ReduceAppends(sub[1..], props, obj + [sub[0]]);
      assert obj + [sub[0]] + sub[1..] == obj + sub;
    }
  }

  /** With the distinct keys `Object.keys` gives, `extra` holds exactly the
      unreserved properties, in order, under the error's name. */
  lemma ExtraExactly<V>(name: string, props: seq<(string, V)>)
    requires DistinctKeys(props)
    requires exists i | 0 <= i < |props| :: !IsReserved(props[i].0)
    ensures ExtraOf(name, props) == Some((name, Unreserved(props)))
  {
    var u := Unreserved(props);
    UnreservedDistinct(props);
    UnreservedAgrees(props);
    AgreesKeys(u, props);
    ReduceAppends(u, props, []);
    assert [] + u == u;
  }

  lemma {:induction false} ReduceKeys<V>(keys: seq<string>, props: seq<(string, V)>, obj: seq<(string, V)>)
    requires forall i | 0 <= i < |keys| :: HasKey(props, keys[i])
    ensures forall k :: HasKey(Reduce(keys, props, obj), k) <==> HasKey(obj, k) || k in keys
    decreases |keys|
  {
    if keys != [] {
      var obj' := Put(obj, keys[0], Get(props, keys[0]));
      forall k | k != keys[0] ensures HasKey(obj', k) <==> HasKey(obj, k) {
        PutOthers(obj, keys[0], Get(props, keys[0]), k);
      }
      ReduceKeys(keys[1..], props, obj');
      assert forall k :: k in keys <==> k == keys[0] || k in keys[1..];
    }
  }

  /** The keys of `extra` are the unreserved keys of the error, for any
      list of properties. */
  lemma ExtraKeysUnreserved<V>(name: string, props: seq<(string, V)>)
    requires ExtraOf(name, props).Some?
    ensures forall k :: HasKey(ExtraOf(name, props).value.1, k) <==> HasKey(props, k) && !IsReserved(k)
  {
    var extraKeys := FilterReserved(Keys(props));
    forall i | 0 <= i < |extraKeys| ensures HasKey(props, extraKeys[i]) {
      assert extraKeys[i] in extraKeys;
      HasKeyInKeys(props, extraKeys[i]);
    }
    ReduceKeys(extraKeys, props, []);
    forall k ensures HasKey(props, k) <==> k in Keys(props) {
      HasKeyInKeys(props, k);
    }
  }

  // ---------------------------------------------------------- stack trace

  /** `frames.reverse()`. */
  function Reverse<T>(s: seq<T>): (r: seq<T>)
    ensures |r| == |s|
    ensures forall i | 0 <= i < |s| :: r[i] == s[|s| - 1 - i]
  {
    if s == [] then [] else Reverse(s[1..]) + [s[0]]
  }

  /** `frames.length ? { frames: frames.reverse() } : undefined`. */
  function StacktraceOf(frames: seq<Frame>): (r: Option<seq<Frame>>)
    ensures r.None? <==> frames == []
    ensures r.Some? ==> Reverse(r.value) == frames
  {
    if |frames| > 0 then Some(Reverse(frames)) else None
  }

  // -------------------------------------------------------------- request

  /** The request block: present when there is a request with a non-empty
      URL; `new URL(url).search` is `urlSearch(url)`, and `None` there
      is the `TypeError` the constructor throws. */
  function RequestOf<H, B>(request: Option<RequestInfo<H, B>>, urlSearch: string -> Option<string>)
    : (r: Completion<Option<RequestBlock<H, B>>>)
    ensures r.Throw? <==> request.Some? && request.value.url != "" && urlSearch(request.value.url).None?
    ensures r.Normal? ==> (r.value.Some? <==> request.Some? && request.value.url != "")
    ensures r.Normal? && r.value.Some? ==>
      var q, b := request.value, r.value.value;
      && b.httpMethod == q.httpMethod && b.url == q.url && b.headers == q.headers && b.data == q.body
      && Some(b.queryString) == urlSearch(q.url)
  {
    if request.Some? && request.value.url != "" then
      var q := request.value;
      match urlSearch(q.url)
      case None => Throw
      case Some(search) => Normal(Some(RequestBlock(q.httpMethod, q.url, search, q.headers, q.body)))
    else
      Normal(None)
  }

  // ---------------------------------------------------------------- event

  /** `errType + ': ' + (err.message || '<no message>')`. */
  function MessageOf(name: string, message: string): (m: string)
    ensures |m| > |name| + 2
    ensures m[..|name| + 2] == name + ": "
    ensures m[|name| + 2..] != ""
    ensures message != "" ==> m[|name| + 2..] == message
    ensures message == "" ==> m[|name| + 2..] == "<no message>"
  {
    name + ": " + StringOr(Some(message), "<no message>")
  }

  /** `toSentryEvent(err, request, app, release, env)`, with the event
      identifier, `Date.now()` in milliseconds and the URL parser given. */
  function ToSentryEvent<V, H, B>(
    err: ErrorInfo<V>, request: Option<RequestInfo<H, B>>, app: string, release: string,
    env: Option<string>, eventId: string, nowMillis: int, urlSearch: string -> Option<string>)
    : (r: Completion<Event<V, H, B>>)
    ensures r.Throw? <==> RequestOf(request, urlSearch).Throw?
  {
    var frames := Parse(err.stack);
    var environment := StringOr(env, "ENV");
    match RequestOf(request, urlSearch)
    case Throw => Throw
    case Normal(block) =>
      Normal(Event(
        eventId,
        MessageOf(err.name, err.message),
        [ExceptionValue(err.name, err.message, StacktraceOf(frames))],
        ExtraOf(err.name, err.ownProps),
        app,
        "javascript",
        environment,
        app + "-" + environment,
        nowMillis as real / 1000.0,
        block,
        release))
  }

  /** What the event says, field by field, for a builder that does not
      throw. */
  lemma EventFields<V, H, B>(
    err: ErrorInfo<V>, request: Option<RequestInfo<H, B>>, app: string, release: string,
    env: Option<string>, eventId: string, nowMillis: int, urlSearch: string -> Option<string>)
    requires ToSentryEvent(err, request, app, release, env, eventId, nowMillis, urlSearch).Normal?
    ensures var e := ToSentryEvent(err, request, app, release, env, eventId, nowMillis, urlSearch).value;
      && e.eventId == eventId && e.release == release && e.tagsApp == app && e.platform == "javascript"
      // the environment defaults to ENV and names the server together with the app
      && e.environment != ""
      && (env.Some? && env.value != "" ==> e.environment == env.value)
      && (env.None? || env.value == "" ==> e.environment == "ENV")
      && e.serverName == app + "-" + e.environment
      // one exception value, with the error's name and message
      && |e.exception| == 1
      && e.exception[0].errorType == err.name && e.exception[0].value == err.message
      && e.message == MessageOf(err.name, err.message)
      && e.message[..|err.name| + 2] == err.name + ": "
      // oldest frame first; no stack trace when no frame parses
      && e.exception[0].stacktrace == StacktraceOf(Parse(err.stack))
      && (e.exception[0].stacktrace.None? <==> Parse(err.stack) == [])
      && (e.exception[0].stacktrace.Some? ==> Reverse(e.exception[0].stacktrace.value) == Parse(err.stack))
      // extra only when some property is not reserved
      && (e.extra.None? <==> forall i | 0 <= i < |err.ownProps| :: IsReserved(err.ownProps[i].0))
      && (e.extra.Some? ==> e.extra.value.0 == err.name)
      && e.extra == ExtraOf(err.name, err.ownProps)
      // seconds since the epoch
      && e.timestamp * 1000.0 == nowMillis as real
      && (e.request.Some? <==> request.Some? && request.value.url != "")
      && e.request == RequestOf(request, urlSearch).value
  {
  }
}
