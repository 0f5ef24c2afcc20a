/** Delivery of an event to Sentry's store endpoint: up to six POSTs of
    the same body, stopping at the first reply with status 200; every other
    reply's JSON body is logged with its status. A request that fails, or a
    reply whose body is not JSON, ends the delivery with the rejection of
    the returned promise. The network is a parameter: `replies(i)` is what
    the `i`-th `fetch` comes back with. */
module Delivery {
  import opened Js
  import opened EventId
  import opened SentryEvent

  /** The number of POSTs the loop makes at most (`i` from 0 to 5). */
  const MaxAttempts := 6

  // --------------------------------------------------------------- request

  datatype Post = Post(url: string, httpMethod: string, contentType: string, auth: string, body: string)

  /** The store endpoint of the project. */
  function StoreUrl(projectId: string): (u: string)
    ensures |u| == |projectId| + 29
    ensures u[..22] == "https://sentry.io/api/" && u[22..|u| - 7] == projectId && u[|u| - 7..] == "/store/"
  {
    "https://sentry.io/api/" + projectId + "/store/"
  }

  /** The part of the `X-Sentry-Auth` header before the key. */
  function AuthPrefix(): (p: string)
    ensures |p| == 74 && p[63..] == "sentry_key="
  {
    "Sentry sentry_version=7,sentry_client=rentpath-cf-sentry/1.0.0,sentry_key="
  }

  /** The `X-Sentry-Auth` header. The source writes it as a single-quoted
      literal, so the key position holds the six characters `${dsn}`
      whatever the key is. */
  function AuthHeader(dsn: string): (h: string)
    ensures |h| == |AuthPrefix()| + 6
    ensures h[..|AuthPrefix()|] == AuthPrefix() && h[|AuthPrefix()|..] == "${dsn}"
  {
    AuthPrefix() + "${dsn}"
  }

  /** Every key gives the same header: the key never reaches Sentry. */
  lemma AuthHeaderIgnoresKey(dsn1: string, dsn2: string)
    ensures AuthHeader(dsn1) == AuthHeader(dsn2)
    ensures dsn1 != "${dsn}" ==> AuthHeader(dsn1)[|AuthPrefix()|..] != dsn1
  {
  }

  /** The POST each attempt makes: the serialised event goes out as it is,
      to the project's endpoint, with headers that depend on nothing. */
  function StorePost(projectId: string, dsn: string, body: string): (p: Post)
    ensures p.body == body && p.url == StoreUrl(projectId)
    ensures p.httpMethod == "POST" && p.contentType == "application/json"
    ensures p.auth == AuthHeader("")
  {
    Post(StoreUrl(projectId), "POST", "application/json", AuthHeader(dsn), body)
  }

  // ------------------------------------------------------------ the replies

  /** What one `fetch` comes back with: a response with its status and its
      body read as JSON (`None` where `res.json()` rejects), or a rejection. */
  datatype Reply<J> = Response(status: int, json: Option<J>) | NetworkError

  /** `console.error({ httpStatus: res.status, ...(await res.json()) })`. */
  datatype LogEntry<J> = LogEntry(httpStatus: int, body: J)

  datatype Verdict =
    | Delivered   // a reply with status 200
    | Exhausted   // six replies, none with status 200
    | Raised      // the promise rejects

  datatype Outcome<J> = Outcome(verdict: Verdict, attempts: nat, logged: seq<LogEntry<J>>)

  /** A reply after which the loop goes on: not 200, with a JSON body. */
  predicate Continues<J>(r: Reply<J>)
  {
    r.Response? && r.status != 200 && r.json.Some?
  }

  predicate IsSuccess<J>(r: Reply<J>)
  {
    r.Response? && r.status == 200
  }

  /** The attempt at which the loop leaves, counting from `i`, or
      `MaxAttempts` when every reply lets it go on. */
  function Stop<J>(replies: nat -> Reply<J>, i: nat): (k: nat)
    requires i <= MaxAttempts
    ensures i <= k <= MaxAttempts
    ensures forall j | i <= j < k :: Continues(replies(j))
    ensures k < MaxAttempts ==> !Continues(replies(k))
    decreases MaxAttempts - i
  {
    if i == MaxAttempts || !Continues(replies(i)) then i else Stop(replies, i + 1)
  }

  /** The rest of the delivery from attempt `i` on: the reference the loop
      is proved against. */
  function OutcomeFrom<J>(replies: nat -> Reply<J>, i: nat): Outcome<J>
    requires i <= MaxAttempts
    decreases MaxAttempts - i
  {
    if i == MaxAttempts then Outcome(Exhausted, 0, [])
    else match replies(i)
      case NetworkError => Outcome(Raised, 1, [])
      case Response(status, json) =>
        if status == 200 then Outcome(Delivered, 1, [])
        else if json.None? then Outcome(Raised, 1, [])
        else
          var rest := OutcomeFrom(replies, i + 1);
          Outcome(rest.verdict, 1 + rest.attempts, [LogEntry(status, json.value)] + rest.logged)
  }

  /** From attempt `i` on: at most the remaining attempts, one log entry
      per POST but the one that ends the loop, and one per POST when the
      attempts run out. */
  lemma {:induction false} OutcomeFromBound<J>(replies: nat -> Reply<J>, i: nat)
    requires i <= MaxAttempts
    ensures var o := OutcomeFrom(replies, i);
      && o.attempts <= MaxAttempts - i
      && (o.verdict == Exhausted ==> o.attempts == |o.logged| == MaxAttempts - i)
      && (o.verdict != Exhausted ==> o.attempts == |o.logged| + 1)
    decreases MaxAttempts - i
  {
    if i < MaxAttempts && Continues(replies(i)) {
      OutcomeFromBound(replies, i + 1);
    }
  }

  function Deliveries<J>(replies: nat -> Reply<J>): Outcome<J>
  {
    OutcomeFrom(replies, 0)
  }

  lemma {:induction false} AttemptsByStop<J>(replies: nat -> Reply<J>, i: nat)
    requires i <= MaxAttempts
    ensures OutcomeFrom(replies, i).attempts
         == (if Stop(replies, i) < MaxAttempts then Stop(replies, i) + 1 else MaxAttempts) - i
    decreases MaxAttempts - i
  {
    if i < MaxAttempts && Continues(replies(i)) {
      AttemptsByStop(replies, i + 1);
    }
  }

  lemma {:induction false} VerdictByStop<J>(replies: nat -> Reply<J>, i: nat)
    requires i <= MaxAttempts
    ensures var k := Stop(replies, i);
      OutcomeFrom(replies, i).verdict
        == (if k == MaxAttempts then Exhausted else if IsSuccess(replies(k)) then Delivered else Raised)
    decreases MaxAttempts - i
  {
    if i < MaxAttempts && Continues(replies(i)) {
      VerdictByStop(replies, i + 1);
    }
  }

  /** The log entry a reply that lets the loop go on produces. */
  function EntryOf<J>(r: Reply<J>): LogEntry<J>
    requires Continues(r)
  {
    LogEntry(r.status, r.json.value)
  }

  lemma OutcomeStep<J>(replies: nat -> Reply<J>, i: nat)
    requires i < MaxAttempts && Continues(replies(i))
    ensures OutcomeFrom(replies, i).logged == [EntryOf(replies(i))] + OutcomeFrom(replies, i + 1).logged
    ensures Stop(replies, i) == Stop(replies, i + 1)
  {
  }

  /** The log entries of replies `i` to `k - 1`, all of which let the loop
      go on. */
  function Entries<J>(replies: nat -> Reply<J>, i: nat, k: nat): (es: seq<LogEntry<J>>)
    requires i <= k && forall j | i <= j < k :: Continues(replies(j))
    decreases k - i
  {
    if i == k then [] else [EntryOf(replies(i))] + Entries(replies, i + 1, k)
  }

  lemma {:induction false} EntriesAt<J>(replies: nat -> Reply<J>, i: nat, k: nat)
    requires i <= k && forall j | i <= j < k :: Continues(replies(j))
    ensures |Entries(replies, i, k)| == k - i
    ensures forall j | i <= j < k :: Entries(replies, i, k)[j - i] == EntryOf(replies(j))
    decreases k - i
  {
    if i < k {
      EntriesAt(replies, i + 1, k);
      var es, rest := Entries(replies, i, k), Entries(replies, i + 1, k);
      forall j | i < j < k ensures es[j - i] == EntryOf(replies(j)) {
        assert es[j - i] == rest[j - (i + 1)];
      }
    }
  }

  lemma {:induction false} LoggedByStop<J>(replies: nat -> Reply<J>, i: nat)
    requires i <= MaxAttempts
    ensures OutcomeFrom(replies, i).logged == Entries(replies, i, Stop(replies, i))
    decreases MaxAttempts - i
  {
    if i < MaxAttempts && Continues(replies(i)) {
      OutcomeStep(replies, i);
      LoggedByStop(replies, i + 1);
    }
  }

  /** The delivery in terms of where it stops: every reply before the stop
      is logged, one POST is made per reply up to and including the one it
      stops at, and that reply decides the verdict. */
  lemma OutcomeByStop<J>(replies: nat -> Reply<J>)
    ensures var k, o := Stop(replies, 0), Deliveries(replies);
      && o.attempts == (if k < MaxAttempts then k + 1 else MaxAttempts)
      && |o.logged| == k
      && (forall j | 0 <= j < k :: o.logged[j] == EntryOf(replies(j)))
      && o.verdict == (if k == MaxAttempts then Exhausted else if IsSuccess(replies(k)) then Delivered else Raised)
  {
    AttemptsByStop(replies, 0);
    VerdictByStop(replies, 0);
    LoggedByStop(replies, 0);
    EntriesAt(replies, 0, Stop(replies, 0));
  }

  /** At least one POST and never more than six. */
  lemma AttemptsBound<J>(replies: nat -> Reply<J>)
    ensures 1 <= Deliveries(replies).attempts <= MaxAttempts
    ensures |Deliveries(replies).logged| == Deliveries(replies).attempts - 1
      || (|Deliveries(replies).logged| == MaxAttempts && Deliveries(replies).attempts == MaxAttempts)
  {
    OutcomeByStop(replies);
  }

  /** The first attempt `k` whose reply is a 200, all earlier replies
      letting the loop go on. */
  predicate SucceedsAt<J>(replies: nat -> Reply<J>, k: nat)
  {
    k < MaxAttempts && IsSuccess(replies(k)) && forall j | 0 <= j < k :: Continues(replies(j))
  }

  /** A first success is where the loop stops. */
  lemma SucceedsAtStop<J>(replies: nat -> Reply<J>, k: nat)
    requires SucceedsAt(replies, k)
    ensures Stop(replies, 0) == k
  {
    var s := Stop(replies, 0);
    assert !Continues(replies(k));
    assert s < MaxAttempts ==> !Continues(replies(s));
  }

  /** Delivery succeeds exactly when a 200 comes before any failure within
      six attempts, and then it stops right there having logged every
      earlier reply. */
  lemma DeliveredIff<J>(replies: nat -> Reply<J>)
    ensures Deliveries(replies).verdict == Delivered <==> exists k: nat :: SucceedsAt(replies, k)
    ensures forall k: nat | SucceedsAt(replies, k) ::
      Deliveries(replies).attempts == k + 1 && |Deliveries(replies).logged| == k
  {
    OutcomeByStop(replies);
    forall k: nat | SucceedsAt(replies, k) ensures Stop(replies, 0) == k {
      SucceedsAtStop(replies, k);
    }
    if Deliveries(replies).verdict == Delivered {
      assert SucceedsAt(replies, Stop(replies, 0));
    }
  }

  /** Six replies that all let the loop go on exhaust it: six POSTs, six log
      entries, no rejection. */
  lemma ExhaustedIff<J>(replies: nat -> Reply<J>)
    ensures Deliveries(replies).verdict == Exhausted <==> forall j | 0 <= j < MaxAttempts :: Continues(replies(j))
    ensures Deliveries(replies).verdict == Exhausted ==>
      Deliveries(replies).attempts == MaxAttempts && |Deliveries(replies).logged| == MaxAttempts
  {
    OutcomeByStop(replies);
  }

  /** The promise rejects exactly when, before any 200, a request fails or
      a reply's body is not JSON; the POST that met it is the last one. */
  lemma RaisedIff<J>(replies: nat -> Reply<J>)
    ensures Deliveries(replies).verdict == Raised <==>
      exists k | 0 <= k < MaxAttempts ::
        && (replies(k).NetworkError? || (replies(k).status != 200 && replies(k).json.None?))
        && (forall j | 0 <= j < k :: Continues(replies(j)))
        && Deliveries(replies).attempts == k + 1
  {
    OutcomeByStop(replies);
    var s := Stop(replies, 0);
    if Deliveries(replies).verdict == Raised {
      assert s < MaxAttempts;
    }
  }

  // ----------------------------------------------------------------- loop

  /** What attempt `i` contributes to the outcome: a reply that lets the
      loop go on is logged in front of the rest, any other ends it. */
  lemma OutcomeAt<J>(replies: nat -> Reply<J>, i: nat)
    requires i < MaxAttempts
    ensures var o, r := OutcomeFrom(replies, i), replies(i);
      && (IsSuccess(r) ==> o == Outcome(Delivered, 1, []))
      && (!IsSuccess(r) && !Continues(r) ==> o == Outcome(Raised, 1, []))
      && (Continues(r) ==>
            var rest := OutcomeFrom(replies, i + 1);
            o == Outcome(rest.verdict, 1 + rest.attempts, [EntryOf(r)] + rest.logged))
  {
  }

  /** After `i` attempts that let the loop go on, having logged `logged`,
      the rest of the delivery completes the whole of it. */
  ghost predicate OnTrack<J>(replies: nat -> Reply<J>, i: nat, logged: seq<LogEntry<J>>)
    requires i <= MaxAttempts
  {
    var rest := OutcomeFrom(replies, i);
    Deliveries(replies) == Outcome(rest.verdict, i + rest.attempts, logged + rest.logged)
  }

  lemma TrackStart<J>(replies: nat -> Reply<J>)
    ensures OnTrack(replies, 0, [])
  {
    assert [] + Deliveries(replies).logged == Deliveries(replies).logged;
  }

  lemma TrackStep<J>(replies: nat -> Reply<J>, i: nat, logged: seq<LogEntry<J>>)
    requires i < MaxAttempts && OnTrack(replies, i, logged) && Continues(replies(i))
    ensures OnTrack(replies, i + 1, logged + [EntryOf(replies(i))])
  {
    OutcomeAt(replies, i);
    var rest := OutcomeFrom(replies, i + 1);
    assert logged + ([EntryOf(replies(i))] + rest.logged) == (logged + [EntryOf(replies(i))]) + rest.logged;
  }

  lemma TrackStop<J>(replies: nat -> Reply<J>, i: nat, logged: seq<LogEntry<J>>)
    requires i < MaxAttempts && OnTrack(replies, i, logged) && !Continues(replies(i))
    ensures Deliveries(replies) == Outcome(if IsSuccess(replies(i)) then Delivered else Raised, i + 1, logged)
  {
    OutcomeAt(replies, i);
    assert logged + [] == logged;
  }

  lemma TrackEnd<J>(replies: nat -> Reply<J>, logged: seq<LogEntry<J>>)
    requires OnTrack(replies, MaxAttempts, logged)
    ensures Deliveries(replies) == Outcome(Exhausted, MaxAttempts, logged)
  {
    assert logged + [] == logged;
  }

  /** The retry loop of `log`, sending `post` (the same URL, headers and
      body on every attempt). */
  method Deliver<J>(post: Post, replies: nat -> Reply<J>)
    returns (verdict: Verdict, sent: seq<Post>, logged: seq<LogEntry<J>>)
    ensures Deliveries(replies) == Outcome(verdict, |sent|, logged)
    ensures forall i | 0 <= i < |sent| :: sent[i] == post
  {
    sent, logged := [], [];
    var i := 0;
    TrackStart(replies);
    while i <= 5
      invariant 0 <= i <= MaxAttempts
      invariant |sent| == i
      invariant forall j | 0 <= j < i :: sent[j] == post
      invariant OnTrack(replies, i, logged)
    {
      var res := replies(i);
      sent := sent + [post];
      if res.NetworkError? {
        TrackStop(replies, i, logged);
        return Raised, sent, logged;
      }
      if res.status == 200 {
        TrackStop(replies, i, logged);
        return Delivered, sent, logged;
      }
      if res.json.None? {
        TrackStop(replies, i, logged);
        return Raised, sent, logged;
      }
      TrackStep(replies, i, logged);
      logged := logged + [LogEntry(res.status, res.json.value)];
      i := i + 1;
    }
    TrackEnd(replies, logged);
    verdict := Exhausted;
  }

  // ------------------------------------------------------------------ log

  /** `log(err, request, app, release, projectId, dsn, env)`: builds the
      event from sixteen random bytes, the clock reading and the URL parser,
      serialises it with `stringify`, and delivers it. A builder that throws,
      or a serialisation that throws (`None`: a BigInt or a cycle among the
      error's own properties), rejects the promise before any request. */
  method Log<V, H, B, J>(
    err: ErrorInfo<V>, request: Option<RequestInfo<H, B>>, app: string, release: string,
    projectId: string, dsn: string, env: Option<string>,
    random: seq<Byte>, nowMillis: int, urlSearch: string -> Option<string>,
    stringify: Event<V, H, B> -> Option<string>, replies: nat -> Reply<J>)
    returns (verdict: Verdict, sent: seq<Post>, logged: seq<LogEntry<J>>)
    requires |random| == 16
    ensures var event := ToSentryEvent(err, request, app, release, env, HexOf(Tagged(random)), nowMillis, urlSearch);
      && (event.Normal? ==> IsUuidV4(event.value.eventId))
      && (event.Throw? || stringify(event.value).None? ==> verdict == Raised && sent == [] && logged == [])
      && (event.Normal? && stringify(event.value).Some? ==>
            && Deliveries(replies) == Outcome(verdict, |sent|, logged)
            && forall i | 0 <= i < |sent| :: sent[i] == StorePost(projectId, dsn, stringify(event.value).value))
  {
    var id := UuidV4(random);
    var event := ToSentryEvent(err, request, app, release, env, id, nowMillis, urlSearch);
    if event.Throw? {
      return Raised, [], [];
    }
    EventFields(err, request, app, release, env, id, nowMillis, urlSearch);
    var body := stringify(event.value);
    if body.None? {
      return Raised, [], [];
    }
    verdict, sent, logged := Deliver(StorePost(projectId, dsn, body.value), replies);
  }

  // ------------------------------------------------------------ scenarios

  /** A first reply of 200 means one POST and nothing logged. */
  lemma FirstReplySucceeds<J>(replies: nat -> Reply<J>)
    requires IsSuccess(replies(0))
    ensures Deliveries(replies) == Outcome(Delivered, 1, [])
  {
  }

  /** A server that always answers 500 with a JSON body gets six POSTs and
      six log lines with status 500. */
  lemma AlwaysServerError<J>(replies: nat -> Reply<J>, body: J)
    requires forall i :: replies(i) == Response(500, Some(body))
    ensures Deliveries(replies) == Outcome(Exhausted, 6, seq(6, _ => LogEntry(500, body)))
  {
    OutcomeByStop(replies);
    assert Stop(replies, 0) == MaxAttempts;
  }

  /** A 200 after three failures ends the loop at the fourth POST. */
  lemma SucceedsAtFourth<J>(replies: nat -> Reply<J>, body: J)
    requires forall i | 0 <= i < 3 :: replies(i) == Response(429, Some(body))
    requires IsSuccess(replies(3))
    ensures Deliveries(replies).verdict == Delivered && Deliveries(replies).attempts == 4
  {
    DeliveredIff(replies);
    assert SucceedsAt(replies, 3);
  }
}
