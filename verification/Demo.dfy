/** The one-shot sign-in demo: a single-threaded server that walks one browser through one
    authorization code flow. Requests, the provider's answers and failing replies are arbitrary. A
    halt, from the budget or a signal, may fall between any two steps that change the state; one that falls
    before anything changed is one before the request. The event of a reply is recorded when the reply has
    returned: a halt may fall after it was sent. */
module Demo {
  import opened Letters
  import opened Options

  /** What one flow draws at random. */
  datatype Flow = Flow(state: string, nonce: string, verifier: string, cookie: string)

  datatype Cookies = Cookies(flow: Option<string>, app: Option<string>)

  /** The values a callback query gives for each name, none for a name that is absent, and whether
      it has any other name; `None` when it does not parse. */
  datatype Fields = Fields(code: seq<string>, state: seq<string>, iss: seq<string>, sessionState: seq<string>,
                           foreign: bool)

  type Query = Option<Fields>

  datatype Target = Callback(query: Query) | Protected | Root | Login | Elsewhere

  datatype Verb = Get | Post(ownForm: bool) | Other

  datatype Request =
    | TimedOut                 // no request line in time
    | NoLine                   // the peer went away
    | Broken(limit: bool)      // a line or header over its limit, or another error while reading
    | Unparsable               // answered by `send_error`
    | Parsed(host: bool, authorization: bool, framing: bool, verb: Verb, target: Target,
             cookies: Option<Cookies>)   // `None` when the cookie header is refused

  datatype Outcome = Done | Failure(tag: string) | Error | Refusal | Halt

  datatype Result = Passed | Failed(tag: string) | Running

  // ---------------------------------------------------------------- what happened

  datatype Event =
    | Denied                                                  // cookieless 403 before any login
    | Started(flow: Flow)
    | Redirected
    | Consumed(presented: Option<string>)
    | StateVerified(query: Query, code: string)
    | Exchanged(code: string, verifier: string, secret: string)
    | ExchangeVerified
    | TokenVerified(subject: string)
    | UserinfoVerified(sub: string)
    | SignedIn(subject: string, cookie: string)
    | CallbackAnswered
    | Granted(cookie: string)                                 // 200 with this cookie presented

  datatype Story = Story(flow: Flow, presented: Option<string>, query: Query, code: string, secret: string,
                         subject: string, cookie: string)

  /** The only way a flow can go. */
  ghost function Script(s: Story): (events: seq<Event>)
    ensures |events| == 11
  {
    [Started(s.flow), Redirected, Consumed(s.presented), StateVerified(s.query, s.code),
     Exchanged(s.code, s.flow.verifier, s.secret), ExchangeVerified, TokenVerified(s.subject),
     UserinfoVerified(s.subject), SignedIn(s.subject, s.cookie), CallbackAnswered, Granted(s.cookie)]
  }

  ghost function Denials(n: nat): seq<Event> {
    seq(n, _ => Denied)
  }

  /** The trace is some denials and then the first `k` events of the script, with the callback bound
      to its flow by cookie, state and issuer. */
  ghost predicate Follows(trace: seq<Event>, denials: nat, s: Story, k: nat, issuer: string) {
    && k <= 11
    && trace == Denials(denials) + Script(s)[..k]
    && (k >= 4 ==> s.presented == Some(s.flow.cookie) && BindsCode(s.query, s.flow.state, issuer, s.code))
  }

  /** At most one flow and one token exchange, however the run went. */
  lemma AtMostOnce(trace: seq<Event>, denials: nat, s: Story, k: nat, issuer: string, i: nat, j: nat)
    requires Follows(trace, denials, s, k, issuer) && i < |trace| && j < |trace|
    ensures trace[i].Started? && trace[j].Started? ==> i == j
    ensures trace[i].Exchanged? && trace[j].Exchanged? ==> i == j
    ensures trace[i].Exchanged? ==>
              denials < i && trace[denials] == Started(s.flow) && trace[i].verifier == s.flow.verifier
  {
    assert trace[i] == if i < denials then Denied else Script(s)[i - denials];
    assert trace[j] == if j < denials then Denied else Script(s)[j - denials];
    assert k >= 1 ==> trace[denials] == Script(s)[0];
  }

  // ---------------------------------------------------------------- the callback's fields

  predicate CodeChar(c: char) {
    'A' <= c <= 'Z' || 'a' <= c <= 'z' || '0' <= c <= '9' || c == '_' || c == '-'
  }

  lemma CodeCharsAre(c: char)
    ensures CodeChar(c) <==> c in CAPITALS || c in SMALL || c in DIGITS || c in "_-"
  {
    CapitalsAre(c);
    SmallAre(c);
    DigitsAre(c);
  }

  predicate ValidCode(code: string) {
    0 < |code| <= 4096 && forall i :: 0 <= i < |code| ==> CodeChar(code[i])
  }

  /** The query is bound to the state and the issuer, and carries this one code. */
  predicate BindsCode(query: Query, state: string, issuer: string, code: string) {
    && query.Some? && !query.value.foreign && |query.value.sessionState| <= 1
    && query.value.state == [state] && query.value.iss == [issuer] && query.value.code == [code]
    && ValidCode(code)
  }

  /** `callback_fields`: the code of a query that is bound to the state and the issuer. */
  function CallbackFields(query: Query, state: string, issuer: string): (code: Option<string>)
    ensures code.Some? ==> BindsCode(query, state, issuer, code.value)
    ensures code == None ==> forall c :: !BindsCode(query, state, issuer, c)
  {
    if query == None then None else
      var f := query.value;
      if f.foreign || |f.code| > 1 || |f.state| > 1 || |f.iss| > 1 || |f.sessionState| > 1 then None
      else if |f.state| != 1 || f.state[0] != state || f.iss != [issuer] then None
      else if |f.code| != 1 || !ValidCode(f.code[0]) then None
      else Some(f.code[0])
  }

  // ---------------------------------------------------------------- the server

  /** The record's checks that a run can still set. */
  datatype Checks = Checks(denied: bool, redirected: bool, state: bool, exchange: bool, token: bool,
                           userinfo: bool, accepted: bool)
  {
    predicate All() {
      denied && redirected && state && exchange && token && userinfo && accepted
    }
  }

  ghost function ChecksAt(denials: nat, k: nat): Checks {
    Checks(denials >= 1, k >= 2, k >= 4, k >= 6, k >= 7, k >= 8, k >= 11)
  }

  /** A well-formed request that bears an Authorization header. Before the flow, three are tolerated. */
  predicate Bears(r: Request) {
    r.Parsed? && r.host && r.authorization && r.framing
  }

  /** A request that is not refused for its host, an Authorization header or its framing. */
  predicate Admitted(r: Request) {
    r.Parsed? && r.host && !r.authorization && r.framing && r.cookies.Some?
  }

  /** `GET /protected`. */
  predicate AsksProtected(r: Request) {
    Admitted(r) && r.verb == Get && r.target == Protected
  }

  /** `GET /callback`. */
  predicate CallsBack(r: Request) {
    Admitted(r) && r.verb == Get && r.target.Callback?
  }

  /** `POST /login` with the form of the demo's own page. */
  predicate LogsIn(r: Request) {
    Admitted(r) && r.verb == Post(true) && r.target == Login
  }

  /** Which request an event belongs to. */
  predicate CausedBy(e: Event, r: Request) {
    match e
    case Denied => AsksProtected(r) && r.cookies.value.app == None
    case Started(_) => LogsIn(r)
    case Redirected => LogsIn(r)
    case Consumed(presented) => CallsBack(r) && r.cookies.value.flow == presented
    case StateVerified(query, _) => CallsBack(r) && r.target.query == query
    case Granted(cookie) => AsksProtected(r) && r.cookies.value.app == Some(cookie)
    case _ => CallsBack(r)
  }

  /** Every event of the trace has its cause among the requests handled, in their order. */
  ghost predicate Caused(trace: seq<Event>, causes: seq<nat>, handled: seq<Request>) {
    && |causes| == |trace|
    && (forall i :: 0 <= i < |trace| ==> causes[i] < |handled| && CausedBy(trace[i], handled[causes[i]]))
    && (forall i, j :: 0 <= i < j < |causes| ==> causes[i] <= causes[j])
  }

  lemma CausedNow(trace: seq<Event>, causes: seq<nat>, handled: seq<Request>, e: Event)
    requires Caused(trace, causes, handled) && handled != [] && CausedBy(e, handled[|handled| - 1])
    ensures Caused(trace + [e], causes + [|handled| - 1], handled)
  {
  }

  lemma CausedStill(trace: seq<Event>, causes: seq<nat>, handled: seq<Request>, r: Request)
    requires Caused(trace, causes, handled)
    ensures Caused(trace, causes, handled + [r])
  {
  }

  /** What the requests of a complete run were, in order: a cookieless `GET /protected`, the login, the
      callback that presents the flow's cookie, and `GET /protected` with the cookie it was given. */
  lemma CompleteRun(trace: seq<Event>, causes: seq<nat>, handled: seq<Request>, denials: nat, s: Story)
    requires Caused(trace, causes, handled) && denials >= 1 && trace == Denials(denials) + Script(s)
    ensures var first, login, back, last := causes[0], causes[denials], causes[denials + 2], causes[denials + 10];
            && first <= login <= back <= last < |handled|
            && AsksProtected(handled[first]) && handled[first].cookies.value.app == None
            && LogsIn(handled[login])
            && CallsBack(handled[back]) && handled[back].cookies.value.flow == s.presented
            && AsksProtected(handled[last]) && handled[last].cookies.value.app == Some(s.cookie)
  {
    assert trace[0] == Denied && trace[denials] == Script(s)[0];
    assert trace[denials + 2] == Script(s)[2] && trace[denials + 10] == Script(s)[10];
  }

  /** How a request that raises nothing moves the run: a cookieless `GET /protected` before the login is a
      denial, the login starts the flow, the callback completes it, and `GET /protected` with the stored
      cookie is granted; anything else moves nothing. */
  predicate Moves(r: Request, k: nat, denials: nat, cookie: Option<string>, k': nat, denials': nat) {
    if k == 0 && AsksProtected(r) && r.cookies.value.app == None then k' == 0 && denials' == denials + 1
    else if k == 0 && LogsIn(r) then k' == 2 && denials' == denials
    else if k == 2 && CallsBack(r) then k' == 10 && denials' == denials
    else if k == 10 && AsksProtected(r) && cookie.Some? && r.cookies.value.app == cookie then
      k' == 11 && denials' == denials
    else k' == k && denials' == denials
  }

  /** Where a halt can fall in `callback` so that its `finally` does not drop the secret: with the flow
      just taken, with its deadline dropped and the `try` not yet entered, or in the `finally` itself. */
  datatype Strike = Never | FlowTaken | DeadlineDropped | InFinally

  /** Where a halt can fall in the `try` of `callback` up to the token request. */
  datatype Point = NoPoint | BeforeState | BeforeExchange

  class Server {
    const issuer: string
    var pending: Option<Flow>
    var pendingDeadline: bool   // the budget has a pending deadline
    var attempted: bool
    var cookie: Option<string>
    var subject: Option<string>
    var secret: Option<string>
    var done: bool
    var failure: Option<string>
    var refusals: nat
    var timeouts: nat
    var checks: Checks

    ghost var trace: seq<Event>
    ghost var denials: nat
    ghost var story: Story
    ghost var k: nat
    ghost var handled: seq<Request>  // the requests so far
    ghost var causes: seq<nat>       // which of them each event belongs to
    ghost var gap: bool         // a halt fell where the secret stays
    ghost var spoiled: bool     // an exception fell while a connection was closed

    ghost predicate Traced()
      reads `trace, `denials, `story, `k, `causes, `handled
    {
      Follows(trace, denials, story, k, issuer) && Caused(trace, causes, handled)
    }

    /** The checks say exactly which events happened, and the events follow the script. */
    ghost predicate Recorded()
      reads `trace, `denials, `story, `k, `attempted, `checks, `causes, `handled
    {
      Traced() && (k >= 1 ==> attempted) && checks == ChecksAt(denials, k)
    }

    /** The request being handled. */
    ghost predicate Handling(r: Request)
      reads `handled
    {
      handled != [] && handled[|handled| - 1] == r
    }

    /** Between two requests. */
    ghost predicate Idle()
      reads `done, `failure, `refusals, `timeouts, `gap, `spoiled, `attempted, `k, `pendingDeadline, `pending,
            `cookie, `subject, `secret, `story
    {
      && !done && failure == None && refusals < 4 && timeouts < 4 && !gap && !spoiled
      && attempted == (k >= 1) && pendingDeadline == pending.Some?
      && (|| (k == 0 && pending == None && cookie == None && subject == None && secret.Some?)
          || (k == 2 && pending == Some(story.flow) && cookie == None && subject == None && secret.Some?)
          || (k == 10 && pending == None && cookie == Some(story.cookie) && subject == Some(story.subject)
              && secret == None))
    }

    /** After the last request, if it was not halted. */
    ghost predicate Ended()
      reads `done, `gap, `failure, `k, `denials, `spoiled
    {
      done && !gap && (failure == None <==> k == 11 && denials >= 1 && !spoiled)
    }

    /** At any point outside `callback`: after a flow was consumed, the secret is gone exactly if no
        halt fell in the gap. */
    ghost predicate Guarded()
      reads `k, `pending, `secret, `gap, `refusals, `timeouts
    {
      && (k >= 3 ==> pending == None && (secret == None <==> !gap))
      && refusals <= 4 && timeouts <= 4
    }

    constructor (issuer: string, secret: string)
      ensures Recorded() && Idle() && trace == [] && this.issuer == issuer && this.secret == Some(secret)
    {
      this.issuer, this.secret := issuer, Some(secret);
      pending, cookie, subject, failure := None, None, None, None;
      pendingDeadline, attempted, done, refusals, timeouts := false, false, false, 0, 0;
      checks := Checks(false, false, false, false, false, false, false);
      trace, denials, k, gap, spoiled := [], 0, 0, false, false;
      handled, causes := [], [];
    }

    /** The next event of the script. */
    ghost method Next(e: Event, s: Story)
      requires Traced() && k < 11
      requires Script(s)[..k] == Script(story)[..k] && Script(s)[k] == e
      requires k + 1 >= 4 ==> s.presented == Some(s.flow.cookie) && BindsCode(s.query, s.flow.state, issuer, s.code)
      requires handled != [] && CausedBy(e, handled[|handled| - 1])
      modifies `trace, `story, `k, `causes
      ensures Traced()
      ensures trace == old(trace) + [e] && k == old(k) + 1 && story == s
    {
      CausedNow(trace, causes, handled, e);
      trace, story, k, causes := trace + [e], s, k + 1, causes + [|handled| - 1];
      assert Script(s)[..k] == Script(s)[..k - 1] + [e];
    }

    ghost method NextStarted(flow: Flow)
      requires Traced() && k == 0
      requires handled != [] && CausedBy(Started(flow), handled[|handled| - 1])
      modifies `trace, `story, `k, `causes
      ensures Traced()
      ensures k == 1 && story == old(story).(flow := flow) && trace == old(trace) + [Started(flow)]
    {
      Next(Started(flow), story.(flow := flow));
    }

    ghost method NextConsumed(presented: Option<string>)
      requires Traced() && k == 2
      requires handled != [] && CausedBy(Consumed(presented), handled[|handled| - 1])
      modifies `trace, `story, `k, `causes
      ensures Traced() && k == 3 && story == old(story).(presented := presented)
      ensures trace == old(trace) + [Consumed(presented)]
    {
      Next(Consumed(presented), story.(presented := presented));
    }

    ghost method NextState(query: Query, code: string)
      requires Traced() && k == 3
      requires story.presented == Some(story.flow.cookie) && BindsCode(query, story.flow.state, issuer, code)
      requires handled != [] && CausedBy(StateVerified(query, code), handled[|handled| - 1])
      modifies `trace, `story, `k, `causes
      ensures Traced() && k == 4
      ensures story == old(story).(query := query, code := code)
      ensures trace == old(trace) + [StateVerified(query, code)]
    {
      Next(StateVerified(query, code), story.(query := query, code := code));
    }

    ghost method NextExchanged(secret: string)
      requires Traced() && k == 4
      requires handled != [] && CausedBy(Exchanged(story.code, story.flow.verifier, secret), handled[|handled| - 1])
      modifies `trace, `story, `k, `causes
      ensures Traced() && k == 5 && story == old(story).(secret := secret)
      ensures trace == old(trace) + [Exchanged(story.code, story.flow.verifier, secret)]
    {
      Next(Exchanged(story.code, story.flow.verifier, secret), story.(secret := secret));
    }

    ghost method NextToken(subject: string)
      requires Traced() && k == 6
      requires handled != [] && CausedBy(TokenVerified(subject), handled[|handled| - 1])
      modifies `trace, `story, `k, `causes
      ensures Traced() && k == 7 && story == old(story).(subject := subject)
      ensures trace == old(trace) + [TokenVerified(subject)]
    {
      Next(TokenVerified(subject), story.(subject := subject));
    }

    ghost method NextSignedIn(cookie: string)
      requires Traced() && k == 8
      requires handled != [] && CausedBy(SignedIn(story.subject, cookie), handled[|handled| - 1])
      modifies `trace, `story, `k, `causes
      ensures Traced() && k == 9 && story == old(story).(cookie := cookie)
      ensures trace == old(trace) + [SignedIn(story.subject, cookie)]
    {
      Next(SignedIn(story.subject, cookie), story.(cookie := cookie));
    }

    /** The next event of the script, when it says nothing new about the story. */
    ghost method NextKnown(e: Event)
      requires Traced() && 4 <= k < 11 && Script(story)[k] == e
      requires handled != [] && CausedBy(e, handled[|handled| - 1])
      modifies `trace, `k, `causes
      ensures Traced() && k == old(k) + 1
      ensures trace == old(trace) + [e]
    {
      assert Script(story)[..k + 1] == Script(story)[..k] + [e];
      CausedNow(trace, causes, handled, e);
      trace, k, causes := trace + [e], k + 1, causes + [|handled| - 1];
    }

    /** A reply can be sent, fail, or be halted. */
    method Reply() returns (o: Outcome)
      ensures o in {Done, Error, Halt}
    {
      o := *;
      if o !in {Done, Error, Halt} {
        o := Done;
      }
    }

    /** `begin`. */
    method Begin(ghost r: Request) returns (o: Outcome)
      requires Recorded() && Idle() && Handling(r) && LogsIn(r)
      modifies `attempted, `pending, `pendingDeadline, `trace, `story, `k, `causes
      ensures Recorded()
      ensures o.Failure? ==> Idle()
      ensures o.Done? ==> k == 1 && pending == Some(story.flow) && pendingDeadline
      ensures o.Done? ==> cookie == None && subject == None && secret.Some?
      ensures o.Halt? ==> k <= 1
      ensures o.Done? || o.Halt? || o.Failure?
      ensures o.Failure? <==> old(k) >= 1
    {
      if attempted {
        return Failure("flow_already_started");
      }
      attempted := true;
      var strike: bool := *;
      if strike {
        return Halt;
      }
      var flow: Flow := *;
      pending := Some(flow);
      NextStarted(flow);
      strike := *;
      if strike {
        return Halt;
      }
      pendingDeadline := true;
      o := *;
      if o != Halt {
        o := Done;
      }
    }

    /** A step that asks the provider: an answer, a failure, another exception, or a halt. */
    method Ask() returns (o: Outcome, answer: string)
      ensures o != Refusal
    {
      o, answer := *, *;
      if o == Refusal {
        o := Error;
      }
    }

    /** `callback` up to the verified exchange. A halt may fall before the state is recorded as verified,
        or before the token request, in the entry of the limit around it. The exchange is attempted
        exactly if cookie, state and issuer match and no halt falls at either point. */
    method Exchange(flow: Flow, query: Query, presented: Option<string>, point: Point, ghost r: Request)
      returns (o: Outcome)
      requires Handling(r) && CallsBack(r) && r.target.query == query
      requires Recorded() && k == 3 && story.flow == flow && story.presented == presented && secret.Some?
      modifies `checks, `trace, `story, `k, `causes
      ensures Recorded() && 3 <= k <= 6 && o != Refusal
      ensures k >= 4 <==> point != BeforeState && presented == Some(flow.cookie)
                          && CallbackFields(query, flow.state, issuer).Some?
      ensures k >= 5 <==> k >= 4 && point != BeforeExchange
      ensures k == 4 ==> o == Halt
      ensures o.Done? ==> k == 6
    {
      o := MatchFlow(flow, query, presented, point, r);
      if o.Done? {
        o := if point == BeforeExchange then Halt else Done;
      }
      if o.Done? {
        o := AskTokens(r);
      }
    }

    /** The cookie, the state and the issuer are compared with the flow. */
    method MatchFlow(flow: Flow, query: Query, presented: Option<string>, point: Point, ghost r: Request)
      returns (o: Outcome)
      requires Handling(r) && CallsBack(r) && r.target.query == query
      requires Recorded() && k == 3 && story.flow == flow && story.presented == presented
      modifies `checks, `trace, `story, `k, `causes
      ensures Recorded() && o != Refusal && o != Error && k == (if o.Done? then 4 else 3)
      ensures o.Done? <==> point != BeforeState && presented == Some(flow.cookie)
                           && CallbackFields(query, flow.state, issuer).Some?
    {
      if presented != Some(flow.cookie) {
        return Failure("callback_invalid");
      }
      var code := CallbackFields(query, flow.state, issuer);
      if code == None {
        return Failure("callback_invalid");
      }
      if point == BeforeState {
        return Halt;
      }
      NextState(query, code.value);
      checks := checks.(state := true);
      o := Done;
    }

    /** The token request. */
    method AskTokens(ghost r: Request) returns (o: Outcome)
      requires Handling(r) && CallsBack(r) && Recorded() && k == 4 && secret.Some?
      modifies `checks, `trace, `story, `k, `causes
      ensures Recorded() && 5 <= k <= 6 && o != Refusal && (o.Done? ==> k == 6)
    {
      NextExchanged(secret.value);
      var access;
      o, access := Ask();
      if o.Done? {
        NextKnown(ExchangeVerified);
        checks := checks.(exchange := true);
        var late: bool := *;
        o := if late then Halt else Done;
      }
    }

    /** `callback` from the tokens to the verified subject. */
    method VerifyToken(ghost r: Request) returns (o: Outcome, verified: string)
      requires Handling(r) && CallsBack(r) && Recorded() && k == 6
      modifies `checks, `trace, `story, `k, `causes
      ensures Recorded() && 6 <= k <= 7 && o != Refusal
      ensures o.Done? ==> k == 7 && story.subject == verified
    {
      o, verified := Ask();
      if o.Done? {
        NextToken(verified);
        checks := checks.(token := true);
      }
    }

    /** The userinfo subject must be the same. */
    method CompareSubject(verified: string, ghost r: Request) returns (o: Outcome)
      requires Handling(r) && CallsBack(r) && Recorded() && k == 7 && story.subject == verified
      modifies `checks, `trace, `k, `causes
      ensures Recorded() && 7 <= k <= 8 && o != Refusal
      ensures o.Done? ==> k == 8
    {
      var sub;
      o, sub := Ask();
      if o.Done? {
        if sub != verified {
          return Failure("userinfo_failed");
        }
        NextKnown(UserinfoVerified(sub));
        checks := checks.(userinfo := true);
      }
    }

    /** The fresh cookie. */
    method IssueCookie(verified: string, ghost r: Request) returns (o: Outcome)
      requires Handling(r) && CallsBack(r) && Recorded() && k == 8 && story.subject == verified
      modifies `trace, `story, `k, `cookie, `subject, `causes
      ensures Recorded() && 8 <= k <= 9 && o in {Done, Halt}
      ensures o.Done? ==> k == 9 && cookie == Some(story.cookie) && subject == Some(story.subject)
    {
      var drawn: string := *;
      cookie := Some(drawn);
      var strike: bool := *;
      if strike {
        return Halt;
      }
      subject := Some(verified);
      NextSignedIn(drawn);
      strike := *;
      o := if strike then Halt else Done;
    }

    /** `callback` from the tokens to the fresh cookie. */
    method Identify(ghost r: Request) returns (o: Outcome)
      requires Handling(r) && CallsBack(r) && Recorded() && k == 6
      modifies `checks, `trace, `story, `k, `cookie, `subject, `causes
      ensures Recorded() && 6 <= k <= 9 && o != Refusal
      ensures k == 9 ==> o in {Done, Halt}
      ensures o.Done? ==> k == 9 && cookie == Some(story.cookie) && subject == Some(story.subject)
    {
      var verified;
      o, verified := VerifyToken(r);
      if o.Done? {
        o := CompareSubject(verified, r);
        if o.Done? {
          o := IssueCookie(verified, r);
        }
      }
    }

    /** The `try` block of `callback`. */
    method Redeem(flow: Flow, query: Query, presented: Option<string>, ghost r: Request) returns (o: Outcome)
      requires Handling(r) && CallsBack(r) && r.target.query == query
      requires Recorded() && k == 3 && story.flow == flow && story.presented == presented && secret.Some?
      modifies `checks, `trace, `story, `k, `cookie, `subject, `causes
      ensures Recorded() && 3 <= k <= 9 && o != Refusal
      ensures k >= 4 ==> presented == Some(flow.cookie) && CallbackFields(query, flow.state, issuer).Some?
      ensures o.Done? ==> k == 9 && cookie == Some(story.cookie) && subject == Some(story.subject)
    {
      var point: Point := *;
      o := Exchange(flow, query, presented, point, r);
      if o.Done? {
        o := Identify(r);
      }
    }

    /** The pending flow is taken and its deadline dropped. */
    method Take(presented: Option<string>, strike: Strike, ghost r: Request) returns (struck: bool)
      requires Handling(r) && CallsBack(r) && r.cookies.value.flow == presented
      requires Recorded() && Idle() && pending.Some?
      modifies `pending, `pendingDeadline, `trace, `story, `k, `gap, `causes
      ensures Recorded() && k == 3 && story == old(story).(presented := presented) && pending == None
      ensures gap == (strike != Never) && pendingDeadline == (strike == FlowTaken)
      ensures struck == (strike == FlowTaken || strike == DeadlineDropped)
    {
      pending := None;
      NextConsumed(presented);
      gap := strike != Never;
      if strike == FlowTaken {
        return true;
      }
      pendingDeadline := false;
      struck := strike == DeadlineDropped;
    }

    /** `callback` of the pending flow. */
    method Consume(flow: Flow, query: Query, presented: Option<string>, strike: Strike, ghost r: Request)
      returns (o: Outcome)
      requires Handling(r) && CallsBack(r) && r.cookies.value.flow == presented && r.target.query == query
      requires Recorded() && Idle() && pending == Some(flow)
      modifies `pending, `pendingDeadline, `secret, `checks, `trace, `story, `k, `cookie, `subject, `gap, `causes
      ensures Recorded() && o != Refusal && 3 <= k <= 9 && pending == None
      ensures gap == (strike != Never) && (secret == None <==> strike == Never)
      ensures pendingDeadline == (strike == FlowTaken)
      ensures gap ==> o == Halt
      ensures k >= 4 ==> presented == Some(flow.cookie) && CallbackFields(query, flow.state, issuer).Some?
      ensures o.Done? ==> k == 9 && cookie == Some(story.cookie) && subject == Some(story.subject)
    {
      var struck := Take(presented, strike, r);
      if struck {
        return Halt;
      }
      o := Redeem(flow, query, presented, r);
      if strike == InFinally {
        return Halt;
      }
      secret := None;
    }

    /** `callback`. After a flow was taken the secret is gone exactly if no halt struck in the gap. */
    method Callback(query: Query, presented: Option<string>, strike: Strike, ghost r: Request) returns (o: Outcome)
      requires Handling(r) && CallsBack(r) && r.cookies.value.flow == presented && r.target.query == query
      requires Recorded() && Idle()
      modifies `pending, `pendingDeadline, `secret, `checks, `trace, `story, `k, `cookie, `subject, `gap, `causes
      ensures Recorded() && o != Refusal && k < 11 && (gap ==> o == Halt)
      ensures old(pending) == None ==> o == Failure("callback_already_consumed") && k == old(k) && Idle()
      ensures old(pending).Some? ==>
                && k >= 3 && pending == None && gap == (strike != Never)
                && (secret == None <==> strike == Never) && pendingDeadline == (strike == FlowTaken)
      ensures Guarded()
      ensures o.Done? ==> k == 9 && cookie == Some(story.cookie) && subject == Some(story.subject)
      ensures o.Done? ==> old(k) == 2 && secret == None && pending == None && !pendingDeadline && !gap
    {
      if pending == None {
        return Failure("callback_already_consumed");
      }
      o := Consume(pending.value, query, presented, strike, r);
    }

    /** `get`. */
    method Fetch(r: Request) returns (o: Outcome)
      requires Recorded() && Idle() && Handling(r)
      requires r.Parsed? && r.host && !r.authorization && r.framing && r.verb == Get
      modifies `pending, `pendingDeadline, `secret, `checks, `trace, `story, `k, `cookie, `subject, `gap,
               `causes, `denials, `failure, `done
      ensures Recorded() && Guarded() && o != Refusal
      ensures o.Done? ==> Idle() || Ended()
      ensures o.Failure? || o.Error? ==> k < 11 && !gap
      ensures o.Done? ==> Moves(r, old(k), old(denials), old(cookie), k, denials)
    {
      if r.cookies == None {
        return Failure("request_invalid");
      }
      match r.target
      case Callback(query) => o := FetchCallback(query, r.cookies.value.flow, r);
      case Protected => o := FetchProtected(r.cookies.value.app, r);
      case Root => o := Reply();
      case Login => o := Reply();
      case Elsewhere => o := Reply();
    }

    method FetchCallback(query: Query, presented: Option<string>, ghost r: Request) returns (o: Outcome)
      requires Handling(r) && CallsBack(r) && r.cookies.value.flow == presented && r.target.query == query
      requires Recorded() && Idle()
      modifies `pending, `pendingDeadline, `secret, `checks, `trace, `story, `k, `cookie, `subject, `gap, `causes
      ensures Recorded() && Guarded() && o != Refusal && k < 11
      ensures gap ==> o == Halt
      ensures o.Done? ==> Idle() && old(k) == 2 && k == 10
    {
      var strike: Strike := *;
      o := Callback(query, presented, strike, r);
      if o.Done? {
        o := AnswerCallback(r);
      }
    }

    /** The reply to a verified callback. */
    method AnswerCallback(ghost r: Request) returns (o: Outcome)
      requires Handling(r) && CallsBack(r) && Recorded() && k == 9
      modifies `trace, `k, `causes
      ensures Recorded() && o in {Done, Error, Halt} && k == (if o.Done? then 10 else 9)
    {
      o := Reply();
      if o.Done? {
        NextKnown(CallbackAnswered);
      }
    }

    method FetchProtected(presented: Option<string>, ghost r: Request) returns (o: Outcome)
      requires Recorded() && Idle() && Handling(r) && AsksProtected(r) && r.cookies.value.app == presented
      modifies `checks, `trace, `story, `k, `denials, `failure, `done, `causes
      ensures Recorded() && Guarded() && o != Refusal
      ensures k == 11 ==> cookie.Some? && presented == cookie
      ensures o.Done? ==> (done <==> cookie.Some? && presented == cookie)
      ensures denials == old(denials) + (if o.Done? && !attempted && presented == None then 1 else 0)
      ensures o.Done? ==> Idle() || Ended()
      ensures o.Error? ==> k < 11
      ensures !o.Failure?
      ensures o.Done? ==> Moves(r, old(k), old(denials), cookie, k, denials)
    {
      var authenticated := subject.Some? && cookie.Some? && presented == cookie;
      o := Reply();
      if !o.Done? {
        return;
      }
      if authenticated {
        var strike: bool := *;
        Grant(presented.value, strike, r);
        o := if strike then Halt else Done;
      } else if !attempted && presented == None {
        Deny(r);
      }
    }

    /** What follows a 200 for the fresh cookie. With `strike` a halt falls before the run is done. */
    method Grant(presented: string, strike: bool, ghost r: Request)
      requires Handling(r) && AsksProtected(r) && r.cookies.value.app == Some(presented)
      requires Recorded() && k == 10 && presented == story.cookie && failure == None && !done
      modifies `checks, `trace, `k, `failure, `done, `causes
      ensures Recorded() && k == 11 && done == !strike
      ensures !strike ==> (failure == None <==> denials >= 1)
    {
      NextKnown(Granted(presented));
      checks := checks.(accepted := true);
      var early: bool := *;
      if strike && early {
        return;
      }
      if !checks.denied {
        failure := Some("protected_before_unobserved");
      }
      if strike {
        return;
      }
      done := true;
    }

    /** What follows a cookieless 403 before any login. */
    method Deny(ghost r: Request)
      requires Recorded() && k == 0 && Handling(r) && AsksProtected(r) && r.cookies.value.app == None
      modifies `checks, `trace, `denials, `causes
      ensures Recorded() && denials == old(denials) + 1 && trace == old(trace) + [Denied]
    {
      CausedNow(trace, causes, handled, Denied);
      trace, denials, causes := trace + [Denied], denials + 1, causes + [|handled| - 1];
      checks := checks.(denied := true);
    }

    /** The `POST` branch. */
    method SignIn(ownForm: bool, r: Request) returns (o: Outcome)
      requires Recorded() && Idle() && Handling(r)
      requires r.Parsed? && r.host && !r.authorization && r.framing && r.verb == Post(ownForm)
      modifies `attempted, `pending, `pendingDeadline, `checks, `trace, `story, `k, `causes
      ensures Recorded() && Guarded() && o != Refusal && k < 11
      ensures o.Done? ==> Idle() && old(k) == 0 && k == 2 && LogsIn(r)
    {
      if r.target != Login || !ownForm || r.cookies == None {
        return Failure("request_invalid");
      }
      o := Start(r);
    }

    /** `begin` and the redirect. */
    method Start(ghost r: Request) returns (o: Outcome)
      requires Recorded() && Idle() && Handling(r) && LogsIn(r)
      modifies `attempted, `pending, `pendingDeadline, `checks, `trace, `story, `k, `causes
      ensures Recorded() && o != Refusal && k < 11 && (k >= 3 ==> k == old(k) && pending == old(pending))
      ensures o.Done? ==> Idle() && old(k) == 0 && k == 2
    {
      o := Begin(r);
      if o.Done? {
        o := AnswerLogin(r);
      }
    }

    /** The redirect to the provider. */
    method AnswerLogin(ghost r: Request) returns (o: Outcome)
      requires Recorded() && k == 1 && Handling(r) && LogsIn(r)
      modifies `checks, `trace, `story, `k, `causes
      ensures Recorded() && story == old(story) && o in {Done, Error, Halt} && k == (if o.Done? then 2 else 1)
    {
      o := Reply();
      if o.Done? {
        Next(Redirected, story);
        checks := checks.(redirected := true);
      }
    }

    /** The four preflow conditions of the tolerated refusals. */
    predicate Preflow()
      reads this
    {
      !attempted && pending == None && cookie == None && subject == None
    }

    /** A request whose line does not come in time: three are tolerated before the flow. */
    method TimeOut() returns (o: Outcome)
      requires Recorded() && Idle()
      modifies `timeouts, `failure, `done
      ensures Guarded() && o in {Done, Error, Halt}
      ensures k >= 1 ==> o == Error && timeouts == old(timeouts)
      ensures k == 0 ==> o != Error && timeouts == old(timeouts) + 1
      ensures o.Done? ==> if timeouts == 4 then Ended() && failure == Some("request_timeout") else Idle()
    {
      if !Preflow() || done || failure.Some? || timeouts >= 4 {
        return Error;
      }
      timeouts := timeouts + 1;
      if timeouts == 4 {
        failure := Some("request_timeout");
        var strike: bool := *;
        if strike {
          return Halt;
        }
        done := true;
      }
      o := Done;
    }

    /** A request that was parsed. */
    method Dispatch(r: Request) returns (o: Outcome)
      requires Recorded() && Idle() && r.Parsed? && Handling(r)
      modifies this
      ensures !spoiled
      ensures Recorded() && Guarded() && timeouts == old(timeouts)
      ensures refusals == old(refusals) + (if Bears(r) && old(k) == 0 then 1 else 0)
      ensures o.Done? ==> Idle() || Ended()
      ensures o.Done? ==> Moves(r, old(k), old(denials), old(cookie), k, denials)
      ensures handled == old(handled)
      ensures o.Failure? || o.Error? ==> k < 11 && !gap
      ensures o.Refusal? <==> Bears(r) && old(k) == 0
      ensures o.Refusal? ==> k == 0 && denials == old(denials) && !done && !gap && failure == None
      ensures o.Refusal? && refusals < 4 ==> Idle()
    {
      if !r.host {
        return Failure("request_invalid");
      }
      if r.authorization && Preflow() && refusals < 4 {
        if !r.framing {
          return Failure("request_invalid");
        }
        refusals := refusals + 1;
        return Refusal;
      }
      if r.authorization || !r.framing {
        return Failure("request_invalid");
      }
      match r.verb
      case Get => o := Fetch(r);
      case Post(ownForm) => o := SignIn(ownForm, r);
      case Other => o := Failure("request_invalid");
    }

    /** What a request raises, before its handlers. A halt may fall before it and after it. */
    method Attempt(r: Request) returns (o: Outcome)
      requires Recorded() && Idle() && Handling(r)
      modifies this
      ensures !spoiled
      ensures Recorded() && Guarded()
      ensures o.Done? ==> Idle() || Ended()
      ensures o.Done? ==> Moves(r, old(k), old(denials), old(cookie), k, denials)
      ensures handled == old(handled)
      ensures o.Failure? || o.Error? ==> k < 11 && !gap
      ensures o.Refusal? ==> k == 0 && denials == old(denials) && !done && !gap && failure == None
      ensures o.Refusal? && refusals < 4 ==> Idle()
      ensures o != Halt ==> timeouts == old(timeouts) + (if r.TimedOut? && old(k) == 0 then 1 else 0)
      ensures o != Halt ==> refusals == old(refusals) + (if Bears(r) && old(k) == 0 then 1 else 0)
      ensures o != Halt && r.TimedOut? && old(k) == 0 ==> o.Done? && done == (timeouts == 4)
      ensures o != Halt ==> (o.Refusal? <==> Bears(r) && old(k) == 0)
    {
      var strike: bool := *;
      if strike {
        return Halt;
      }
      match r
      case TimedOut => o := TimeOut();
      case NoLine => o := Done;
      case Broken(limit) => o := if limit then Failure("request_limit") else Error;
      case Unparsable =>
        failure := Some("request_invalid");
        strike := *;
        if strike {
          return Halt;
        }
        done := true;
        o := Reply();
      case Parsed(_, _, _, _, _, _) => o := Dispatch(r);
      strike := *;
      if strike {
        o := Halt;
      }
    }

    /** One connection: the request, its handlers, and the server's last handler. `closes` says that no
        exception falls while the connection is closed: one fails the run, even after a grant. */
    method Handle(r: Request, closes: bool) returns (halted: bool)
      requires Recorded() && Idle()
      modifies this
      ensures Recorded() && Guarded()
      ensures halted || Idle() || Ended()
      ensures handled == old(handled) + [r]
      ensures !halted && closes && failure == None ==>
                Moves(r, old(k), old(denials), old(cookie), k, denials)
      ensures !halted ==> spoiled == !closes
      ensures !halted && !closes ==> failure == Some("unexpected_failure") && done
      ensures !halted && closes && r.TimedOut? && old(k) == 0 ==>
                timeouts == old(timeouts) + 1 && done == (timeouts == 4)
      ensures !halted && Bears(r) && old(k) == 0 ==> refusals == old(refusals) + 1 && (refusals == 4 ==> done)
    {
      halted := Answer(r);
      if !halted && !closes {
        failure, spoiled := Some("unexpected_failure"), true;
        var strike: bool := *;
        if strike {
          return true;
        }
        done := true;
      }
    }

    /** The request and its handlers. */
    method Answer(r: Request) returns (halted: bool)
      requires Recorded() && Idle()
      modifies this
      ensures Recorded() && Guarded() && !spoiled
      ensures halted || Idle() || Ended()
      ensures handled == old(handled) + [r]
      ensures !halted && failure == None ==> Moves(r, old(k), old(denials), old(cookie), k, denials)
      ensures !halted && r.TimedOut? && old(k) == 0 ==> timeouts == old(timeouts) + 1 && done == (timeouts == 4)
      ensures !halted && Bears(r) && old(k) == 0 ==> refusals == old(refusals) + 1 && (refusals == 4 ==> done)
    {
      CausedStill(trace, causes, handled, r);
      handled := handled + [r];
      var o := Attempt(r);
      if o.Done? {
        return false;
      }
      if o.Halt? {
        return true;
      }
      halted := Refuse(o);
    }

    /** The handlers of what a request raised, and the reply they send. */
    method Refuse(o: Outcome) returns (halted: bool)
      requires o.Failure? || o.Error? || o.Refusal?
      requires Recorded() && Guarded() && !spoiled && k < 11 && !gap
      requires o.Refusal? ==> !done && failure == None && (refusals < 4 ==> Idle())
      modifies `failure, `done
      ensures halted || Ended() || (o.Refusal? && refusals < 4 && Idle())
      ensures !halted && (!o.Refusal? || refusals == 4) ==> done && failure.Some?
    {
      if !o.Refusal? {
        failure := Some(if o.Failure? then o.tag else "unexpected_failure");
      } else if refusals == 4 {
        failure := Some("request_invalid");
      }
      var strike: bool := *;
      if strike {
        return true;
      }
      done := done || failure.Some?;
      var answer := Reply();
      if answer.Error? {
        failure, done := Some("unexpected_failure"), true;
      }
      strike := *;
      halted := strike || answer.Halt?;
    }

    /** The verdict after the loop, unless a halt falls before it: then the record is failed, even
        after a complete trace. */
    method Verdict(halted: bool) returns (result: Result)
      requires Recorded() && (!halted ==> Ended())
      ensures halted ==> result == Failed("halted")
      ensures !halted ==> (result.Passed? <==> k == 11 && denials >= 1 && !spoiled) && !result.Running?
    {
      if halted {
        return Failed("halted");
      }
      if failure.Some? {
        return Failed(failure.value);
      }
      if !checks.All() {
        return Failed("unexpected_failure");
      }
      return Passed;
    }

    /** The serving loop and its verdict, over any sequence of requests. The run passes exactly if
        no halt fell before the verdict, no exception while a connection was closed, and the trace is
        complete: at least one cookieless denial before the login, and then the whole script, from the
        redirect over the verified callback to the grant for its fresh cookie. */
    method Serve(requests: seq<Request>) returns (result: Result, ghost halted: bool)
      requires Recorded() && Idle()
      modifies this
      ensures Recorded() && Guarded() && (gap ==> halted)
      ensures result.Passed? <==> denials >= 1 && k == 11 && !halted && !spoiled
      ensures result.Passed? ==> trace == Denials(denials) + Script(story)
      ensures handled <= old(handled) + requests
      ensures halted ==> result == Failed("halted")
      ensures result.Running? ==> Idle()
    {
      var i, stopped := 0, false;
      while i < |requests| && !done && !stopped
        invariant 0 <= i <= |requests|
        invariant Recorded() && Guarded()
        invariant stopped || Idle() || Ended()
        invariant handled == old(handled) + requests[..i]
      {
        var closes: bool := *;
        stopped := Handle(requests[i], closes);
        i := i + 1;
      }
      if !done && !stopped {
        return Running, false;
      }
      var strike: bool := *;
      halted := stopped || strike;
      result := Verdict(stopped || strike);
      assert Script(story)[..11] == Script(story);
    }

    /** `clear`. */
    method Clear()
      modifies this
      ensures pending == None && cookie == None && subject == None && secret == None && !pendingDeadline
      ensures trace == old(trace) && k == old(k) && checks == old(checks)
    {
      pending, cookie, subject, secret := None, None, None, None;
      pendingDeadline := false;
    }
  }
}
