/**
 * The authenticated request engine of src/api.rs: URL derivation, the token
 * slot (the global `TOKEN`, here a field of `Session`), `foreplay`,
 * `get_request` and the expired-token retry loop of the three `*_request`
 * functions.
 *
 * The network is not modelled. The server's answers to the loop's GET
 * requests are given as a sequence of replies that the untagged
 * `ResponseResult` enum has already classified, and the login endpoint is an
 * oracle: `login(k)` is the reply to the k-th login of the request. The loop
 * is unbounded in the source; here, running out of scripted replies while the
 * loop would go on is the outcome `Unfinished`. Every message the loop sends
 * is recorded, in order, as a `Wire` value.
 */
module Api {
  import opened Wrappers
  import opened Strings
  import opened Auth
  import opened Responses
  import Calendar

  const BaseUrl: string := "https://web.spaggiari.eu/rest/v1"
  const StudentPlaceholder: string := "<studentID>"

  /** The endpoints, each with one placeholder after the students' prefix. */
  const StudentsUrl: string := BaseUrl + "/students/"
  const AbsencesUrl: string := StudentsUrl + StudentPlaceholder + "/absences/details"
  const GradesUrl: string := StudentsUrl + StudentPlaceholder + "/grades"

  function AgendaUrl(window: (string, string)): string
  {
    StudentsUrl + StudentPlaceholder + ("/agenda/all/" + window.0 + "/" + window.1)
  }

  // ---------------------------------------------------------------------------
  // URL derivation
  // ---------------------------------------------------------------------------

  /** `process_url`: every `<studentID>` is replaced by the student id. */
  function ProcessUrl(url: string, studentId: string): string
  {
    Replace(url, StudentPlaceholder, studentId)
  }

  /** A URL without the placeholder is returned unchanged. */
  lemma ProcessUrlWithoutPlaceholder(url: string, studentId: string)
    requires forall i: nat :: !OccursAt(url, StudentPlaceholder, i)
    ensures ProcessUrl(url, studentId) == url
  {
    ReplaceWithoutOccurrence(url, StudentPlaceholder, studentId);
  }

  /** With an id that shares no character with the placeholder (a numeric id), none is left. */
  lemma ProcessUrlLeavesNoPlaceholder(url: string, studentId: string)
    requires ForeignTo(studentId, StudentPlaceholder)
    ensures forall i: nat :: !OccursAt(ProcessUrl(url, studentId), StudentPlaceholder, i)
  {
    ReplaceLeavesNoOccurrence(url, StudentPlaceholder, studentId);
  }

  /** A URL whose only `<` is that of its one placeholder gets the id in that place. */
  lemma ProcessUrlOnePlaceholder(a: string, b: string, studentId: string)
    requires '<' !in a && '<' !in b
    ensures ProcessUrl(a + StudentPlaceholder + b, studentId) == a + studentId + b
  {
    var rest := StudentPlaceholder[1..];
    assert forall k :: 0 <= k < |rest| ==> rest[k] != '<';
    ReplaceOnlyOccurrence(a, StudentPlaceholder, b, studentId);
  }

  lemma StudentsUrlHasNoAngle()
    ensures '<' !in StudentsUrl
  {
    assert forall k :: 0 <= k < |StudentsUrl| ==> StudentsUrl[k] != '<';
  }

  lemma GradesUrlForStudent(studentId: string)
    ensures ProcessUrl(GradesUrl, studentId) == StudentsUrl + studentId + "/grades"
  {
    StudentsUrlHasNoAngle();
    ProcessUrlOnePlaceholder(StudentsUrl, "/grades", studentId);
  }

  lemma AbsencesUrlForStudent(studentId: string)
    ensures ProcessUrl(AbsencesUrl, studentId) == StudentsUrl + studentId + "/absences/details"
  {
    StudentsUrlHasNoAngle();
    ProcessUrlOnePlaceholder(StudentsUrl, "/absences/details", studentId);
  }

  /** The agenda URL names the student in its one placeholder when the window dates hold no `<`. */
  lemma AgendaUrlForStudent(window: (string, string), studentId: string)
    requires '<' !in window.0 && '<' !in window.1
    ensures ProcessUrl(AgendaUrl(window), studentId)
      == StudentsUrl + studentId + "/agenda/all/" + window.0 + "/" + window.1
  {
    var b := "/agenda/all/" + window.0 + "/" + window.1;
    assert '<' !in b by {
      var all := "/agenda/all/";
      assert forall k :: 0 <= k < |all| ==> all[k] != '<';
    }
    StudentsUrlHasNoAngle();
    ProcessUrlOnePlaceholder(StudentsUrl, b, studentId);
  }

  /**
   * The window of `agenda_request`: an explicit date is both ends of the
   * window; without one, the computed week window, formatted by `format`
   * (chrono's "%Y%m%d").
   */
  function AgendaWindow(selected: Option<string>, today: int, format: int -> string): (w: (string, string))
    ensures selected.Some? ==> w == (selected.value, selected.value)
    ensures selected.None? ==>
      w == (format(Calendar.WeekWindow(today).0), format(Calendar.WeekWindow(today).1))
  {
    match selected
    case None =>
      var (start, end) := Calendar.WeekWindow(today);
      (format(start), format(end))
    case Some(date) => (date, date)
  }

  // ---------------------------------------------------------------------------
  // Replies
  // ---------------------------------------------------------------------------

  /** A GET reply, classified: expired token, the payload the call expects, another variant, or no variant. */
  datatype Reply<T> = Expired | Expected(payload: T) | Other | ParseError

  /** A response body by the variant shapes it matches; `NotJson` is not JSON at all. */
  datatype Body<T> = NotJson | Json(expiredShape: bool, payloadShape: Option<T>, otherShape: bool)

  /**
   * serde's untagged matching: the variants are tried in declaration order
   * and the first that fits wins; `ExpiredToken` is declared first.
   */
  function Classify<T>(body: Body<T>): (r: Reply<T>)
    ensures r.Expired? <==> body.Json? && body.expiredShape
    ensures r.Expected? <==> body.Json? && !body.expiredShape && body.payloadShape.Some?
    ensures r.Expected? ==> r.payload == body.payloadShape.value
    ensures r.ParseError? <==>
      body.NotJson? || (!body.expiredShape && body.payloadShape.None? && !body.otherShape)
  {
    match body
    case NotJson => ParseError
    case Json(expired, payload, other) =>
      if expired then Expired
      else if payload.Some? then Expected(payload.value)
      else if other then Other
      else ParseError
  }

  // ---------------------------------------------------------------------------
  // Messages, failures, outcomes
  // ---------------------------------------------------------------------------

  /** A message sent to the server: a login POST, or a GET with its `z-auth-token` header. */
  datatype Wire = PostLogin(data: LoginData) | Get(url: string, authToken: string)

  /** The fatal ends of a request: a failed login, an unexpected variant, an unparseable body. */
  datatype Failure = LoginFailed(reason: LoginFailure) | WrongReturnType | UnparseableResponse

  datatype Outcome<T> = Done(payload: T) | Failed(failure: Failure) | Unfinished

  function LoginPost(credentials: Credentials): Wire
  {
    PostLogin(NewLoginData(credentials))
  }

  // ---------------------------------------------------------------------------
  // foreplay and get_request
  // ---------------------------------------------------------------------------

  /**
   * `foreplay`: logs in exactly when the slot is empty, and hands the new
   * token back to the caller without storing it.
   */
  function Foreplay(slot: Option<TokenCredential>, login: nat -> LoginReply, n: nat)
    : (r: Option<Result<TokenCredential, LoginFailure>>)
    ensures r.Some? <==> slot.None?
    ensures r.Some? ==> r.value == LoginResult(login(n))
  {
    if slot.None? then Some(LoginResult(login(n))) else None
  }

  /** What one `get_request` sends, the token it used, and how many logins have happened. */
  datatype GetResult = GetResult(wire: seq<Wire>, token: Result<TokenCredential, LoginFailure>, logins: nat)

  /**
   * `get_request`: reads the slot, logs in through `foreplay` when it is
   * empty, and sends the GET for the URL with the student id filled in. It
   * only reads the slot: the slot is a parameter here, not a result.
   */
  function GetRequest(url: string, slot: Option<TokenCredential>, credentials: Credentials,
                      login: nat -> LoginReply, n: nat): (g: GetResult)
  {
    var stored := slot.GetOr(TokenCredential("", "", ""));
    var loggedIn := Foreplay(slot, login, n);
    var posts := if loggedIn.Some? then [LoginPost(credentials)] else [];
    var used := if loggedIn.Some? then n + 1 else n;
    if loggedIn.Some? && loggedIn.value.Err? then
      GetResult(posts, Err(loggedIn.value.error), used)
    else
      var tokenCredential := if loggedIn.Some? then loggedIn.value.value else stored;
      GetResult(posts + [Get(ProcessUrl(url, tokenCredential.studentId), tokenCredential.token)],
                Ok(tokenCredential), used)
  }

  /**
   * With a stored token, one GET with it and no login; with an empty slot, a
   * login first, and the GET only if the login gave a token, with that token.
   */
  lemma GetRequestSpec(url: string, slot: Option<TokenCredential>, credentials: Credentials,
                       login: nat -> LoginReply, n: nat)
    ensures var g := GetRequest(url, slot, credentials, login, n);
      slot.Some? ==>
        g == GetResult([Get(ProcessUrl(url, slot.value.studentId), slot.value.token)], Ok(slot.value), n)
    ensures var g := GetRequest(url, slot, credentials, login, n);
      slot.None? ==>
        && g.logins == n + 1
        && g.token == LoginResult(login(n))
        && |g.wire| >= 1 && g.wire[..1] == [LoginPost(credentials)]
        && (g.token.Err? ==> |g.wire| == 1)
        && (g.token.Ok? ==>
              g.wire[1..] == [Get(ProcessUrl(url, g.token.value.studentId), g.token.value.token)])
  {
  }

  // ---------------------------------------------------------------------------
  // The retry loop
  // ---------------------------------------------------------------------------

  datatype RunResult<T> = RunResult(outcome: Outcome<T>, wire: seq<Wire>, slot: Option<TokenCredential>)

  function Prefixed<T>(w: seq<Wire>, r: RunResult<T>): RunResult<T>
  {
    r.(wire := w + r.wire)
  }

  /**
   * The loop of `absences_request`, `grades_request` and `agenda_request`
   * from the slot `slot`, with `n` logins done so far: one `get_request` per
   * reply; an expired token triggers a login whose token replaces the slot
   * before the same URL is requested again.
   */
  function Run<T>(url: string, credentials: Credentials, login: nat -> LoginReply,
                  slot: Option<TokenCredential>, n: nat, replies: seq<Reply<T>>): RunResult<T>
    decreases |replies|
  {
    var g := GetRequest(url, slot, credentials, login, n);
    if g.token.Err? then RunResult(Failed(LoginFailed(g.token.error)), g.wire, slot)
    else if replies == [] then RunResult(Unfinished, g.wire, slot)
    else
      match replies[0]
      case Expected(p) => RunResult(Done(p), g.wire, slot)
      case Other => RunResult(Failed(WrongReturnType), g.wire, slot)
      case ParseError => RunResult(Failed(UnparseableResponse), g.wire, slot)
      case Expired =>
        var relogin := LoginResult(login(g.logins));
        var w := g.wire + [LoginPost(credentials)];
        if relogin.Err? then RunResult(Failed(LoginFailed(relogin.error)), w, slot)
        else Prefixed(w, Run(url, credentials, login, Some(relogin.value), g.logins + 1, replies[1..]))
  }

  /** How a round that does not retry ends the loop. */
  function StopOutcome<T>(token: Result<TokenCredential, LoginFailure>, replies: seq<Reply<T>>): Outcome<T>
  {
    if token.Err? then Failed(LoginFailed(token.error))
    else if replies == [] then Unfinished
    else if replies[0].Expired? then Unfinished
    else Decision(replies[0])
  }

  /**
   * One round of the loop that ends it: the GET's login failed, replies ran
   * out, or the reply decides. `w` is what was sent before the round.
   */
  lemma RunStops<T>(w: seq<Wire>, url: string, credentials: Credentials, login: nat -> LoginReply,
                    slot: Option<TokenCredential>, n: nat, replies: seq<Reply<T>>)
    requires var g := GetRequest(url, slot, credentials, login, n);
      !(g.token.Ok? && replies != [] && replies[0].Expired?)
    ensures var g := GetRequest(url, slot, credentials, login, n);
      Prefixed(w, Run(url, credentials, login, slot, n, replies))
        == RunResult(StopOutcome(g.token, replies), w + g.wire, slot)
  {
  }

  /** The unfolding of one retrying round of `Run`, before any earlier messages are prefixed. */
  lemma RunExpiredRound<T>(url: string, credentials: Credentials, login: nat -> LoginReply,
                           slot: Option<TokenCredential>, n: nat, replies: seq<Reply<T>>)
    requires GetRequest(url, slot, credentials, login, n).token.Ok?
    requires replies != [] && replies[0].Expired?
    ensures var g := GetRequest(url, slot, credentials, login, n);
      var relogin := LoginResult(login(g.logins));
      var w := g.wire + [LoginPost(credentials)];
      Run(url, credentials, login, slot, n, replies)
        == if relogin.Err? then RunResult(Failed(LoginFailed(relogin.error)), w, slot)
           else Prefixed(w, Run(url, credentials, login, Some(relogin.value), g.logins + 1, replies[1..]))
  {
  }

  /** One round of the loop that hits an expired token and logs in again. */
  lemma RunRetries<T>(w: seq<Wire>, url: string, credentials: Credentials, login: nat -> LoginReply,
                      slot: Option<TokenCredential>, n: nat, replies: seq<Reply<T>>)
    requires GetRequest(url, slot, credentials, login, n).token.Ok?
    requires replies != [] && replies[0].Expired?
    ensures var g := GetRequest(url, slot, credentials, login, n);
      var relogin := LoginResult(login(g.logins));
      var w' := w + g.wire + [LoginPost(credentials)];
      var r := Prefixed(w, Run(url, credentials, login, slot, n, replies));
      && (relogin.Err? ==> r == RunResult(Failed(LoginFailed(relogin.error)), w', slot))
      && (relogin.Ok? ==> r == Prefixed(w', Run(url, credentials, login, Some(relogin.value), g.logins + 1, replies[1..])))
  {
    var g := GetRequest(url, slot, credentials, login, n);
    var relogin := LoginResult(login(g.logins));
    var round := g.wire + [LoginPost(credentials)];
    RunExpiredRound(url, credentials, login, slot, n, replies);
    assert w + round == w + g.wire + [LoginPost(credentials)];
    if relogin.Ok? {
      PrefixedTwice(w, round, Run(url, credentials, login, Some(relogin.value), g.logins + 1, replies[1..]));
    }
  }

  lemma PrefixedTwice<T>(w: seq<Wire>, u: seq<Wire>, r: RunResult<T>)
    ensures Prefixed(w, Prefixed(u, r)) == Prefixed(w + u, r)
  {
    assert w + (u + r.wire) == (w + u) + r.wire;
  }

  /** How a reply other than an expired token ends the loop. */
  function Decision<T>(reply: Reply<T>): Outcome<T>
    requires !reply.Expired?
  {
    match reply
    case Expected(p) => Done(p)
    case Other => Failed(WrongReturnType)
    case ParseError => Failed(UnparseableResponse)
  }

  /**
   * The reference reading of the loop's replies: expired tokens are skipped,
   * and the first other reply decides; if every reply is an expired token the
   * loop has not ended.
   */
  function Verdict<T>(replies: seq<Reply<T>>): (r: Outcome<T>)
    ensures r.Unfinished? <==> forall k :: 0 <= k < |replies| ==> replies[k].Expired?
    ensures !r.Unfinished? ==>
      exists k :: 0 <= k < |replies| && !replies[k].Expired?
        && (forall j :: 0 <= j < k ==> replies[j].Expired?)
        && r == Decision(replies[k])
  {
    if replies == [] then Unfinished
    else if replies[0].Expired? then
      var r := Verdict(replies[1..]);
      assert forall k :: 1 <= k < |replies| ==> replies[k] == replies[1..][k - 1];
      r
    else Decision(replies[0])
  }

  ghost predicate LoginsSucceed(login: nat -> LoginReply)
  {
    forall k: nat :: LoginResult(login(k)).Ok?
  }

  /**
   * When every login succeeds, the loop ends exactly as the verdict says: an
   * expected payload is returned, another variant or a parse error is fatal,
   * and a run of expired tokens keeps it going.
   */
  lemma {:induction false} RunFollowsVerdict<T>(url: string, credentials: Credentials, login: nat -> LoginReply,
                                                slot: Option<TokenCredential>, n: nat, replies: seq<Reply<T>>)
    requires LoginsSucceed(login)
    ensures Run(url, credentials, login, slot, n, replies).outcome == Verdict(replies)
    decreases |replies|
  {
    var g := GetRequest(url, slot, credentials, login, n);
    assert g.token.Ok?;
    if replies != [] && replies[0].Expired? {
      var relogin := LoginResult(login(g.logins));
      assert relogin.Ok?;
      RunFollowsVerdict(url, credentials, login, Some(relogin.value), g.logins + 1, replies[1..]);
    }
  }

  /** A login with the configured credentials, or a GET of `target`. */
  predicate Allowed(message: Wire, credentials: Credentials, target: string)
  {
    message == LoginPost(credentials) || (message.Get? && message.url == target)
  }

  /** Every message is a login with the configured credentials or a GET of `target`. */
  predicate Conforms(wire: seq<Wire>, credentials: Credentials, target: string)
  {
    wire == [] || (Allowed(wire[0], credentials, target) && Conforms(wire[1..], credentials, target))
  }

  lemma {:induction false} ConformsAppend(a: seq<Wire>, b: seq<Wire>, credentials: Credentials, target: string)
    requires Conforms(a, credentials, target) && Conforms(b, credentials, target)
    ensures Conforms(a + b, credentials, target)
    decreases |a|
  {
    if a == [] {
      assert a + b == b;
    } else {
      ConformsAppend(a[1..], b, credentials, target);
      assert (a + b)[1..] == a[1..] + b;
    }
  }

  /** The recursive reading agrees with the pointwise one. */
  lemma {:induction false} ConformsEveryMessage(wire: seq<Wire>, credentials: Credentials, target: string)
    ensures Conforms(wire, credentials, target)
        <==> forall k :: 0 <= k < |wire| ==> Allowed(wire[k], credentials, target)
    decreases |wire|
  {
    if wire != [] {
      ConformsEveryMessage(wire[1..], credentials, target);
      assert forall k :: 1 <= k < |wire| ==> wire[k] == wire[1..][k - 1];
    }
  }

  /** One `get_request` for a token of student `studentId` conforms. */
  lemma GetRequestConforms(url: string, slot: Option<TokenCredential>, credentials: Credentials,
                           login: nat -> LoginReply, n: nat, studentId: string)
    requires slot.Some? ==> slot.value.studentId == studentId
    requires LoginResult(login(n)).Ok? ==> LoginResult(login(n)).value.studentId == studentId
    ensures Conforms(GetRequest(url, slot, credentials, login, n).wire, credentials, ProcessUrl(url, studentId))
  {
    var g := GetRequest(url, slot, credentials, login, n);
    var target := ProcessUrl(url, studentId);
    if slot.None? && g.token.Ok? {
      assert g.wire[1..][1..] == [];
      assert Conforms(g.wire[1..], credentials, target);
    }
  }

  /** `RunKeepsUrl` after messages `w` that already conform. */
  lemma {:induction false} RunKeepsUrlAfter<T>(w: seq<Wire>, url: string, credentials: Credentials,
                                               login: nat -> LoginReply, slot: Option<TokenCredential>, n: nat,
                                               replies: seq<Reply<T>>, studentId: string)
    requires Conforms(w, credentials, ProcessUrl(url, studentId))
    requires slot.Some? ==> slot.value.studentId == studentId
    requires forall k: nat :: LoginResult(login(k)).Ok? ==> LoginResult(login(k)).value.studentId == studentId
    ensures Conforms(Prefixed(w, Run(url, credentials, login, slot, n, replies)).wire,
                     credentials, ProcessUrl(url, studentId))
    decreases |replies|
  {
    var target := ProcessUrl(url, studentId);
    var g := GetRequest(url, slot, credentials, login, n);
    GetRequestConforms(url, slot, credentials, login, n, studentId);
    ConformsAppend(w, g.wire, credentials, target);
    if !(g.token.Ok? && replies != [] && replies[0].Expired?) {
      RunStops(w, url, credentials, login, slot, n, replies);
    } else {
      RunRetries(w, url, credentials, login, slot, n, replies);
      var relogin := LoginResult(login(g.logins));
      ConformsAppend(w + g.wire, [LoginPost(credentials)], credentials, target);
      if relogin.Ok? {
        RunKeepsUrlAfter(w + g.wire + [LoginPost(credentials)], url, credentials, login,
                         Some(relogin.value), g.logins + 1, replies[1..], studentId);
      }
    }
  }

  /**
   * Every GET of the loop asks for the same URL when every token it can hold
   * names the same student, and every login posts the configured credentials.
   */
  lemma RunKeepsUrl<T>(url: string, credentials: Credentials, login: nat -> LoginReply,
                       slot: Option<TokenCredential>, n: nat, replies: seq<Reply<T>>, studentId: string)
    requires slot.Some? ==> slot.value.studentId == studentId
    requires forall k: nat :: LoginResult(login(k)).Ok? ==> LoginResult(login(k)).value.studentId == studentId
    ensures Conforms(Run(url, credentials, login, slot, n, replies).wire, credentials, ProcessUrl(url, studentId))
  {
    RunKeepsUrlAfter([], url, credentials, login, slot, n, replies, studentId);
    var r := Run(url, credentials, login, slot, n, replies);
    assert Prefixed([], r).wire == r.wire;
  }

  /**
   * The slot only ever holds the token it started with or one a login of this
   * request returned; a request whose first reply is not an expired token
   * leaves it as it was, even when `foreplay` had to log in.
   */
  lemma {:induction false} RunSlot<T>(url: string, credentials: Credentials, login: nat -> LoginReply,
                                      slot: Option<TokenCredential>, n: nat, replies: seq<Reply<T>>)
    ensures var r := Run(url, credentials, login, slot, n, replies);
      r.slot == slot || (r.slot.Some? && exists k: nat :: n <= k && LoginResult(login(k)) == Ok(r.slot.value))
    ensures replies != [] && !replies[0].Expired? ==> Run(url, credentials, login, slot, n, replies).slot == slot
    decreases |replies|
  {
    var g := GetRequest(url, slot, credentials, login, n);
    if g.token.Ok? && replies != [] && replies[0].Expired? {
      var relogin := LoginResult(login(g.logins));
      if relogin.Ok? {
        RunSlot(url, credentials, login, Some(relogin.value), g.logins + 1, replies[1..]);
      }
    }
  }

  /** After an expired token, with logins that succeed, the slot is filled. */
  lemma RunFillsSlotAfterExpiry<T>(url: string, credentials: Credentials, login: nat -> LoginReply,
                                   slot: Option<TokenCredential>, n: nat, replies: seq<Reply<T>>)
    requires LoginsSucceed(login)
    requires replies != [] && replies[0].Expired?
    ensures Run(url, credentials, login, slot, n, replies).slot.Some?
  {
    var g := GetRequest(url, slot, credentials, login, n);
    assert g.token.Ok?;
    var relogin := LoginResult(login(g.logins));
    assert relogin.Ok?;
    RunSlot(url, credentials, login, Some(relogin.value), g.logins + 1, replies[1..]);
  }

  /**
   * A whole exchange from an empty slot: `foreplay` logs in for the first GET,
   * the expired token forces a second login whose token fills the slot, and
   * the retry reuses it for the same URL.
   */
  lemma ExpiredThenExpectedTrace<T>(url: string, credentials: Credentials, reply: LoginReply, p: T)
    requires LoginResult(reply).Ok?
    ensures var t := LoginResult(reply).value;
      var get := Get(ProcessUrl(url, t.studentId), t.token);
      Run(url, credentials, (k: nat) => reply, None, 0, [Expired, Expected(p)])
        == RunResult(Done(p), [LoginPost(credentials), get, LoginPost(credentials), get], Some(t))
  {
    var replies: seq<Reply<T>> := [Expired, Expected(p)];
    assert replies[1..] == [Expected(p)];
  }

  // ---------------------------------------------------------------------------
  // The session: the token slot and the three requests
  // ---------------------------------------------------------------------------

  class Session {
    /** The token slot: `None` until a token has been loaded or stored. */
    var token: Option<TokenCredential>
    const credentials: Credentials

    /** The slot starts with the token read from the token file, if any. */
    constructor (credentials: Credentials, stored: Option<TokenCredential>)
      ensures this.credentials == credentials && token == stored
    {
      this.credentials := credentials;
      token := stored;
    }

    /** The retry loop for one URL, built once before the loop. */
    method Fetch<T>(url: string, login: nat -> LoginReply, replies: seq<Reply<T>>)
      returns (outcome: Outcome<T>, wire: seq<Wire>)
      modifies this
      ensures var r := Run(url, credentials, login, old(token), 0, replies);
        outcome == r.outcome && wire == r.wire && token == r.slot
    {
      var i: nat, n: nat := 0, 0;
      wire := [];
      while true
        invariant 0 <= i <= |replies|
        invariant Run(url, credentials, login, old(token), 0, replies)
          == Prefixed(wire, Run(url, credentials, login, token, n, replies[i..]))
        decreases |replies| - i
      {
        var g := GetRequest(url, token, credentials, login, n);
        if !(g.token.Ok? && i < |replies| && replies[i].Expired?) {
          RunStops(wire, url, credentials, login, token, n, replies[i..]);
          wire := wire + g.wire;
          if g.token.Err? {
            return Failed(LoginFailed(g.token.error)), wire;
          } else if i == |replies| {
            return Unfinished, wire;
          }
          assert replies[i..][0] == replies[i];
          match replies[i] {
            case Expected(payload) =>
              return Done(payload), wire;
            case Other =>
              return Failed(WrongReturnType), wire;
            case ParseError =>
              return Failed(UnparseableResponse), wire;
          }
        }
        RunRetries(wire, url, credentials, login, token, n, replies[i..]);
        assert replies[i..][1..] == replies[i + 1..];
        wire, n, i := wire + g.wire, g.logins, i + 1;
        var relogin := Login(login(n));
        wire, n := wire + [LoginPost(credentials)], n + 1;
        if relogin.Err? {
          return Failed(LoginFailed(relogin.error)), wire;
        }
        token := Some(relogin.value);
      }
    }

    method AbsencesRequest(login: nat -> LoginReply, replies: seq<Reply<Absences>>)
      returns (outcome: Outcome<Absences>, wire: seq<Wire>)
      modifies this
      ensures var r := Run(AbsencesUrl, credentials, login, old(token), 0, replies);
        outcome == r.outcome && wire == r.wire && token == r.slot
    {
      outcome, wire := Fetch(AbsencesUrl, login, replies);
    }

    method GradesRequest(login: nat -> LoginReply, replies: seq<Reply<Grades>>)
      returns (outcome: Outcome<Grades>, wire: seq<Wire>)
      modifies this
      ensures var r := Run(GradesUrl, credentials, login, old(token), 0, replies);
        outcome == r.outcome && wire == r.wire && token == r.slot
    {
      outcome, wire := Fetch(GradesUrl, login, replies);
    }

    /** `agenda_request`: the window is chosen, the URL built once, then the loop runs. */
    method AgendaRequest(selected: Option<string>, today: int, format: int -> string,
                         login: nat -> LoginReply, replies: seq<Reply<Agendas>>)
      returns (outcome: Outcome<Agendas>, wire: seq<Wire>)
      modifies this
      ensures var r := Run(AgendaUrl(AgendaWindow(selected, today, format)), credentials, login, old(token), 0, replies);
        outcome == r.outcome && wire == r.wire && token == r.slot
    {
      var start: string, end: string;
      if selected.None? {
        var startDay, endDay := Calendar.GetWeekDate(today);
        start, end := format(startDay), format(endDay);
      } else {
        var date := selected.value;
        start, end := date, date;
      }
      var url := AgendaUrl((start, end));
      outcome, wire := Fetch(url, login, replies);
    }
  }
}
