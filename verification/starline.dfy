/** The Starline API client: each public call builds one request, hands it
    to the transport, and turns the response into a value or an empty
    result. A call is modelled as a function from the client, its arguments
    and the outside collaborators to a Run: what the call returned or threw,
    the requests it sent, and the entries it handed to the logger. */
module Starline {
  import opened Wrappers
  import opened PhpValues
  import opened PhpArrays
  import opened Responses

  /** The four credentials held by Config. */
  datatype Config = Config(login: string, password: string, appId: string, secret: string)

  /** The client's state: the Config passed to setConfig (null until then)
      and whether setLogger was called. */
  datatype Client = Client(config: Option<Config>, hasLogger: bool)

  /** The requests the client sends, one per endpoint, with the values it
      puts in them. The URL, method and header spelling are not modelled. */
  datatype Request =
    | GetCode(appId: string, secret: string)                  // GET application/getCode
    | GetToken(appId: string, secret: string)                 // GET application/getToken
    | UserLogin(token: string, form: PhpArray<string>)        // POST user/login, token header
    | SlidAuth(slidToken: string)                             // POST json/v2/auth.slid
    | UserData(userId: int, slnet: string)                    // GET json/v3/user/{id}/data
    | SetParam(deviceId: string, slnet: string, params: Json) // POST json/v1/device/{id}/set_param

  /** The collaborators outside this code: the HTTP transport (the final
      response, after any redirects Guzzle follows), json_decode (None when
      it throws), and the md5 and sha1 hex digests. */
  datatype Env = Env(
    send: Request -> Response,
    decode: string -> Option<Json>,
    md5: string -> string,
    sha1: string -> string)

  /** The exceptions the client itself raises. */
  datatype Exception =
    | ConfigNotSet     // getConfig without setConfig
    | IncorrectParams  // fetchDevicesInfo's input check
    | ReturnTypeError  // an array returned where the method declares string
    | HttpError(status: int) // Guzzle's BadResponseException for a 4xx or 5xx response

  datatype Outcome<+T> = Returned(value: T) | Thrown(exception: Exception)

  /** What logError hands to the logger: the message and the `method` entry
      of its context, the fully qualified name of the calling method. The
      rest of the context (the decoded body or the headers) is not kept. */
  datatype LogEntry = LogEntry(message: string, caller: string)

  /** One call: its outcome, the requests sent, the log entries written. */
  datatype Run<+T> = Run(outcome: Outcome<T>, sent: seq<Request>, log: seq<LogEntry>)

  const RunQueryMethod := "Starline\\Starline::runQuery"
  const DevicesInfoMethod := "Starline\\Starline::fetchDevicesInfo"
  const SlnetTokenMethod := "Starline\\Starline::fetchSLNETToken"
  const UserTokenMethod := "Starline\\Starline::fetchUserToken"
  const CodeMethod := "Starline\\Starline::fetchCode"
  const TokenMethod := "Starline\\Starline::fetchToken"

  // ---------------------------------------------------------------------------
  // Helpers of the client class

  /** getConfig: the config, or an exception when setConfig was never called. */
  function GetConfig(c: Client): (o: Outcome<Config>)
    ensures o.Returned? <==> c.config.Some?
    ensures o.Returned? ==> o.value == c.config.value
    ensures o.Thrown? ==> o.exception == ConfigNotSet
  {
    match c.config
    case None => Thrown(ConfigNotSet)
    case Some(cfg) => Returned(cfg)
  }

  /** logError: a no-op without a logger, one entry with one. */
  function LogError(c: Client, message: string, caller: string): (log: seq<LogEntry>)
    ensures |log| <= 1
    ensures log != [] <==> c.hasLogger
    ensures log != [] ==> log[0] == LogEntry(message, caller)
  {
    if c.hasLogger then [LogEntry(message, caller)] else []
  }

  /** The log written on the way to an outcome: nothing on success, nothing
      for a decode failure, one entry per logged rejection. `errorMessage` is
      the call's own message for a missing success field. */
  function VerdictLog<T>(c: Client, r: Response, v: Verdict<T>, caller: string, errorMessage: string)
    : (log: seq<LogEntry>)
    ensures |log| <= 1
    ensures log == [] <==> !c.hasLogger || v.Accept? || v.reason == MalformedJson
    ensures log != [] ==> log[0].caller == caller
    ensures log != [] && v.reason == ErrorResponse ==> log[0].message == errorMessage
  {
    match v
    case Accept(_) => []
    case Reject(reason) =>
      match reason
      case BadStatus(status) => LogError(c, "Respond status code: " + IntToDecimal(status), caller)
      case EmptyBody => LogError(c, "Response is empty: " + r.body, caller)
      case MalformedJson => []
      case ErrorResponse => LogError(c, errorMessage, caller)
      case NoCookies => LogError(c, "SLNET not found in response cookies", caller)
      case NoSlnet => LogError(c, "SLNET not found in response cookies", caller)
      case EmptySlnet => LogError(c, "SLNET not found in response cookies", caller)
  }

  /** Sending a request through getClient's Guzzle client. The client leaves
      Guzzle's `http_errors` option at its default, so a response with a
      status of 400 or more is raised as an exception inside the request
      and never reaches checkResponse. */
  function Transport(env: Env, req: Request): (o: Outcome<Response>)
    ensures o.Thrown? <==> env.send(req).status >= 400
    ensures o.Thrown? ==> o.exception == HttpError(env.send(req).status)
    ensures o.Returned? ==> o.value == env.send(req) && o.value.status < 400
  {
    var resp := env.send(req);
    if resp.status >= 400 then Thrown(HttpError(resp.status)) else Returned(resp)
  }

  /** Returning a value from a method declared `: string` without
      strict_types: strings pass, integers and booleans are converted, an
      array raises a TypeError. */
  function ReturnAsString(v: Json): (o: Outcome<string>)
    ensures o.Thrown? <==> v.Null? || v.Arr? || v.Obj?
    ensures o.Returned? ==> o.value == ToStr(v)
    ensures v.Str? ==> o == Returned(v.s)
  {
    match v
    case Str(s) => Returned(s)
    case Int(i) => Returned(IntToDecimal(i))
    case Bool(b) => Returned(if b then "1" else "")
    case _ => Thrown(ReturnTypeError)
  }

  // ---------------------------------------------------------------------------
  // The public calls

  /** fetchCode: GET getCode with the app id and md5(secret); returns the
      `desc.code` string, or "" on any failure. */
  function FetchCode(c: Client, env: Env): (run: Run<string>)
    ensures c.config.None? ==> run == Run(Thrown(ConfigNotSet), [], [])
    ensures c.config.Some? ==>
      run.sent == [GetCode(c.config.value.appId, env.md5(c.config.value.secret))]
    ensures c.config.Some? ==>
      var resp := env.send(run.sent[0]);
      run.outcome == if resp.status >= 400 then Thrown(HttpError(resp.status))
        else Returned(AppCredential(resp, env.decode(resp.body), "code").OrElse(""))
    ensures !c.hasLogger ==> run.log == []
  {
    match GetConfig(c)
    case Thrown(e) => Run(Thrown(e), [], [])
    case Returned(cfg) =>
      var req := GetCode(cfg.appId, env.md5(cfg.secret));
      match Transport(env, req)
      case Thrown(e) => Run(Thrown(e), [req], [])
      case Returned(resp) =>
        var v := AppCredential(resp, env.decode(resp.body), "code");
        Run(Returned(v.OrElse("")), [req], VerdictLog(c, resp, v, CodeMethod, "Code not found in response."))
  }

  /** fetchToken: an empty() code ("" or "0") returns "" at once, before
      reading the config or sending anything; otherwise GET getToken with
      md5(secret . code) and return the `desc.token` string, or "". */
  function FetchToken(c: Client, code: string, env: Env): (run: Run<string>)
    ensures IsEmptyString(code) ==> run == Run(Returned(""), [], [])
    ensures !IsEmptyString(code) && c.config.None? ==> run == Run(Thrown(ConfigNotSet), [], [])
    ensures !IsEmptyString(code) && c.config.Some? ==>
      run.sent == [GetToken(c.config.value.appId, env.md5(c.config.value.secret + code))]
    ensures !IsEmptyString(code) && c.config.Some? ==>
      var resp := env.send(run.sent[0]);
      run.outcome == if resp.status >= 400 then Thrown(HttpError(resp.status))
        else Returned(AppCredential(resp, env.decode(resp.body), "token").OrElse(""))
    ensures !c.hasLogger ==> run.log == []
  {
    if Empty(Str(code)) then Run(Returned(""), [], [])
    else
      match GetConfig(c)
      case Thrown(e) => Run(Thrown(e), [], [])
      case Returned(cfg) =>
        var req := GetToken(cfg.appId, env.md5(cfg.secret + code));
        match Transport(env, req)
        case Thrown(e) => Run(Thrown(e), [req], [])
        case Returned(resp) =>
          var v := AppCredential(resp, env.decode(resp.body), "token");
          Run(Returned(v.OrElse("")), [req], VerdictLog(c, resp, v, TokenMethod, "Token not found in response api"))
  }

  /** The login form fetchUserToken posts: login and sha1(password), with
      the caller's extra parameters merged over them when there are any. */
  function LoginForm(login: string, passHash: string, params: PhpArray<string>): (form: PhpArray<string>)
    ensures |form| >= 2 && form[0].0 == StrKey("login") && form[1].0 == StrKey("pass")
    ensures |params| == 0 ==> form == [(StrKey("login"), login), (StrKey("pass"), passHash)]
  {
    var base := [(StrKey("login"), login), (StrKey("pass"), passHash)];
    MergeIntoKeepsPrefix(MergeInto([], base), params);
    BaseFormIsNormal(login, passHash);
    if |params| != 0 then ArrayMerge(base, params) else base
  }

  /** fetchUserToken: POST the login form with the application token as a
      header. Succeeds only when `state` is the integer 1, and then returns
      `desc.user_token` (or ""), converted to a string; "" on any failure. */
  function FetchUserToken(c: Client, token: string, params: PhpArray<string>, env: Env): (run: Run<string>)
    ensures c.config.None? ==> run == Run(Thrown(ConfigNotSet), [], [])
    ensures c.config.Some? ==>
      run.sent == [UserLogin(token, LoginForm(c.config.value.login, env.sha1(c.config.value.password), params))]
    ensures c.config.Some? ==>
      var resp := env.send(run.sent[0]);
      var v := UserTokenField(resp, env.decode(resp.body));
      run.outcome ==
        if resp.status >= 400 then Thrown(HttpError(resp.status))
        else if v.Accept? then ReturnAsString(v.value)
        else Returned("")
    ensures !c.hasLogger ==> run.log == []
  {
    match GetConfig(c)
    case Thrown(e) => Run(Thrown(e), [], [])
    case Returned(cfg) =>
      var req := UserLogin(token, LoginForm(cfg.login, env.sha1(cfg.password), params));
      match Transport(env, req)
      case Thrown(e) => Run(Thrown(e), [req], [])
      case Returned(resp) =>
        var v := UserTokenField(resp, env.decode(resp.body));
        var outcome := match v
          case Reject(_) => Returned("")
          case Accept(userToken) => ReturnAsString(userToken);
        Run(outcome, [req], VerdictLog(c, resp, v, UserTokenMethod, "fetchUserToken error response"))
  }

  /** fetchSLNETToken: POST the user token; returns [slnet, user id] when
      the JSON gate and the cookie both pass, and [] otherwise. */
  function FetchSLNETToken(c: Client, userToken: string, env: Env): (run: Run<seq<string>>)
    ensures run.sent == [SlidAuth(userToken)]
    ensures var resp := env.send(SlidAuth(userToken));
      run.outcome.Thrown? <==> resp.status >= 400
    ensures run.outcome.Thrown? ==> run.outcome.exception == HttpError(env.send(SlidAuth(userToken)).status)
    ensures run.outcome.Returned? ==> |run.outcome.value| == 0 || |run.outcome.value| == 2
    ensures run.outcome.Returned? ==>
      var resp := env.send(SlidAuth(userToken));
      var v := SlnetSession(resp, env.decode(resp.body));
      && (|run.outcome.value| == 2 <==> v.Accept?)
      && (v.Accept? ==> run.outcome.value == [v.value.0, v.value.1])
    ensures !c.hasLogger ==> run.log == []
  {
    var req := SlidAuth(userToken);
    match Transport(env, req)
    case Thrown(e) => Run(Thrown(e), [req], [])
    case Returned(resp) =>
      var v := SlnetSession(resp, env.decode(resp.body));
      var result := match v
        case Reject(_) => []
        case Accept(session) => [session.0, session.1];
      Run(Returned(result), [req], VerdictLog(c, resp, v, SlnetTokenMethod, "Error response"))
  }

  /** fetchDevicesInfo's input check exactly as written:
      `empty($slnetToken) || empty($userToken || !$userId)`. */
  predicate DevicesGuardThrows(slnet: string, userToken: string, userId: int) {
    Empty(Str(slnet)) || Empty(Bool(Truthy(Str(userToken)) || !Truthy(Int(userId))))
  }

  /** fetchDevicesInfo: throws on the input check before sending anything;
      otherwise GET the user's data with the slnet cookie and return the
      decoded body when its `code` is non-empty, and [] otherwise. */
  function FetchDevicesInfo(c: Client, slnet: string, userToken: string, userId: int, env: Env)
    : (run: Run<Json>)
    ensures DevicesGuardThrows(slnet, userToken, userId) ==> run == Run(Thrown(IncorrectParams), [], [])
    ensures !DevicesGuardThrows(slnet, userToken, userId) ==> run.sent == [UserData(userId, slnet)]
    ensures !DevicesGuardThrows(slnet, userToken, userId) ==>
      var resp := env.send(UserData(userId, slnet));
      run.outcome == if resp.status >= 400 then Thrown(HttpError(resp.status))
        else Returned(DataBody(resp, env.decode(resp.body)).OrElse(Arr([])))
    ensures run.outcome == Thrown(IncorrectParams) <==> DevicesGuardThrows(slnet, userToken, userId)
    ensures !c.hasLogger ==> run.log == []
  {
    if DevicesGuardThrows(slnet, userToken, userId) then Run(Thrown(IncorrectParams), [], [])
    else
      var req := UserData(userId, slnet);
      match Transport(env, req)
      case Thrown(e) => Run(Thrown(e), [req], [])
      case Returned(resp) =>
        var v := DataBody(resp, env.decode(resp.body));
        Run(Returned(v.OrElse(Arr([]))), [req], VerdictLog(c, resp, v, DevicesInfoMethod, "Error response"))
  }

  /** runQuery: POST the command parameters as JSON with the slnet cookie;
      return the decoded body when its `code` is non-empty, and [] otherwise. */
  function RunQuery(c: Client, slnet: string, deviceId: string, params: Json, env: Env): (run: Run<Json>)
    ensures run.sent == [SetParam(deviceId, slnet, params)]
    ensures var resp := env.send(SetParam(deviceId, slnet, params));
      run.outcome == if resp.status >= 400 then Thrown(HttpError(resp.status))
        else Returned(DataBody(resp, env.decode(resp.body)).OrElse(Arr([])))
    ensures !c.hasLogger ==> run.log == []
  {
    var req := SetParam(deviceId, slnet, params);
    match Transport(env, req)
    case Thrown(e) => Run(Thrown(e), [req], [])
    case Returned(resp) =>
      var v := DataBody(resp, env.decode(resp.body));
      Run(Returned(v.OrElse(Arr([]))), [req], VerdictLog(c, resp, v, RunQueryMethod, "Error response"))
  }

  // ---------------------------------------------------------------------------
  // Lemmas

  /** The two derived fields form an array that array_merge leaves as it is. */
  lemma BaseFormIsNormal(login: string, passHash: string)
    ensures var base := [(StrKey("login"), login), (StrKey("pass"), passHash)];
      MergeInto([], base) == base
  {
    var base := [(StrKey("login"), login), (StrKey("pass"), passHash)];
    MergeIntoFreshStrKeys([], base);
  }

  /** The caller's string keys win over the derived login and pass; every
      other string key keeps the value it had. */
  lemma {:induction false} LoginFormOverrides(login: string, passHash: string, params: PhpArray<string>, s: string)
    requires DistinctKeys(params)
    ensures Get(LoginForm(login, passHash, params), StrKey(s)) ==
      if Get(params, StrKey(s)).Some? then Get(params, StrKey(s))
      else Get([(StrKey("login"), login), (StrKey("pass"), passHash)], StrKey(s))
  {
    var base := [(StrKey("login"), login), (StrKey("pass"), passHash)];
    if |params| != 0 {
      BaseFormIsNormal(login, passHash);
      MergeIntoStrKey(base, params, s);
    }
  }

  /** Skipping array_merge for empty parameters changes nothing: merging an
      empty array would give the same two-field form. */
  lemma EmptyParamsMergeIsIdentity(login: string, passHash: string)
    ensures ArrayMerge([(StrKey("login"), login), (StrKey("pass"), passHash)], []) == LoginForm(login, passHash, [])
  {
    BaseFormIsNormal(login, passHash);
  }

  /** Integer-keyed parameters are appended under fresh keys counted from 0,
      whatever keys the caller used. */
  lemma IntKeyParamsRenumbered(login: string, passHash: string, v: string)
    ensures LoginForm(login, passHash, [(IntKey(7), v)]) ==
      [(StrKey("login"), login), (StrKey("pass"), passHash), (IntKey(0), v)]
  {
    var base := [(StrKey("login"), login), (StrKey("pass"), passHash)];
    BaseFormIsNormal(login, passHash);
    assert IntCount(base) == 0 by {
      assert base[1..][1..] == [];
      assert IntCount(base[1..][1..]) == 0;
      assert IntCount(base[1..]) == 0;
    }
    var params: PhpArray<string> := [(IntKey(7), v)];
    assert MergeInto(base, params) == MergeInto(base + [(IntKey(0), v)], params[1..]);
  }

  /** fetchDevicesInfo's check, read out: it throws exactly when the slnet
      token is empty(), or the user token is empty() and the user id is not 0. */
  lemma DevicesGuardAsWritten(slnet: string, userToken: string, userId: int)
    ensures DevicesGuardThrows(slnet, userToken, userId) <==>
      (slnet == "" || slnet == "0") || ((userToken == "" || userToken == "0") && userId != 0)
  {
  }

  /** The check is weaker than its evident intent of rejecting an empty
      slnet token, an empty user token or a zero user id: whatever it
      rejects the intent rejects, but a zero user id passes it. */
  lemma DevicesGuardWeakerThanIntent(slnet: string, userToken: string, userId: int)
    ensures DevicesGuardThrows(slnet, userToken, userId) ==>
      IsEmptyString(slnet) || IsEmptyString(userToken) || userId == 0
    ensures !DevicesGuardThrows("s", "t", 0) && !DevicesGuardThrows("s", "", 0)
    ensures DevicesGuardThrows("s", "", 5) && DevicesGuardThrows("", "tok", 1)
  {
  }

  /** A run that ends in the call's empty result, unless the response to
      its one request had a status of 400 or more, which Guzzle raised. */
  ghost predicate EmptyUnlessRaised<T>(run: Run<T>, env: Env, empty: T) {
    if |run.sent| > 0 && env.send(run.sent[0]).status >= 400
    then run.outcome == Thrown(HttpError(env.send(run.sent[0]).status))
    else run.outcome == Returned(empty)
  }

  /** When every response fails checkResponse (a status other than 200, or
      a body of "" or "0"), every call returns its empty result, or raises
      the status when it is 400 or more; the log never holds more than the
      one checkResponse message. */
  lemma {:induction false} FailedCheckGivesEmptyResults(
    c: Client, env: Env, code: string, token: string, params: PhpArray<string>,
    slnet: string, userToken: string, userId: int, deviceId: string, command: Json)
    requires c.config.Some?
    requires forall q :: env.send(q).status != 200 || IsEmptyString(env.send(q).body)
    ensures EmptyUnlessRaised(FetchCode(c, env), env, "")
    ensures EmptyUnlessRaised(FetchToken(c, code, env), env, "")
    ensures EmptyUnlessRaised(FetchUserToken(c, token, params, env), env, "")
    ensures EmptyUnlessRaised(FetchSLNETToken(c, userToken, env), env, [])
    ensures !DevicesGuardThrows(slnet, userToken, userId) ==>
      EmptyUnlessRaised(FetchDevicesInfo(c, slnet, userToken, userId, env), env, Arr([]))
    ensures EmptyUnlessRaised(RunQuery(c, slnet, deviceId, command, env), env, Arr([]))
  {
    var cfg := c.config.value;
    var r1 := env.send(GetCode(cfg.appId, env.md5(cfg.secret)));
    assert CheckResponse(r1).Some?;
    var r2 := env.send(GetToken(cfg.appId, env.md5(cfg.secret + code)));
    assert CheckResponse(r2).Some?;
    var r3 := env.send(UserLogin(token, LoginForm(cfg.login, env.sha1(cfg.password), params)));
    assert CheckResponse(r3).Some?;
    var r4 := env.send(SlidAuth(userToken));
    assert CheckResponse(r4).Some?;
    var r5 := env.send(UserData(userId, slnet));
    assert CheckResponse(r5).Some?;
    var r6 := env.send(SetParam(deviceId, slnet, command));
    assert CheckResponse(r6).Some?;
  }
}
