/** How the client reads a response. Each API call validates the status and
    body, decodes the JSON, and tests its own success field; the functions
    here say whether that succeeds (Accept) or why it falls back to the
    empty result (Reject). */
module Responses {
  import opened Wrappers
  import opened PhpValues
  import opened PhpStrings

  /** What the transport returns: the status code, the body text, and the
      header values under each header name exactly as the server spelled it. */
  datatype Response = Response(status: int, body: string, headers: map<string, seq<string>>)

  /** Why a call returns its empty result. */
  datatype Reason =
    | BadStatus(status: int)  // checkResponse: the status is not 200
    | EmptyBody               // checkResponse: the body is empty()
    | MalformedJson           // json_decode threw
    | ErrorResponse           // the decoded body lacks the call's success field
    | NoCookies               // no Set-Cookie value at all
    | NoSlnet                 // the first cookie does not mention slnet
    | EmptySlnet              // the slnet value is empty()

  datatype Verdict<+T> = Accept(value: T) | Reject(reason: Reason) {

    /** The accepted value, or the call's empty result. */
    function OrElse(sentinel: T): T {
      match this
      case Accept(v) => v
      case Reject(_) => sentinel
    }
  }

  // ---------------------------------------------------------------------------
  // Reference vocabulary, in plain terms rather than PHP operators

  /** The decoded document holds the non-null `leaf` at the key path `path`. */
  ghost predicate At(v: Json, path: seq<string>, leaf: Json)
    decreases |path|
  {
    if |path| == 0 then v == leaf && leaf != Null
    else v.Obj? && path[0] in v.fields && At(v.fields[path[0]], path[1..], leaf)
  }

  /** A value whose string form is not "" or "0": true, a non-zero integer,
      a string other than "" and "0", or any array (even an empty one). */
  ghost predicate NonEmptyAsString(v: Json) {
    match v
    case Null => false
    case Bool(b) => b
    case Int(i) => i != 0
    case Str(s) => s != "" && s != "0"
    case Arr(_) => true
    case Obj(_) => true
  }

  /** The response passed checkResponse and its body decoded. */
  ghost predicate Delivered(r: Response, decoded: Option<Json>) {
    r.status == 200 && r.body != "" && r.body != "0" && decoded.Some?
  }

  // ---------------------------------------------------------------------------
  // The shared checks

  /** checkResponse: a status other than 200 fails first, then an empty()
      body; "0" is as empty as "". */
  function CheckResponse(r: Response): (failure: Option<Reason>)
    ensures failure.None? <==> r.status == 200 && r.body != "" && r.body != "0"
    ensures r.status != 200 ==> failure == Some(BadStatus(r.status))
    ensures r.status == 200 && failure.Some? ==> failure == Some(EmptyBody)
  {
    if ToInt(Int(r.status)) != 200 then Some(BadStatus(r.status))
    else if Empty(Str(r.body)) then Some(EmptyBody)
    else None
  }

  /** checkResponse followed by json_decode: the decoded body, or the first
      check that failed. A decode failure is reported as MalformedJson. */
  function Decode(r: Response, decoded: Option<Json>): (v: Verdict<Json>)
    ensures v.Accept? <==> Delivered(r, decoded)
    ensures v.Accept? ==> v.value == decoded.value
    ensures CheckResponse(r).Some? ==> v == Reject(CheckResponse(r).value)
    ensures CheckResponse(r).None? && decoded.None? ==> v == Reject(MalformedJson)
  {
    match CheckResponse(r)
    case Some(reason) => Reject(reason)
    case None =>
      match decoded
      case None => Reject(MalformedJson)
      case Some(o) => Accept(o)
  }

  // ---------------------------------------------------------------------------
  // Per-call success tests

  /** fetchCode (field "code") and fetchToken (field "token"): accepted
      exactly when `desc.<field>` is a string, which is returned. A missing
      field, null, a number, a boolean or an array is rejected. */
  function AppCredential(r: Response, decoded: Option<Json>, field: string): (v: Verdict<string>)
    ensures v.Accept? <==> Delivered(r, decoded) && exists s :: At(decoded.value, ["desc", field], Str(s))
    ensures v.Accept? ==> At(decoded.value, ["desc", field], Str(v.value))
    ensures !Delivered(r, decoded) ==> v == Reject(Decode(r, decoded).reason)
    ensures Delivered(r, decoded) && v.Reject? ==> v.reason == ErrorResponse
  {
    match Decode(r, decoded)
    case Reject(reason) => Reject(reason)
    case Accept(o) =>
      var key := Field2(o, "desc", field).GetOr(Bool(false));
      FieldAt2(o, "desc", field);
      if !key.Str? then Reject(ErrorResponse) else Accept(key.s)
  }

  /** fetchUserToken: accepted only when `state` is the integer 1 (not "1",
      not true); the accepted value is `desc.user_token`, or "" when that is
      absent or null. */
  function UserTokenField(r: Response, decoded: Option<Json>): (v: Verdict<Json>)
    ensures v.Accept? <==> Delivered(r, decoded) && At(decoded.value, ["state"], Int(1))
    ensures v.Accept? ==> v.value != Null
    ensures v.Accept? ==> v.value == Str("") || At(decoded.value, ["desc", "user_token"], v.value)
    ensures v.Accept? ==> forall x :: At(decoded.value, ["desc", "user_token"], x) ==> v.value == x
    ensures !Delivered(r, decoded) ==> v == Decode(r, decoded)
    ensures Delivered(r, decoded) && v.Reject? ==> v.reason == ErrorResponse
  {
    match Decode(r, decoded)
    case Reject(reason) => Reject(reason)
    case Accept(o) =>
      var state := Field(o, "state").GetOr(Bool(false));
      FieldAt(o, "state");
      if state != Int(1) then Reject(ErrorResponse)
      else
        FieldAt2(o, "desc", "user_token");
        Accept(Field2(o, "desc", "user_token").GetOr(Str("")))
  }

  /** The JSON half of fetchSLNETToken: `(int)code` must be 200 and
      `(string)user_id` non-empty; the result is that user id string. */
  function SlnetGate(o: Json): (userId: Option<string>)
    ensures userId.Some? <==>
      && o.Obj? && "code" in o.fields && o.fields["code"] != Null && ToInt(o.fields["code"]) == 200
      && "user_id" in o.fields && NonEmptyAsString(o.fields["user_id"])
    ensures userId.Some? ==> userId.value == ToStr(o.fields["user_id"])
    ensures userId.Some? ==> !IsEmptyString(userId.value)
    ensures userId.Some? ==> Truthy(o.fields["code"])
  {
    IntCastNonZeroIsTruthy(Field(o, "code").GetOr(Null));
    var code := if Field(o, "code").Some? then Int(ToInt(Field(o, "code").value)) else Str("");
    var uid := if Field(o, "user_id").Some? then ToStr(Field(o, "user_id").value) else "";
    StrCastEmpty(Field(o, "user_id").GetOr(Null));
    if Empty(code) || code != Int(200) || Empty(Str(uid)) then None else Some(uid)
  }

  /** `$response->getHeaders()['Set-Cookie'] ?? []`: the lookup is by the
      exact name "Set-Cookie". */
  function SetCookies(headers: map<string, seq<string>>): seq<string> {
    if "Set-Cookie" in headers then headers["Set-Cookie"] else []
  }

  /** `explode('; ', $header)[0]`. */
  function FirstCookie(header: string): string {
    Explode("; ", header)[0]
  }

  /** `explode('=', $cookie)[1] ?? ''`: the text between the first and the
      second '='. */
  function CookieValue(cookie: string): (value: string)
    ensures !Contains(value, "=")
  {
    var parts := Explode("=", cookie);
    if |parts| > 1 then parts[1] else ""
  }

  /** The cookie half of fetchSLNETToken: the first Set-Cookie value, its
      first "; " segment, which must mention slnet somewhere, and the
      non-empty value after its first '='. */
  function SlnetCookie(headers: map<string, seq<string>>): (v: Verdict<string>)
    ensures v.Accept? <==>
      && |SetCookies(headers)| > 0
      && Contains(FirstCookie(SetCookies(headers)[0]), "slnet")
      && !IsEmptyString(CookieValue(FirstCookie(SetCookies(headers)[0])))
    ensures v.Accept? ==> v.value == CookieValue(FirstCookie(SetCookies(headers)[0]))
    ensures v.Accept? ==> !Contains(v.value, "=") && v.value != "" && v.value != "0"
    ensures |SetCookies(headers)| == 0 ==> v == Reject(NoCookies)
  {
    var cookies := SetCookies(headers);
    if |cookies| == 0 then Reject(NoCookies)
    else
      var first := FirstCookie(cookies[0]);
      if Find(first, "slnet").None? then Reject(NoSlnet)
      else
        var slnet := CookieValue(first);
        if Empty(Str(slnet)) then Reject(EmptySlnet) else Accept(slnet)
  }

  /** fetchSLNETToken: the JSON gate first, then the cookie; the session is
      the slnet value and the user id string. */
  function SlnetSession(r: Response, decoded: Option<Json>): (v: Verdict<(string, string)>)
    ensures v.Accept? <==>
      Delivered(r, decoded) && SlnetGate(decoded.value).Some? && SlnetCookie(r.headers).Accept?
    ensures v.Accept? ==> v.value == (SlnetCookie(r.headers).value, SlnetGate(decoded.value).value)
    ensures !Delivered(r, decoded) ==> v == Reject(Decode(r, decoded).reason)
    ensures Delivered(r, decoded) && SlnetGate(decoded.value).None? ==> v == Reject(ErrorResponse)
  {
    match Decode(r, decoded)
    case Reject(reason) => Reject(reason)
    case Accept(o) =>
      match SlnetGate(o)
      case None => Reject(ErrorResponse)
      case Some(userId) =>
        match SlnetCookie(r.headers)
        case Reject(reason) => Reject(reason)
        case Accept(slnet) => Accept((slnet, userId))
  }

  /** runQuery and fetchDevicesInfo: accepted when `(string)code` is not
      empty, and then the whole decoded body is returned unchanged. */
  function DataBody(r: Response, decoded: Option<Json>): (v: Verdict<Json>)
    ensures v.Accept? <==>
      Delivered(r, decoded) && decoded.value.Obj? && "code" in decoded.value.fields
      && NonEmptyAsString(decoded.value.fields["code"])
    ensures v.Accept? ==> v.value == decoded.value
    ensures !Delivered(r, decoded) ==> v == Decode(r, decoded)
    ensures Delivered(r, decoded) && v.Reject? ==> v.reason == ErrorResponse
  {
    match Decode(r, decoded)
    case Reject(reason) => Reject(reason)
    case Accept(o) =>
      var code := if Field(o, "code").Some? then ToStr(Field(o, "code").value) else "";
      StrCastEmpty(Field(o, "code").GetOr(Null));
      if Empty(Str(code)) then Reject(ErrorResponse) else Accept(o)
  }

  // ---------------------------------------------------------------------------
  // Lemmas connecting the PHP lookups to the reference vocabulary

  /** `$o[$k] ?? ...` finds exactly the non-null value at path [k]. */
  lemma FieldAt(o: Json, k: string)
    ensures forall x :: Field(o, k) == Some(x) <==> At(o, [k], x)
  {
    forall x
      ensures Field(o, k) == Some(x) <==> At(o, [k], x)
    {
      if o.Obj? && k in o.fields {
        assert At(o, [k], x) <==> At(o.fields[k], [], x);
      }
    }
  }

  /** `$o[$a][$b] ?? ...` finds exactly the non-null value at path [a, b]. */
  lemma FieldAt2(o: Json, a: string, b: string)
    ensures forall x :: Field2(o, a, b) == Some(x) <==> At(o, [a, b], x)
  {
    forall x
      ensures Field2(o, a, b) == Some(x) <==> At(o, [a, b], x)
    {
      if o.Obj? && a in o.fields {
        var w := o.fields[a];
        assert [a, b][1..] == [b];
        assert At(o, [a, b], x) <==> At(w, [b], x);
        FieldAt(w, b);
      }
    }
  }

  // ---------------------------------------------------------------------------
  // The cookie parsing, characterised

  /** A cookie spelled `name=value` followed by nothing or by another '='
      yields `value`; so "slnet=abc123" yields "abc123" and "slnet=a=b" yields "a". */
  lemma CookieValueOf(name: string, value: string, rest: string)
    requires '=' !in name && '=' !in value
    requires rest == "" || rest[0] == '='
    ensures CookieValue(name + "=" + value + rest) == value
  {
    assert name + "=" + value + rest == name + "=" + (value + rest);
    ExplodeCons("=", name, value + rest);
    if rest == "" {
      assert value + rest == value;
      ExplodeSingle("=", value);
    } else {
      assert value + rest == value + "=" + rest[1..];
      ExplodeCons("=", value, rest[1..]);
    }
  }

  /** A cookie without any '=' has no value. */
  lemma CookieValueWithoutEquals(cookie: string)
    requires '=' !in cookie
    ensures CookieValue(cookie) == ""
  {
    ExplodeSingle("=", cookie);
  }

  /** The first cookie of a header is everything before the first "; ". */
  lemma FirstCookieOf(cookie: string, attributes: string)
    requires ';' !in cookie
    ensures FirstCookie(cookie + "; " + attributes) == cookie
    ensures FirstCookie(cookie) == cookie
  {
    ExplodeCons("; ", cookie, attributes);
    ExplodeSingle("; ", cookie);
  }

  /** The cookie is looked at only once the JSON gate has passed: before
      that, the headers make no difference to the outcome. */
  lemma CookiesIgnoredUntilGate(r: Response, decoded: Option<Json>, headers: map<string, seq<string>>)
    requires !Delivered(r, decoded) || SlnetGate(decoded.value).None?
    ensures SlnetSession(r, decoded) == SlnetSession(r.(headers := headers), decoded)
  {
  }

  /** A first Set-Cookie value `name=value; attributes` whose first cookie
      mentions slnet yields `value`, unless that is empty(). */
  lemma SlnetCookieOf(name: string, value: string, attributes: string, others: seq<string>)
    requires '=' !in name && '=' !in value && ';' !in name && ';' !in value
    requires Contains(name + "=" + value, "slnet")
    ensures SlnetCookie(map["Set-Cookie" := [name + "=" + value + "; " + attributes] + others])
         == if IsEmptyString(value) then Reject(EmptySlnet) else Accept(value)
    ensures SlnetCookie(map["Set-Cookie" := [name + "=" + value] + others])
         == if IsEmptyString(value) then Reject(EmptySlnet) else Accept(value)
  {
    var cookie := name + "=" + value;
    assert ';' !in cookie by {
      forall k | 0 <= k < |cookie| ensures cookie[k] != ';' {
        if k < |name| { assert cookie[k] == name[k]; }
        else if k > |name| { assert cookie[k] == value[k - |name| - 1]; }
      }
    }
    FirstCookieOf(cookie, attributes);
    assert cookie == name + "=" + value + "";
    CookieValueOf(name, value, "");
  }
}
