/** Worked cases: the concrete inputs the client's behaviour is usually
    described by, each derived from the general definitions. */
module Scenarios {
  import opened Wrappers
  import opened PhpValues
  import opened PhpStrings
  import opened Responses
  import opened Starline

  // ---------------------------------------------------------------------------
  // The slnet cookie

  /** "slnet=abc123; Path=/" yields abc123, whatever attributes follow. */
  lemma CookieWithAttributes(attributes: string)
    ensures SlnetCookie(map["Set-Cookie" := ["slnet=abc123; " + attributes]]) == Accept("abc123")
  {
    var cookie := "slnet" + "=" + "abc123";
    assert cookie == "slnet=abc123";
    assert cookie + "; " == "slnet=abc123; ";
    assert OccursAt(cookie, "slnet", 0);
    SlnetCookieOf("slnet", "abc123", attributes, []);
    assert [cookie + "; " + attributes] + [] == ["slnet=abc123; " + attributes];
  }

  /** Only the text up to the second '=' is kept: "slnet=a=b" yields a. */
  lemma CookieValueStopsAtSecondEquals(more: string)
    requires ';' !in more
    ensures SlnetCookie(map["Set-Cookie" := ["slnet=a=" + more]]) == Accept("a")
  {
    var cookie := "slnet" + "=" + "a" + ("=" + more);
    assert cookie == "slnet=a=" + more;
    assert ';' !in cookie by {
      assert forall k :: 0 <= k < 8 ==> cookie[k] != ';';
      assert forall k :: 8 <= k < |cookie| ==> cookie[k] == more[k - 8];
    }
    FirstCookieOf(cookie, "");
    CookieValueOf("slnet", "a", "=" + more);
    assert OccursAt(cookie, "slnet", 0);
  }

  /** The cookie's name is not checked: "slnet" anywhere in the first
      cookie is enough, so "session=myslnet" yields myslnet. */
  lemma SlnetMayAppearInTheValue()
    ensures SlnetCookie(map["Set-Cookie" := ["session=myslnet"]]) == Accept("myslnet")
  {
    assert "session" + "=" + "myslnet" == "session=myslnet";
    assert OccursAt("session=myslnet", "slnet", 10);
    SlnetCookieOf("session", "myslnet", "", []);
    assert ["session" + "=" + "myslnet"] + [] == ["session=myslnet"];
  }

  /** Only the first cookie of the first Set-Cookie value is looked at:
      "PHPSESSID=x; slnet=abc" and a second Set-Cookie value "slnet=abc"
      are both missed. */
  lemma SlnetMustComeFirst(other: string, value: string)
    requires ';' !in other && 's' !in other
    ensures SlnetCookie(map["Set-Cookie" := [other + "; slnet=" + value]]) == Reject(NoSlnet)
    ensures SlnetCookie(map["Set-Cookie" := [other, "slnet=" + value]]) == Reject(NoSlnet)
  {
    assert other + "; slnet=" + value == other + "; " + ("slnet=" + value);
    FirstCookieOf(other, "slnet=" + value);
    FirstCharAbsent(other, "slnet");
  }

  /** An empty() value, "slnet=" or "slnet=0", is refused. */
  lemma EmptySlnetRefused(value: string, attributes: string)
    requires value == "" || value == "0"
    ensures SlnetCookie(map["Set-Cookie" := ["slnet=" + value + "; " + attributes]]) == Reject(EmptySlnet)
  {
    var cookie := "slnet" + "=" + value;
    assert "slnet" + "=" == "slnet=";
    assert cookie[..5] == "slnet";
    assert OccursAt(cookie, "slnet", 0);
    SlnetCookieOf("slnet", value, attributes, []);
    assert [cookie + "; " + attributes] + [] == ["slnet=" + value + "; " + attributes];
  }

  /** The header is looked up under its exact name "Set-Cookie". */
  lemma HeaderNameIsCaseSensitive()
    ensures SlnetCookie(map["set-cookie" := ["slnet=abc123"]]) == Reject(NoCookies)
    ensures SlnetCookie(map["Set-Cookie" := []]) == Reject(NoCookies)
  {
  }

  // ---------------------------------------------------------------------------
  // The JSON success fields

  /** {"code":200,"user_id":"42"} passes the slnet gate with user id "42". */
  lemma GateAccepts()
    ensures SlnetGate(Obj(map["code" := Int(200), "user_id" := Str("42")])) == Some("42")
  {
  }

  /** The code may also come as a numeric string and the user id as an
      integer: {"code":"200","user_id":42} passes with user id "42". */
  lemma GateCastsItsFields(uid: int)
    requires uid != 0
    ensures SlnetGate(Obj(map["code" := Str(IntToDecimal(200)), "user_id" := Int(uid)]))
         == Some(IntToDecimal(uid))
  {
    IntCastRoundTrip(200);
  }

  /** The gate refuses an empty() user id ("0" or ""), a missing user id, a
      missing code and any code other than 200, whatever else is present. */
  lemma GateRefuses(uid: Json, code: Json)
    requires code != Null && ToInt(code) != 200
    ensures SlnetGate(Obj(map["code" := Int(200), "user_id" := Str("0")])).None?
    ensures SlnetGate(Obj(map["code" := Int(200), "user_id" := Str("")])).None?
    ensures SlnetGate(Obj(map["code" := Int(200)])).None?
    ensures SlnetGate(Obj(map["user_id" := uid])).None?
    ensures SlnetGate(Obj(map["code" := code, "user_id" := uid])).None?
  {
  }

  /** runQuery and fetchDevicesInfo refuse a `code` that is null, "", 0,
      "0" or false, ... */
  lemma DataCodeRefused(r: Response, code: Json)
    requires r.status == 200 && r.body != "" && r.body != "0"
    requires Empty(code) && !code.Arr? && !code.Obj?
    ensures DataBody(r, Some(Obj(map["code" := code]))) == Reject(ErrorResponse)
    ensures DataBody(r, Some(Obj(map[]))) == Reject(ErrorResponse)
  {
  }

  /** ... and accept even an empty array, whose string form is "Array". */
  lemma DataArrayCodeAccepted(r: Response)
    requires r.status == 200 && r.body != "" && r.body != "0"
    ensures DataBody(r, Some(Obj(map["code" := Arr([])]))) == Accept(Obj(map["code" := Arr([])]))
  {
  }

  /** fetchUserToken wants `state` to be the integer 1: "1", true, 0 and a
      missing state are all refused. With state 1 and no user token the
      result is "". */
  lemma StateMustBeIntegerOne(r: Response, desc: Json)
    requires r.status == 200 && r.body != "" && r.body != "0"
    ensures UserTokenField(r, Some(Obj(map["state" := Str("1"), "desc" := desc]))) == Reject(ErrorResponse)
    ensures UserTokenField(r, Some(Obj(map["state" := Bool(true), "desc" := desc]))) == Reject(ErrorResponse)
    ensures UserTokenField(r, Some(Obj(map["state" := Int(0), "desc" := desc]))) == Reject(ErrorResponse)
    ensures UserTokenField(r, Some(Obj(map["desc" := desc]))) == Reject(ErrorResponse)
    ensures UserTokenField(r, Some(Obj(map["state" := Int(1)]))) == Accept(Str(""))
  {
  }

  // ---------------------------------------------------------------------------
  // Whole calls against a scripted transport

  /** A transport that answers getCode and getToken, and fails everything else. */
  function ChainSend(q: Request): Response {
    match q
    case GetCode(_, _) => Response(200, "{code}", map[])
    case GetToken(_, _) => Response(200, "{token}", map[])
    case _ => Response(500, "", map[])
  }

  /** json_decode for the two scripted bodies. */
  function ChainDecode(body: string): Option<Json> {
    if body == "{code}" then Some(Obj(map["desc" := Obj(map["code" := Str("C1")])]))
    else if body == "{token}" then Some(Obj(map["desc" := Obj(map["token" := Str("T1")])]))
    else None
  }

  /** With {"desc":{"code":"C1"}} from getCode and {"desc":{"token":"T1"}}
      from getToken, fetchCode gives C1 and fetchToken("C1") gives T1. */
  lemma CodeThenToken(c: Client, md5: string -> string, sha1: string -> string)
    requires c.config.Some?
    ensures FetchCode(c, Env(ChainSend, ChainDecode, md5, sha1)).outcome == Returned("C1")
    ensures FetchToken(c, "C1", Env(ChainSend, ChainDecode, md5, sha1)).outcome == Returned("T1")
  {
    var o1 := Obj(map["desc" := Obj(map["code" := Str("C1")])]);
    assert At(o1, ["desc", "code"], Str("C1")) by {
      assert ["desc", "code"][1..] == ["code"];
      assert ["code"][1..] == [];
    }
    var o2 := Obj(map["desc" := Obj(map["token" := Str("T1")])]);
    assert At(o2, ["desc", "token"], Str("T1")) by {
      assert ["desc", "token"][1..] == ["token"];
      assert ["token"][1..] == [];
    }
  }

  /** The user token is converted on the way out of a method declared to
      return a string: 5 becomes "5", true becomes "1", and an array raises
      a TypeError. */
  lemma UserTokenReturnConversion(c: Client, r: Response, md5: string -> string, sha1: string -> string)
    requires c.config.Some?
    requires r.status == 200 && r.body != "" && r.body != "0"
    ensures FetchUserToken(c, "t", [], Env(q => r, b => Some(LoginReply(Int(5))), md5, sha1)).outcome
         == Returned("5")
    ensures FetchUserToken(c, "t", [], Env(q => r, b => Some(LoginReply(Bool(true))), md5, sha1)).outcome
         == Returned("1")
    ensures FetchUserToken(c, "t", [], Env(q => r, b => Some(LoginReply(Arr([]))), md5, sha1)).outcome
         == Thrown(ReturnTypeError)
  {
    UserTokenAt(Int(5));
    UserTokenAt(Bool(true));
    UserTokenAt(Arr([]));
  }

  /** {"state":1,"desc":{"user_token":<token>}}. */
  function LoginReply(token: Json): Json {
    Obj(map["state" := Int(1), "desc" := Obj(map["user_token" := token])])
  }

  lemma UserTokenAt(token: Json)
    requires token != Null
    ensures At(LoginReply(token), ["desc", "user_token"], token)
    ensures At(LoginReply(token), ["state"], Int(1))
  {
    assert ["desc", "user_token"][1..] == ["user_token"];
    assert ["user_token"][1..] == [];
    assert ["state"][1..] == [];
  }

  /** {"code":200,"user_id":"42"} with `Set-Cookie: slnet=abc123; ...`
      gives ["abc123", "42"], which fetchDevicesInfo then accepts. */
  lemma SessionScenario(c: Client, userToken: string, attributes: string, env: Env)
    requires env.send(SlidAuth(userToken)) == Response(200, "{auth}", map["Set-Cookie" := ["slnet=abc123; " + attributes]])
    requires env.decode("{auth}") == Some(Obj(map["code" := Int(200), "user_id" := Str("42")]))
    ensures FetchSLNETToken(c, userToken, env).outcome == Returned(["abc123", "42"])
    ensures !DevicesGuardThrows("abc123", userToken, 42) <==> userToken != "" && userToken != "0"
  {
    CookieWithAttributes(attributes);
    GateAccepts();
  }
}
