# Starline client: response interpretation

This project models the decision logic of the `Starline` PHP client for the
StarLine telematics API. The client chains six calls: fetchCode, fetchToken,
fetchUserToken, fetchSLNETToken, fetchDevicesInfo and runQuery. Each call
builds one request and sends it through Guzzle. It then decides from the
response whether to return a value or an empty result (`""` or `[]`).

The transport, `json_decode`, `md5` and `sha1` are outside the model. They are
fields of an `Env` value (`Starline.Env`). Each call is then a pure function
of the client state, its arguments and that `Env`. It returns a `Run`:

- the outcome (a returned value or a thrown exception);
- the requests the call sent;
- the entries it handed to the logger.

Modules:

- `Wrappers`: `Option`.
- `PhpValues`: the value `json_decode($s, true)` yields, as `Json`. Also PHP
  `empty()`, the `(string)` and `(int)` casts, and `??`/`isset` lookups.
- `PhpStrings`: `mb_strpos` (`Find`), and `explode` with `implode` as its
  inverse.
- `PhpArrays`: ordered PHP arrays and `array_merge`. A string key overwrites
  in place or is appended. An integer key is renumbered from 0.
- `Responses`: `checkResponse` and each call's success test. Each test returns
  `Accept(value)` or `Reject(reason)`. The contracts use reference predicates
  in plain terms: `At` (a non-null value at a key path), `NonEmptyAsString`
  and `Delivered`.
- `Starline`: the client calls, `getConfig`, `logError` and the
  fetchDevicesInfo input check.
- `Scenarios`: worked cases (the slnet cookie examples, the typed success
  fields, and whole calls against a scripted transport).

Three behaviours of the code are easy to misread, and the model keeps them
as written:

- The input check of fetchDevicesInfo is `empty($slnetToken) ||
  empty($userToken || !$userId)`. It throws only for an empty slnet token, or
  for an empty user token together with a non-zero user id. So `("s", "t", 0)`
  does not throw, although a zero user id is evidently meant to be rejected
  (`DevicesGuardWeakerThanIntent`).
- fetchUserToken returns `$object['desc']['user_token'] ?? ''` from a method
  declared `: string`, and the file has no `strict_types`. An integer or
  boolean user token is therefore converted, and an array raises a TypeError.
  This is `Starline.ReturnAsString`.
- The first cookie need not be named slnet: the code only asks for `slnet`
  somewhere in it, and returns that cookie's value whatever its name
  (`Scenarios.SlnetMayAppearInTheValue`).

The Guzzle client from `getClient` leaves `http_errors` at its default. A
response with status 400 or more is therefore raised inside the request, and
checkResponse never sees it. The model routes every request through
`Starline.Transport`, which raises such a response as `HttpError(status)`.

## Model

| member | source | states |
|---|---|---|
| Responses.CheckResponse | src/Starline/Starline.php:336-358 | checkResponse passes exactly when the status is 200 and the body is neither "" nor "0"; a bad status is reported before an empty body |
| Responses.Decode | src/Starline/Starline.php:269-276 | checkResponse then json_decode: accepted exactly when the response is delivered (status 200, body not "" or "0") and decodes, with the decoded value; otherwise the check's reason, or MalformedJson when decoding fails |
| Starline.Transport | src/Starline/Starline.php:429-437 | a request through the Guzzle client raises HttpError exactly for a response status of 400 or more; only a status below 400 is handed on to checkResponse |
| Starline.FailedCheckGivesEmptyResults | src/Starline/Starline.php:336-358 | when every response fails checkResponse, each call (fetchDevicesInfo past its input check) ends in its empty result ("" or []), or in HttpError when the status is 400 or more |
| Responses.AppCredential | src/Starline/Starline.php:272-288 | fetchCode/fetchToken accept exactly when `desc.<field>` is a string and return that string; otherwise the check's reason, MalformedJson for a decode failure, or ErrorResponse |
| Starline.FetchCode | src/Starline/Starline.php:255-289 | without a config it throws before sending anything; otherwise it sends one getCode request carrying the app id and md5(secret); a status of 400 or more is raised, else it returns the accepted code or ""; nothing is logged without a logger |
| Starline.FetchToken | src/Starline/Starline.php:298-334 | a code of "" or "0" returns "" with no request, no log and no config read; otherwise one getToken request with md5(secret . code); a status of 400 or more is raised, else it returns the `desc.token` string or "" |
| Scenarios.CodeThenToken | src/Starline/Starline.php:255-334 | with {"desc":{"code":"C1"}} and then {"desc":{"token":"T1"}}, fetchCode gives C1 and fetchToken("C1") gives T1 |
| Responses.UserTokenField | src/Starline/Starline.php:235-246 | fetchUserToken accepts exactly when `state` is the integer 1; the value is the non-null `desc.user_token`, or "" when that is absent |
| Scenarios.StateMustBeIntegerOne | src/Starline/Starline.php:235-246 | state "1", true, 0 or absent is refused; state 1 without a user token yields "" |
| Starline.ReturnAsString | src/Starline/Starline.php:246 | returning through `: string`: a string is kept, an integer or boolean is converted as by (string), null and arrays raise a TypeError |
| Scenarios.UserTokenReturnConversion | src/Starline/Starline.php:205-247 | a user token 5 comes back as "5", true as "1", and an array makes fetchUserToken throw |
| Starline.LoginForm | src/Starline/Starline.php:209-216 | the posted form starts with login and pass in that order; with no extra parameters it is exactly those two fields |
| Starline.LoginFormOverrides | src/Starline/Starline.php:209-216 | a caller key (such as login or pass) overrides the derived value; every other string key keeps its value |
| Starline.EmptyParamsMergeIsIdentity | src/Starline/Starline.php:214-216 | array_merge with an empty array would give the same two-field form, so skipping it for empty params changes nothing |
| Starline.IntKeyParamsRenumbered | src/Starline/Starline.php:215 | an integer-keyed parameter is appended under key 0, not under the caller's key |
| PhpArrays.MergeIntoStrKey | src/Starline/Starline.php:215 | array_merge: a string key present in the merged-in array takes its value there, any other string key keeps its value |
| PhpArrays.Put | src/Starline/Starline.php:215 | assigning to a key stores the value, leaves every other key alone, keeps existing keys in place, and appends only a new key |
| PhpArrays.MergeIntoKeepsPrefix | src/Starline/Starline.php:215 | merging never moves an entry that was already in the array |
| Starline.FetchUserToken | src/Starline/Starline.php:205-247 | without a config it throws before sending; otherwise one login request with the merged form and the token; a status of 400 or more is raised, else the outcome is the converted user token or "" |
| Responses.SlnetGate | src/Starline/Starline.php:144-156 | the JSON gate passes exactly when `code` is present and non-null with (int)code == 200, and `user_id` is present with a non-empty string form; the result is (string)user_id, and the accepted code is itself non-empty, so the `empty($code)` test never decides |
| Scenarios.GateRefuses | src/Starline/Starline.php:144-156 | user id "0", "" or missing, a missing code, or a code whose (int) is not 200 all fail the gate |
| Scenarios.GateCastsItsFields | src/Starline/Starline.php:144-145 | a code given as the string "200" passes, and an integer user id comes back as its decimal string |
| Responses.CookiesIgnoredUntilGate | src/Starline/Starline.php:144-157 | before the JSON gate passes, the response headers make no difference to fetchSLNETToken |
| Responses.SlnetCookie | src/Starline/Starline.php:157-194 | accepts exactly when there is a Set-Cookie value, the first "; " segment of the first one contains slnet, and the piece after its first '=' is neither "" nor "0"; that piece contains no '=' |
| Responses.CookieValueOf | src/Starline/Starline.php:182-183 | for `name=value` followed by nothing or another '=', the extracted value is exactly `value` |
| Responses.CookieValueWithoutEquals | src/Starline/Starline.php:182-183 | a first cookie without '=' yields an empty value |
| Responses.FirstCookieOf | src/Starline/Starline.php:169-170 | the first cookie is everything before the first "; " |
| Responses.SlnetCookieOf | src/Starline/Starline.php:157-194 | a first Set-Cookie value `name=value; ...` that mentions slnet yields value, or EmptySlnet when value is "" or "0" |
| Scenarios.CookieWithAttributes | src/Starline/Starline.php:169-183 | "slnet=abc123; Path=/" yields abc123 |
| Scenarios.CookieValueStopsAtSecondEquals | src/Starline/Starline.php:182-183 | "slnet=a=b" yields a |
| Scenarios.SlnetMayAppearInTheValue | src/Starline/Starline.php:172 | "session=myslnet" yields myslnet: the cookie name is never checked |
| Scenarios.SlnetMustComeFirst | src/Starline/Starline.php:169-172 | slnet in a later cookie of the same header, or in a later Set-Cookie value, is not found |
| Scenarios.EmptySlnetRefused | src/Starline/Starline.php:183-193 | "slnet=; ..." and "slnet=0; ..." are both refused as empty |
| Scenarios.HeaderNameIsCaseSensitive | src/Starline/Starline.php:157-168 | a header spelled "set-cookie", or an empty Set-Cookie list, counts as no cookies |
| Responses.SlnetSession | src/Starline/Starline.php:135-194 | fetchSLNETToken accepts exactly when the response is delivered, the gate passes and the cookie is found; the value is (slnet, user id); a gate failure is ErrorResponse |
| Starline.FetchSLNETToken | src/Starline/Starline.php:126-195 | one auth request with the user token; it throws only HttpError, exactly for a status of 400 or more; otherwise it returns [slnet, user id] exactly when the session is accepted, and [] |
| Scenarios.SessionScenario | src/Starline/Starline.php:126-195 | {"code":200,"user_id":"42"} with `Set-Cookie: slnet=abc123; ...` yields ["abc123", "42"] |
| Starline.DevicesGuardAsWritten | src/Starline/Starline.php:82-84 | the input check throws exactly when the slnet token is "" or "0", or the user token is "" or "0" and the user id is non-zero |
| Starline.DevicesGuardWeakerThanIntent | src/Starline/Starline.php:82-84 | whatever the check rejects has an empty slnet token, an empty user token or a zero user id; ("s","t",0) and ("s","",0) pass, ("s","",5) and ("","tok",1) throw |
| Starline.FetchDevicesInfo | src/Starline/Starline.php:80-117 | throws IncorrectParams with no request exactly when the input check fails; otherwise one user-data request, raising a status of 400 or more and else returning the body when accepted and [] otherwise |
| Responses.DataBody | src/Starline/Starline.php:50-68 | runQuery/fetchDevicesInfo accept exactly when `code` is present with a non-empty string form (true, a non-zero integer, a string other than "" and "0", or any array), and then return the decoded body unchanged |
| Scenarios.DataCodeRefused | src/Starline/Starline.php:98-116 | a code that is null, "", 0, "0" or false, or a missing code, gives [] |
| Scenarios.DataArrayCodeAccepted | src/Starline/Starline.php:104-106 | a code that is an empty array is accepted, since its string form is "Array" |
| Starline.RunQuery | src/Starline/Starline.php:33-69 | one set_param request with the device id, slnet token and parameters; a status of 400 or more is raised, else it returns the accepted body or [] |
| Starline.GetConfig | src/Starline/Starline.php:385-391 | the config when one was set, and the ConfigNotSet exception otherwise |
| Starline.LogError | src/Starline/Starline.php:443-449 | without a logger nothing is logged; with one, exactly the message and the calling method |
| Starline.VerdictLog | src/Starline/Starline.php:336-358 | a call logs at most one entry, none on success or on a JSON decode failure, and the call's own message for a missing success field |
| PhpValues.StrCastEmpty | src/Starline/Starline.php:56-58 | `empty((string)$v)` holds exactly for null, false, 0, "" and "0"; every array, even an empty one, turns into "Array" |
| PhpValues.IntCastRoundTrip | src/Starline/Starline.php:144-145 | `(int)` of the decimal string of an integer gives that integer back |
| PhpValues.IntCastNonZeroIsTruthy | src/Starline/Starline.php:144-147 | a non-zero (int) cast comes only from a non-empty value |
| PhpValues.NatDecimalRoundTrip | src/Starline/Starline.php:341 | reading back the decimal spelling of a natural number (used for `(string)` and log messages) gives the number |
| PhpStrings.Explode | src/Starline/Starline.php:169 | explode gives at least one piece, implode of the pieces is the input, no piece contains the separator, and no occurrence of the separator starts inside the first piece |
| PhpStrings.Find | src/Starline/Starline.php:172 | mb_strpos: the result is an occurrence with none before it, and there is none exactly when the needle does not occur |
| PhpStrings.FirstPieceSpec | src/Starline/Starline.php:169-170 | the first piece of explode is a separator-free prefix that is the whole input or ends where the leftmost occurrence of the separator starts |
| PhpStrings.ExplodeSteps | src/Starline/Starline.php:169 | explode gives one piece exactly when the separator does not occur; otherwise it cuts at the leftmost occurrence and splits the rest the same way |
| PhpStrings.ExplodeLeftmost | src/Starline/Starline.php:182 | overlapping separators are cut at the leftmost one: "aaa" split at "aa" gives "" and "a" |
| PhpStrings.ExplodeCons | src/Starline/Starline.php:182 | when the separator's first character is absent from a, exploding a + sep + b gives a followed by the pieces of b |

## Left out

- Guzzle transport (`getClient` with its 15-second timeout and `verify => false`, `createGetRequest`, `createPostRequest`): the transport is the `send` field of `Env`, a total function giving the final response after any redirects Guzzle follows. Of Guzzle's exceptions only the one for a status of 400 or more is modelled (`HttpError`); connection errors and timeouts are not.
- Responses.CheckResponse: its BadStatus path is reached only for statuses Guzzle hands back: 1xx, 2xx other than 200, and 3xx it does not follow. `Starline.Transport` raises every status of 400 or more before the check runs.
- Starline.FailedCheckGivesEmptyResults: for a status of 400 or more it promises the raised HttpError, not the empty result, since the call never reaches checkResponse.
- URL, query-string, form and header encoding: a `Request` names the endpoint and the values sent, not the text of the HTTP request.
- `md5` and `sha1`: uninterpreted `Env` fields. The model states which string is hashed (the secret, secret . code, the password), not the digest.
- `json_decode` parsing: an `Env` field returning `None` when it throws. The decoded value has no floats, and integers beyond 64 bits (which PHP decodes as floats) are not modelled.
- PhpValues.LeadingInt: `(int)` of a string reads leading whitespace, a sign and a digit run. PHP converts a numeric string with a fraction or an exponent through a float, which this does not model. `"2e2"` is 200 in PHP but 2 here. `"199.99999999999999999"` rounds to the float 200 and so casts to 200 in PHP, but to 199 here. `"200.99999999999999999"` is 201 in PHP but 200 here. Each of these flips the slnet gate (`Responses.SlnetGate`). Saturation beyond 64 bits is not modelled either; a saturated value is never 200, so the gate is unaffected by it.
- PHP array key normalisation: keys of caller parameters are taken as already normalised (`"5"` stored as integer 5). Form values are strings.
- `logError` context arrays: only the message and the calling method name are kept; the decoded body and header arrays are dropped.
- `mb_strpos` works on UTF-8 characters and strings here are sequences of characters, so invalid UTF-8 input is not modelled.
- `setConfig`, `setLogger` and the `Config` class: a `Client` value holds the optional config and whether a logger is set.
- `src/Starline/Examples/test.php`: a demonstration script with live network calls and no logic of its own.
