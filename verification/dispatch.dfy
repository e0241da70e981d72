/** The rule every dispatcher method of `APISDK` follows (libs/api/index.ts): send one
    request carrying `Authorization: Bearer <token>`, then settle on the response's status
    alone. The transport is not modelled: the response a request gets is an input. */
module Dispatch {
  import opened Wrappers
  import opened JsValues
  import opened Numerals
  import opened Text
  import opened Session

  datatype Method = GET | POST | PUT | PATCH | DELETE

  /** The parts of an outgoing request the client decides: verb, path below the base URL,
      and the Authorization header. */
  datatype Request = Request(verb: Method, path: string, authorization: string)

  /** What `fetch` resolved to, as far as a dispatcher looks at it; `body` is what
      `response.json()` would give. */
  datatype Response<T> = Response(status: nat, statusText: string, body: T) {
    /** `response.ok`: the status is in the range 200 to 299. */
    predicate IsOk()
    {
      200 <= status <= 299
    }
  }

  /** The client's two kinds of failure. */
  datatype ApiError = AuthenticationRequired | RequestFailed(message: string)

  /** One dispatcher call: the request sent, if any, and how the returned promise settles. */
  datatype Exchange<T> = Exchange(sent: Option<Request>, outcome: Result<T, ApiError>)

  /** The Authorization header: `Bearer ${this.accessToken}`, so a missing token is sent
      as the literal text "Bearer null". */
  function Authorization(h: Holder): (r: string)
    ensures |r| >= 7 && r[..7] == "Bearer "
    ensures h.accessToken.None? ==> r == "Bearer null"
    ensures h.accessToken.Some? ==> r == "Bearer " + h.accessToken.value
  {
    "Bearer " + TemplateText(h.accessToken)
  }

  /** The text of the error a failed call throws: `Failed to <action>: <status> <statusText>`. */
  function FailureMessage(action: string, status: nat, statusText: string): string
  {
    "Failed to " + action + ": " + NatToDecimal(status) + " " + statusText
  }

  /** Reads status and status text back out of a failure message for a given action. */
  function ReadFailure(action: string, message: string): Option<(nat, string)>
  {
    var prefix := "Failed to " + action + ": ";
    if |prefix| <= |message| && message[..|prefix|] == prefix then
      var (digits, text) := SplitFirst(message[|prefix|..], ' ');
      if |digits| > 0 && AllDigits(digits) then Some((DigitsValue(digits), text)) else None
    else None
  }

  /** The outcome rule: a response that is not ok rejects with an error naming its status
      and status text and its body is dropped; an ok response resolves to its body,
      unchanged. Nothing else about the response matters. */
  function Settle<T>(action: string, resp: Response<T>): (r: Result<T, ApiError>)
    ensures r.Ok? <==> resp.IsOk()
    ensures r.Ok? ==> r.value == resp.body
    ensures r.Err? ==> r.error.RequestFailed?
                       && ReadFailure(action, r.error.message) == Some((resp.status, resp.statusText))
  {
    if resp.IsOk() then Ok(resp.body)
    else
      FailureMessageReadable(action, resp.status, resp.statusText);
      Err(RequestFailed(FailureMessage(action, resp.status, resp.statusText)))
  }

  /** The status and status text can always be read back from a failure message. */
  lemma FailureMessageReadable(action: string, status: nat, statusText: string)
    ensures ReadFailure(action, FailureMessage(action, status, statusText)) == Some((status, statusText))
  {
    var prefix := "Failed to " + action + ": ";
    var digits := NatToDecimal(status);
    var m := FailureMessage(action, status, statusText);
    assert m == prefix + (digits + [' '] + statusText);
    assert m[..|prefix|] == prefix && m[|prefix|..] == digits + [' '] + statusText;
    assert ' ' !in digits by {
      forall i | 0 <= i < |digits| ensures digits[i] != ' ' {
        assert IsDigit(digits[i]);
      }
    }
    SplitFirstAt(digits, ' ', statusText);
    DecimalRoundTrip(status);
  }

  /** Two failures of the same action with different statuses or status texts always have
      different messages. */
  lemma FailureMessageInjective(action: string, s1: nat, t1: string, s2: nat, t2: string)
    requires FailureMessage(action, s1, t1) == FailureMessage(action, s2, t2)
    ensures s1 == s2 && t1 == t2
  {
    FailureMessageReadable(action, s1, t1);
    FailureMessageReadable(action, s2, t2);
  }

  /** One authenticated dispatcher call: the request goes out with the holder's current
      token, and the outcome follows `Settle`. */
  function Call<T>(h: Holder, verb: Method, path: string, action: string, resp: Response<T>): (r: Exchange<T>)
    ensures r.sent == Some(Request(verb, path, Authorization(h)))
    ensures r.outcome.Ok? <==> resp.IsOk()
    ensures r.outcome.Ok? ==> r.outcome.value == resp.body
    ensures r.outcome.Err? ==> r.outcome.error.RequestFailed?
                               && ReadFailure(action, r.outcome.error.message) == Some((resp.status, resp.statusText))
  {
    Exchange(Some(Request(verb, path, Authorization(h))), Settle(action, resp))
  }

  /** `getUser`: with no usable token (null or empty) it rejects with "Authentication
      required" and sends nothing; otherwise it is an ordinary GET of /auth/user. */
  function GetUser<T>(h: Holder, resp: Response<T>): (r: Exchange<T>)
    ensures r.sent.None? <==> !Truthy(h.accessToken)
    ensures !Truthy(h.accessToken) ==> r.outcome == Err(AuthenticationRequired)
    ensures Truthy(h.accessToken) ==>
      r.sent == Some(Request(GET, "/auth/user", "Bearer " + h.accessToken.value))
    ensures Truthy(h.accessToken) ==> r.outcome == Settle("get user", resp)
    ensures r.outcome.Ok? ==> r.outcome.value == resp.body
  {
    if !Truthy(h.accessToken) then Exchange(None, Err(AuthenticationRequired))
    else Call(h, GET, "/auth/user", "get user", resp)
  }

  /** A token replaced with `setAccessToken` is the one the next request carries. */
  lemma NextRequestCarriesNewToken<T>(h: Holder, t: string, verb: Method, path: string, action: string, resp: Response<T>)
    ensures Call(SetAccessToken(h, Some(t)), verb, path, action, resp).sent.value.authorization
            == "Bearer " + t
  {
  }

  /** The same holds for a token passed to a later `getInstance(t)`. */
  lemma GetInstanceTokenReachesRequests<T>(h: Holder, t: string, storage: StoredToken, resp: Response<T>)
    ensures var a := GetInstance(Some(h), Given(Some(t)), storage);
            Call(a.holder, GET, "/auth/user", "get user", resp).sent.value.authorization == "Bearer " + t
  {
  }
}
