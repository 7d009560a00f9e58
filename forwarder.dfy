/** The request gate of the `/v1/forward` handler: the daily key, the method
    and URL policies, the strictly ordered chain of checks, the fixed header
    map handed to the forward call, and the mapping of the forward outcome to
    the response. The forward call itself is an abstract outcome. */
module Forwarder {

  import opened Wrappers
  import Base64
  import Utf8
  import DateStamp

  /** The three forwarding headers, already read from the inbound request
      (`X-Request-URL`, `X-Request-Method`, `X-Request-Key`), where a missing
      header is the empty string, and the bytes of the inbound body. */
  datatype ForwardInfo = ForwardInfo(url: string, verb: string, key: string, body: seq<byte>)

  /** What the forward call returns: an error, or the upstream content type
      (empty when the upstream sent none) and body bytes. */
  datatype Outcome = Failed | Fetched(contentType: string, body: seq<byte>)

  /** The arguments the handler passes to the forward call: method, URL,
      header map and the inbound body. */
  datatype ForwardCall =
    ForwardCall(verb: string, url: string, header: map<string, string>, body: seq<byte>)

  /** Where the chain of checks ends: a rejection with its reason, or a forward call. */
  datatype Decision = Reject(reason: string) | Forward(call: ForwardCall)

  /** What the handler writes: a JSON object `{"error": error}` with a status,
      or raw bytes with a status and a content type. */
  datatype Response =
    | JsonError(status: int, error: string)
    | Data(status: int, contentType: string, body: seq<byte>)

  const StatusOK := 200
  const StatusBadRequest := 400

  const InvalidKey := "invalid key"
  const InvalidMethod := "invalid method"
  const InvalidURL := "invalid url"
  /** The message written when the forward call fails. */
  const ForwardError := "1"

  /** The methods that may be forwarded. */
  const AllowedMethods: set<string> := {"GET", "POST", "PUT"}

  /** The header map every forward call receives. */
  const ForwardHeaders: map<string, string> :=
    map["Content-Type" := "application/json", "Authorization" := "123"]

  /** Any non-empty string is a URL. */
  function IsValidURL(url: string): (r: bool)
    ensures r <==> |url| > 0
  {
    url != ""
  }

  predicate IsUpperAscii(c: char) {
    'A' <= c <= 'Z'
  }

  /** The case-sensitive allow-list of methods. */
  function IsValidMethod(verb: string): (r: bool)
    ensures r <==> verb in AllowedMethods
    ensures r ==> 3 <= |verb| <= 4
    ensures r ==> forall i :: 0 <= i < |verb| ==> IsUpperAscii(verb[i])
  {
    verb == "GET" || verb == "POST" || verb == "PUT"
  }

  /** The key for the UTC date `today`: the unpadded base64 of the bytes of
      its `YYYY-MM-DD` stamp. It decodes back to those bytes, uses only the
      base64 alphabet and has at least 14 characters. */
  function CurrentKey(today: DateStamp.Date): (k: string)
    ensures Base64.Decode(k) == Some(Utf8.Encode(DateStamp.Format(today)))
    ensures Base64.AllDigits(k) && '=' !in k
    ensures |k| >= 14
  {
    var stamp := Utf8.Encode(DateStamp.Format(today));
    Base64.DecodeEncode(stamp);
    Base64.Encode(stamp)
  }

  /** The chain of checks: key, then method, then URL, then forward. */
  function Check(h: ForwardInfo, currentKey: string): (d: Decision)
    ensures h.key != currentKey ==> d == Reject(InvalidKey)
    ensures d == Reject(InvalidMethod) <==> h.key == currentKey && !IsValidMethod(h.verb)
    ensures d == Reject(InvalidURL) <==>
              h.key == currentKey && IsValidMethod(h.verb) && !IsValidURL(h.url)
    ensures d.Forward? <==> h.key == currentKey && h.verb in AllowedMethods && |h.url| > 0
    ensures d.Reject? ==> d.reason in {InvalidKey, InvalidMethod, InvalidURL}
    ensures d.Forward? ==> d.call == ForwardCall(h.verb, h.url, ForwardHeaders, h.body)
  {
    if h.key != currentKey then Reject(InvalidKey)
    else if !IsValidMethod(h.verb) then Reject(InvalidMethod)
    else if !IsValidURL(h.url) then Reject(InvalidURL)
    else Forward(ForwardCall(h.verb, h.url, ForwardHeaders, h.body))
  }

  /** The response written for a forward outcome. */
  function Relay(o: Outcome): (r: Response)
    ensures o.Failed? ==> r == JsonError(StatusBadRequest, ForwardError)
    ensures o.Fetched? ==> r.Data? && r.status == StatusOK
    ensures o.Fetched? ==> r.contentType == o.contentType && r.body == o.body
  {
    match o
    case Failed => JsonError(StatusBadRequest, ForwardError)
    case Fetched(contentType, body) => Data(StatusOK, contentType, body)
  }

  /** The handler from the key comparison on: a rejection is a 400 with its
      reason; otherwise the forward outcome is relayed. */
  function Respond(h: ForwardInfo, currentKey: string, o: Outcome): (r: Response)
    ensures Check(h, currentKey).Reject? ==>
              r == JsonError(StatusBadRequest, Check(h, currentKey).reason)
    ensures Check(h, currentKey).Forward? ==> r == Relay(o)
    ensures r.Data? <==>
              h.key == currentKey && h.verb in AllowedMethods && h.url != "" && o.Fetched?
    ensures r.Data? ==> r == Data(StatusOK, o.contentType, o.body)
    ensures r.JsonError? ==> r.status == StatusBadRequest
    ensures r.JsonError? ==> r.error in {InvalidKey, InvalidMethod, InvalidURL, ForwardError}
    ensures h.key != currentKey ==> r == JsonError(StatusBadRequest, InvalidKey)
  {
    match Check(h, currentKey)
    case Reject(reason) => JsonError(StatusBadRequest, reason)
    case Forward(_) => Relay(o)
  }

  /** The handler on the UTC date `today`: bytes are written only for the key
      of that day, an allowed method, a non-empty URL and a successful
      forward; every other answer is a 400 JSON error. */
  function Handle(h: ForwardInfo, today: DateStamp.Date, o: Outcome): (r: Response)
    ensures r.Data? <==>
              h.key == CurrentKey(today) && h.verb in AllowedMethods && h.url != "" && o.Fetched?
    ensures r.Data? ==> r == Data(StatusOK, o.contentType, o.body)
    ensures r.JsonError? ==> r.status == StatusBadRequest
    ensures h.key != CurrentKey(today) ==> r == JsonError(StatusBadRequest, InvalidKey)
  {
    Respond(h, CurrentKey(today), o)
  }

  // ---------------------------------------------------------------- validators

  /** The method check is case-sensitive and has no `DELETE`: a method with a
      character that is not an upper-case ASCII letter is refused, so
      `"get"` and `"Get"` are refused, and so is `"DELETE"`. */
  lemma MethodCaseSensitive(verb: string, i: int)
    requires 0 <= i < |verb| && !IsUpperAscii(verb[i])
    ensures !IsValidMethod(verb)
    ensures !IsValidMethod("DELETE") && !IsValidMethod("get") && !IsValidMethod("Post")
  {
  }

  // ---------------------------------------------------------------- the key

  /** The date stamp is ASCII (digits and hyphens), so its bytes are its
      character codes, one per character. */
  lemma StampAscii(d: DateStamp.Date)
    ensures Utf8.IsAscii(DateStamp.Format(d))
    ensures |Utf8.Encode(DateStamp.Format(d))| == |DateStamp.Format(d)|
  {
    var s := DateStamp.Format(d);
    forall i | 0 <= i < |s| ensures s[i] as int < 0x80 {
      assert DateStamp.IsDecimal(s[i]) || s[i] == '-';
    }
  }

  /** For a date in years 0..9999 the key is 14 characters of the base64
      alphabet without `=`, and it decodes to the bytes of the stamp. */
  lemma KeyShape(d: DateStamp.Date)
    requires 0 <= d.year <= 9999 && 1 <= d.month <= 12 && 1 <= d.day <= 31
    ensures |CurrentKey(d)| == 14
    ensures Base64.AllDigits(CurrentKey(d)) && '=' !in CurrentKey(d)
    ensures Base64.Decode(CurrentKey(d)) == Some(Utf8.Encode(DateStamp.Format(d)))
  {
    StampAscii(d);
  }

  /** Different dates in years 0..9999 have different keys. */
  lemma KeyInjective(d: DateStamp.Date, e: DateStamp.Date)
    requires 0 <= d.year <= 9999 && 1 <= d.month <= 12 && 1 <= d.day <= 31
    requires 0 <= e.year <= 9999 && 1 <= e.month <= 12 && 1 <= e.day <= 31
    requires CurrentKey(d) == CurrentKey(e)
    ensures d == e
  {
    var s, t := DateStamp.Format(d), DateStamp.Format(e);
    Base64.EncodeInjective(Utf8.Encode(s), Utf8.Encode(t));
    StampAscii(d);
    StampAscii(e);
    Utf8.AsciiInjective(s, t);
    DateStamp.StampInjective(d, e);
  }

  /** A key lasts one UTC day: the day after, the same key is refused as an
      invalid key, whatever the method, URL and forward outcome. The day after
      9999-12-31 has a five-digit year, so its key is longer. */
  lemma KeyExpiresNextDay(h: ForwardInfo, d: DateStamp.Date, o: Outcome)
    requires DateStamp.ValidDate(d) && 0 <= d.year <= 9999
    requires h.key == CurrentKey(d)
    ensures Handle(h, DateStamp.NextDay(d), o) == JsonError(StatusBadRequest, InvalidKey)
  {
    var e := DateStamp.NextDay(d);
    if e.year <= 9999 {
      if CurrentKey(e) == CurrentKey(d) {
        KeyInjective(e, d);
      }
    } else {
      KeyShape(d);
      StampAscii(e);
      assert |Utf8.Encode(DateStamp.Format(e))| >= 11;
      assert |CurrentKey(e)| >= 15;
    }
  }

  // ---------------------------------------------------------------- the gate

  /** A wrong key is refused first, whatever the method, URL and outcome. */
  lemma WrongKeyRefused(h: ForwardInfo, currentKey: string, o: Outcome)
    requires h.key != currentKey
    ensures Respond(h, currentKey, o) == JsonError(StatusBadRequest, InvalidKey)
  {
  }

  /** Every rejection is a 400 that does not depend on the forward outcome:
      the forward call is not made. */
  lemma RejectionIgnoresOutcome(h: ForwardInfo, currentKey: string, o1: Outcome, o2: Outcome)
    requires !(h.key == currentKey && IsValidMethod(h.verb) && IsValidURL(h.url))
    ensures Respond(h, currentKey, o1) == Respond(h, currentKey, o2)
    ensures Respond(h, currentKey, o1).JsonError?
    ensures Respond(h, currentKey, o1).status == StatusBadRequest
  {
  }

  /** `DELETE` and the empty URL are refused before any forward call. */
  lemma DeleteAndEmptyURLRefused(h: ForwardInfo, currentKey: string)
    requires h.verb == "DELETE" || h.url == ""
    ensures Check(h, currentKey).Reject?
  {
  }

  /** Once past the checks, the request's method, URL and body go to the
      forward call with the fixed headers, and its outcome is relayed as it
      is: an error is a 400 `{"error": "1"}`, a success a 200 with the
      upstream content type (even an empty one) and bytes. */
  lemma ForwardRelayed(h: ForwardInfo, currentKey: string, o: Outcome)
    requires h.key == currentKey && h.verb in AllowedMethods && h.url != ""
    ensures Check(h, currentKey) == Forward(ForwardCall(h.verb, h.url, ForwardHeaders, h.body))
    ensures o.Failed? ==> Respond(h, currentKey, o) == JsonError(StatusBadRequest, ForwardError)
    ensures o.Fetched? ==>
              Respond(h, currentKey, o) == Data(StatusOK, o.contentType, o.body)
  {
  }

  // ---------------------------------------------------------------- examples

  /** The key of 2024-01-01. */
  lemma KeyExample()
    ensures CurrentKey(DateStamp.Date(2024, 1, 1)) == "MjAyNC0wMS0wMQ"
  {
    DateStamp.StampExample();
    Utf8.StampExample();
    Base64.StampVector();
  }

  /** On 2024-01-01, a `GET` of `http://example.test/x` with that day's key
      and an empty body forwards exactly that method, URL and body with the
      two fixed headers, and relays a `text/plain` answer `hello` as it is;
      the key `wrong` is refused without a forward call. */
  lemma ForwardScenario()
    ensures var today := DateStamp.Date(2024, 1, 1);
      var h := ForwardInfo("http://example.test/x", "GET", "MjAyNC0wMS0wMQ", []);
      var hello: seq<byte> := [104, 101, 108, 108, 111];
      Check(h, CurrentKey(today))
        == Forward(ForwardCall("GET", "http://example.test/x",
                               map["Content-Type" := "application/json", "Authorization" := "123"], []))
      && Handle(h, today, Fetched("text/plain", hello)) == Data(StatusOK, "text/plain", hello)
      && Check(h.(key := "wrong"), CurrentKey(today)) == Reject(InvalidKey)
  {
    KeyExample();
  }
}
