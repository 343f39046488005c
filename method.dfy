/**
  The request methods a client sends and the status lines a server answers
  with, each with its wire literal. Statuses have an open variant `Other`
  that carries any code and reason phrase.
 */
module Method {
  import opened Wrappers
  import opened Text
  import Utf8

  datatype MethodMatchError = NoMatch

  datatype ClientMethod = GET | POST | PUT | DELETE | HEAD | OPTIONS | TRACE

  /** `ServerMethodCode`, a `u32`. */
  type u32 = x: int | 0 <= x < 0x1_0000_0000

  datatype ServerMethod =
    | OK | Created | Accepted | BadRequest | Unauthorized | Forbidden | NotFound
    | InternalServerError
    | Other(code: u32, reason: string)

  // ----- client methods -----

  /** `Into<&str>` for a client method: a non-empty word of upper-case
      ASCII letters. */
  function ClientIntoStr(m: ClientMethod): (s: string)
    ensures s != [] && forall i :: 0 <= i < |s| ==> 'A' <= s[i] <= 'Z'
  {
    match m
    case GET => "GET"
    case POST => "POST"
    case PUT => "PUT"
    case DELETE => "DELETE"
    case HEAD => "HEAD"
    case OPTIONS => "OPTIONS"
    case TRACE => "TRACE"
  }

  /** `Into<String>` for a client method, a separate table that agrees with `Into<&str>`. */
  function ClientIntoString(m: ClientMethod): (s: string)
    ensures s == ClientIntoStr(m)
  {
    match m
    case GET => "GET"
    case POST => "POST"
    case PUT => "PUT"
    case DELETE => "DELETE"
    case HEAD => "HEAD"
    case OPTIONS => "OPTIONS"
    case TRACE => "TRACE"
  }

  /** `ToString`, via `Into<String>`. */
  function ClientToString(m: ClientMethod): (s: string)
    ensures s == ClientIntoStr(m)
  {
    ClientIntoString(m)
  }

  /** `HTTPMethodMessage::as_bytes`: the bytes of the `&str` rendering. */
  function ClientAsBytes(m: ClientMethod): (b: seq<Utf8.byte>)
    ensures Utf8.Decode(b) == Some(ClientIntoStr(m))
  {
    Utf8.DecodeEncode(ClientIntoStr(m));
    Utf8.Encode(ClientIntoStr(m))
  }

  /** `HTTPClientMethod::from`: exact, case-sensitive match on the text; a
      method is returned only for its own literal. */
  function ClientFrom(s: string): (r: Result<ClientMethod, MethodMatchError>)
    ensures r.Ok? ==> ClientIntoStr(r.value) == s
  {
    if s == "GET" then Ok(GET)
    else if s == "POST" then Ok(POST)
    else if s == "PUT" then Ok(PUT)
    else if s == "DELETE" then Ok(DELETE)
    else if s == "HEAD" then Ok(HEAD)
    else if s == "OPTIONS" then Ok(OPTIONS)
    else if s == "TRACE" then Ok(TRACE)
    else Err(NoMatch)
  }

  /** All seven methods survive rendering and parsing back. */
  lemma ClientFromIntoStr(m: ClientMethod)
    ensures ClientFrom(ClientIntoStr(m)) == Ok(m)
  {
  }

  /** Any text other than the seven literals is NoMatch. */
  lemma ClientFromNoMatch(s: string)
    requires forall m :: ClientIntoStr(m) != s
    ensures ClientFrom(s) == Err(NoMatch)
  {
  }

  /** `client_method_test::method_test` and `byte_test`. */
  lemma ClientGetLiteral()
    ensures ClientIntoString(GET) == "GET"
    ensures ClientAsBytes(GET) == [71, 69, 84]
    ensures ClientFrom("get") == Err(NoMatch)
  {
  }

  // ----- server statuses -----

  /** The `format!("{} {}", code, reason)` rendering of `Other`: the first
      space ends the digits of the code, and the reason follows it. */
  function OtherText(code: u32, reason: string): (s: string)
    ensures var i := IndexOf(s, ' ');
      i < |s| && IsDigits(s[..i]) && DecimalValue(s[..i]) == code && s[i + 1..] == reason
  {
    DigitsSpace(Decimal(code), reason);
    DecimalValueOfDecimal(code);
    Decimal(code) + " " + reason
  }

  /** A run of digits, a space and anything: the space is the first one. */
  lemma DigitsSpace(d: string, reason: string)
    requires IsDigits(d)
    ensures var s := d + " " + reason; IndexOf(s, ' ') == |d| && s[..|d|] == d && s[|d| + 1..] == reason
  {
    var s := d + " " + reason;
    DigitsNoSpace(d);
    assert forall j :: 0 <= j <= |d| ==> s[j] == (d + " ")[j];
    IndexOfSpec(d + " ", ' ');
    IndexOfAt(s, ' ', |d|);
  }

  /** `Into<String>` for a status; the text of `Other` is its code in
      digits, a space, and its reason phrase. */
  function ServerIntoString(m: ServerMethod): (s: string)
    ensures m.Other? ==> var i := IndexOf(s, ' ');
      i < |s| && IsDigits(s[..i]) && DecimalValue(s[..i]) == m.code && s[i + 1..] == m.reason
  {
    match m
    case OK => "200 OK"
    case Created => "201 Created"
    case Accepted => "202 Accepted"
    case BadRequest => "400 Bad Request"
    case Unauthorized => "401 Unauthorized"
    case Forbidden => "403 Forbidden"
    case NotFound => "404 Not Found"
    case InternalServerError => "500 Internal Server Error"
    case Other(code, reason) => OtherText(code, reason)
  }

  /** `Into<&str>` for a status: a separate table whose `Other` case leaks the
      formatted `String`; it agrees with `Into<String>`. */
  function ServerIntoStr(m: ServerMethod): (s: string)
    ensures s == ServerIntoString(m)
  {
    match m
    case OK => "200 OK"
    case Created => "201 Created"
    case Accepted => "202 Accepted"
    case BadRequest => "400 Bad Request"
    case Unauthorized => "401 Unauthorized"
    case Forbidden => "403 Forbidden"
    case NotFound => "404 Not Found"
    case InternalServerError => "500 Internal Server Error"
    case Other(code, reason) => OtherText(code, reason)
  }

  /** `ToString`, via `Into<String>` of a clone. */
  function ServerToString(m: ServerMethod): (s: string)
    ensures s == ServerIntoStr(m)
  {
    ServerIntoString(m)
  }

  /** `HTTPMethodMessage::as_bytes`: the bytes of the `&str` rendering. */
  function ServerAsBytes(m: ServerMethod): (b: seq<Utf8.byte>)
    ensures Utf8.Decode(b) == Some(ServerIntoStr(m))
  {
    Utf8.DecodeEncode(ServerIntoStr(m));
    Utf8.Encode(ServerIntoStr(m))
  }

  /** `HTTPServerMethod::from`: exact match against the eight named status
      lines; it never yields `Other`. */
  function ServerFrom(s: string): (r: Result<ServerMethod, MethodMatchError>)
    ensures r.Ok? ==> !r.value.Other? && ServerIntoString(r.value) == s
  {
    if s == "200 OK" then Ok(OK)
    else if s == "201 Created" then Ok(Created)
    else if s == "202 Accepted" then Ok(Accepted)
    else if s == "400 Bad Request" then Ok(BadRequest)
    else if s == "401 Unauthorized" then Ok(Unauthorized)
    else if s == "403 Forbidden" then Ok(Forbidden)
    else if s == "404 Not Found" then Ok(NotFound)
    else if s == "500 Internal Server Error" then Ok(InternalServerError)
    else Err(NoMatch)
  }

  /** The eight named statuses survive rendering and parsing back. */
  lemma ServerFromIntoString(m: ServerMethod)
    requires !m.Other?
    ensures ServerFrom(ServerIntoString(m)) == Ok(m)
  {
  }

  /** `Other` never survives: its rendering parses to a named status or fails. */
  lemma OtherDoesNotRoundTrip(code: u32, reason: string)
    ensures ServerFrom(ServerIntoString(Other(code, reason))) != Ok(Other(code, reason))
  {
  }

  /** `leak_test` and `byte_test`: Other(200, "OK") renders as "200 OK",
      the same text and bytes as OK, and that text parses as OK. */
  lemma Other200Ok()
    ensures ServerIntoStr(Other(200, "OK")) == "200 OK"
    ensures ServerAsBytes(Other(200, "OK")) == ServerAsBytes(OK)
    ensures ServerFrom(ServerIntoString(Other(200, "OK"))) == Ok(OK)
  {
    assert Decimal(200) == "200" by {
      assert Decimal(20) == "20" by {
        assert Decimal(2) == "2";
        assert DigitChar(0) == '0';
      }
    }
  }

  lemma DigitsNoSpace(s: string)
    requires IsDigits(s)
    ensures IndexOf(s + " ", ' ') == |s|
  {
    var t := s + " ";
    assert t[|s|] == ' ';
    assert forall j :: 0 <= j < |s| ==> t[j] == s[j];
    IndexOfAt(t, ' ', |s|);
  }

  /** Distinct `Other` statuses render differently: the code is the digits
      before the first space and the reason is everything after it. */
  lemma OtherTextInjective(c1: u32, r1: string, c2: u32, r2: string)
    requires OtherText(c1, r1) == OtherText(c2, r2)
    ensures c1 == c2 && r1 == r2
  {
  }
}
