/**
  The request parser: bytes in, a method, a resource, a version, a header
  map and a body out. `Parse` states what the parser computes; `Build` is
  the parser itself, walking the lines and filling a header map in place,
  and is proved to compute `Parse`.
 */
module Client {
  import opened Wrappers
  import opened Text
  import opened Version
  import opened Method
  import opened HeaderMapping
  import Responses
  import Utf8

  /** `HTTPClientResponse`; `HTTPClientResponse::new` is the constructor. */
  datatype ClientResponse = ClientResponse(response: Responses.Response, httpMethod: ClientMethod, resource: string)

  /** The two things `cache` accepts through `HTTPBytes`: bytes, or text. */
  datatype Bytes = RawBytes(bytes: seq<Utf8.byte>) | TextBytes(text: string)

  /** `HTTPBytes::vec_u8`: bytes unchanged, text as its UTF-8 bytes. */
  function VecU8(x: Bytes): (b: seq<Utf8.byte>)
    ensures x.RawBytes? ==> b == x.bytes
    ensures x.TextBytes? ==> Utf8.Decode(b) == Some(x.text)
  {
    match x
    case RawBytes(bs) => bs
    case TextBytes(s) => Utf8.DecodeEncode(s); Utf8.Encode(s)
  }

  /** `HTTPClientResponseBuilder`; `HTTPClientResponseBuilder::new` is the
      constructor and stores the bytes unchanged. */
  datatype ClientResponseBuilder = ClientResponseBuilder(cache: seq<Utf8.byte>)

  /** `init`, the derived `Default`: an empty cache. */
  function Init(): (b: ClientResponseBuilder)
    ensures b.cache == []
  {
    ClientResponseBuilder([])
  }

  /** The `cache` setter: the cache becomes the bytes of `x`. */
  function WithCache(b: ClientResponseBuilder, x: Bytes): (r: ClientResponseBuilder)
    ensures r.cache == VecU8(x)
  {
    b.(cache := VecU8(x))
  }

  // ----- what the parser computes -----

  /** The start line, each part already mapped to the codec's values. */
  datatype RequestLine = RequestLine(httpMethod: ClientMethod, resource: string, version: HttpVersion)

  /** The resource as it is stored: a '/' is put in front unless one is
      there already. */
  function Resource(tok: string): (r: string)
    ensures |tok| <= |r| <= |tok| + 1
  {
    if tok != [] && tok[0] == '/' then tok else "/" + tok
  }

  /** The stored resource starts with '/', ends with the token, and is the
      token itself exactly when the token already starts with '/'. */
  lemma ResourceSpec(tok: string)
    ensures var r := Resource(tok);
      && r != [] && r[0] == '/'
      && r[|r| - |tok|..] == tok
      && (r == tok <==> tok != [] && tok[0] == '/')
  {
  }

  /** Adding the slash twice is the same as adding it once. */
  lemma ResourceIdempotent(tok: string)
    ensures Resource(Resource(tok)) == Resource(tok)
  {
  }

  /** The start line: exactly three whitespace-separated tokens, method,
      resource and version; an unknown method becomes GET and an unknown
      version HTTP/1.1, neither of which is a failure. */
  function ParseRequestLine(l: string): (r: Option<RequestLine>)
    ensures r.Some? ==> r.value.resource != [] && r.value.resource[0] == '/'
  {
    var ts := Tokens(l);
    if |ts| != 3 then None
    else ResourceSpec(ts[1]); Some(RequestLine(ClientFrom(ts[0]).GetOr(GET), Resource(ts[1]), FromText(ts[2]).GetOr(Http11)))
  }

  /** A start line is accepted exactly when it has three tokens, and the
      resource it yields starts with '/'. */
  lemma ParseRequestLineSpec(l: string)
    ensures ParseRequestLine(l).Some? <==> |Tokens(l)| == 3
    ensures ParseRequestLine(l).Some? ==>
      var res := ParseRequestLine(l).value.resource; res != [] && res[0] == '/'
  {
    if |Tokens(l)| == 3 {
      ResourceSpec(Tokens(l)[1]);
    }
  }

  /** The fallbacks: a method or version that is not one of the literals is
      replaced, not rejected; a known one is kept. */
  lemma RequestLineFallbacks(l: string, a: string, b: string, c: string)
    requires Tokens(l) == [a, b, c]
    ensures ParseRequestLine(l).Some?
    ensures var r := ParseRequestLine(l).value;
      && (ClientFrom(a).Err? ==> r.httpMethod == GET)
      && (ClientFrom(a).Ok? ==> ClientIntoStr(r.httpMethod) == a)
      && (FromText(c).Err? ==> r.version == Http11)
      && (FromText(c).Ok? ==> IntoStr(r.version) == c)
      && IsToken(b)
      && (b[0] == '/' ==> r.resource == b)
      && (b[0] != '/' ==> r.resource == "/" + b)
  {
    TokensAreTokens(l);
    assert IsToken(Tokens(l)[1]);
  }

  /** The stop test of the `map_while` over the header lines. */
  predicate EndsWithCrLf(l: string): (b: bool)
    ensures b ==> '\n' in l
  {
    |l| >= 2 && l[|l| - 2] == '\r' && l[|l| - 1] == '\n'
  }

  /** How many leading lines `map_while` lets through: up to the first line
      ending in "\r\n". */
  function RunLength(ls: seq<string>): (n: nat)
    ensures n <= |ls|
  {
    if ls == [] || EndsWithCrLf(ls[0]) then 0 else 1 + RunLength(ls[1..])
  }

  /** The run is the longest prefix of lines that fail the stop test. */
  lemma {:induction false} RunLengthSpec(ls: seq<string>)
    ensures forall j :: 0 <= j < RunLength(ls) ==> !EndsWithCrLf(ls[j])
    ensures RunLength(ls) < |ls| ==> EndsWithCrLf(ls[RunLength(ls)])
  {
    if ls != [] && !EndsWithCrLf(ls[0]) {
      RunLengthSpec(ls[1..]);
      forall j | 0 <= j < RunLength(ls)
        ensures !EndsWithCrLf(ls[j])
      {
        if j > 0 {
          assert ls[j] == ls[1..][j - 1];
        }
      }
    }
  }

  /** The stop test never fires on lines without '\n'. */
  lemma {:induction false} RunLengthNoNewline(ls: seq<string>)
    requires forall i :: 0 <= i < |ls| ==> '\n' !in ls[i]
    ensures RunLength(ls) == |ls|
  {
    if ls != [] {
      var l := ls[0];
      assert !EndsWithCrLf(l) by {
        if |l| >= 2 {
          assert l[|l| - 1] in l;
        }
      }
      RunLengthNoNewline(ls[1..]);
    }
  }

  /** ... which is all `str::lines` yields, since no line keeps its '\n':
      every line after the start line is offered to the header parser. */
  lemma RunLengthOfLines(s: string, k: nat)
    requires k <= |Lines(s)|
    ensures RunLength(Lines(s)[k..]) == |Lines(s)| - k
  {
    LinesNoNewline(s);
    RunLengthNoNewline(Lines(s)[k..]);
  }

  /** One line offered to `try_insert` after `trim`. */
  function InsertLine(m: map<string, string>, l: string): (r: map<string, string>)
    ensures m.Keys <= r.Keys && |r| <= |m| + 1
  {
    match ParseKeyValue(Borrowed(Trim(l)))
    case Err(_) => m
    case Ok((k, v)) => m[k := v]
  }

  /** A line that does not parse leaves the map as it was; one that does
      inserts its pair, whose key and value are both tokens. */
  lemma InsertLineEffect(m: map<string, string>, l: string)
    ensures ParseKeyValue(Borrowed(Trim(l))).Err? ==> InsertLine(m, l) == m
    ensures ParseKeyValue(Borrowed(Trim(l))).Ok? ==>
      var (k, v) := ParseKeyValue(Borrowed(Trim(l))).value;
      InsertLine(m, l) == m[k := v] && IsToken(k) && IsToken(v)
  {
    ParseTextSpec(Trim(l));
  }

  /** Offering the lines in order, later lines overriding earlier ones. */
  function InsertAll(m: map<string, string>, ls: seq<string>): (r: map<string, string>)
    ensures m.Keys <= r.Keys
  {
    if ls == [] then m else InsertLine(InsertAll(m, ls[..|ls| - 1]), ls[|ls| - 1])
  }

  lemma InsertAllSnoc(ls: seq<string>, i: nat)
    requires i < |ls|
    ensures InsertAll(map[], ls[..i + 1]) == InsertLine(InsertAll(map[], ls[..i]), ls[i])
  {
    var p := ls[..i + 1];
    assert p != [] && p[..|p| - 1] == ls[..i] && p[|p| - 1] == ls[i];
  }

  /** Each line adds at most one key, so the map ends up with no more keys
      than there were lines (plus the keys it started with). */
  lemma {:induction false} InsertAllSize(m: map<string, string>, ls: seq<string>)
    ensures |InsertAll(m, ls)| <= |m| + |ls|
  {
    if ls != [] {
      InsertAllSize(m, ls[..|ls| - 1]);
      InsertLineEffect(InsertAll(m, ls[..|ls| - 1]), ls[|ls| - 1]);
    }
  }

  /** Every key and value the lines put in an empty map is a token: non-empty
      and free of whitespace. */
  lemma {:induction false} InsertAllTokens(ls: seq<string>)
    ensures var h := InsertAll(map[], ls); forall k :: k in h ==> IsToken(k) && IsToken(h[k])
  {
    if ls != [] {
      InsertAllTokens(ls[..|ls| - 1]);
      InsertLineEffect(InsertAll(map[], ls[..|ls| - 1]), ls[|ls| - 1]);
    }
  }

  /** The header stage: only when more than one line follows the start line
      are the lines that pass the stop test offered to the header map. */
  function Headers(rest: seq<string>): (h: map<string, string>)
    ensures |h| <= |rest|
  {
    if |rest| > 1 then InsertAllSize(map[], rest[..RunLength(rest)]); InsertAll(map[], rest[..RunLength(rest)]) else map[]
  }

  /** `Iterator::skip`: the lines after the first `n`. */
  function Drop(ls: seq<string>, n: nat): (r: seq<string>)
    ensures |r| == if n <= |ls| then |ls| - n else 0
    ensures n <= |ls| ==> r == ls[n..]
  {
    ls[if n <= |ls| then n else |ls|..]
  }

  /** What the parser hands back. */
  datatype Request = Request(line: RequestLine, headers: map<string, string>, body: seq<Utf8.byte>)

  /** What `build` computes: nothing unless the bytes are UTF-8, split into
      more than one line, and the first line is a valid start line. The
      header map is filled from the following lines, and the body is the
      lines after the first `len()` of them, concatenated with no
      separator. */
  function Parse(cache: seq<Utf8.byte>): (r: Option<Request>)
    ensures r.Some? ==> Utf8.IsValid(cache) && Utf8.IsValid(r.value.body)
    ensures r.Some? ==> r.value.line.resource != [] && r.value.line.resource[0] == '/'
  {
    match Utf8.Decode(cache)
    case None => None
    case Some(text) =>
      var space := Lines(text);
      if |space| <= 1 then None
      else match ParseRequestLine(space[0])
        case None => None
        case Some(line) =>
          var rest := space[1..];
          var headers := Headers(rest);
          Utf8.DecodeEncode(Concat(Drop(rest, |headers|)));
          Some(Request(line, headers, Utf8.Encode(Concat(Drop(rest, |headers|)))))
  }

  /** A parse succeeds exactly when the bytes are UTF-8, split into more
      than one line, and the first line has three tokens. */
  lemma ParseDefined(cache: seq<Utf8.byte>)
    ensures Parse(cache).Some? <==>
      && Utf8.IsValid(cache)
      && |Lines(Utf8.Decode(cache).value)| > 1
      && |Tokens(Lines(Utf8.Decode(cache).value)[0])| == 3
  {
    if Utf8.IsValid(cache) && |Lines(Utf8.Decode(cache).value)| > 1 {
      ParseRequestLineSpec(Lines(Utf8.Decode(cache).value)[0]);
    }
  }

  /** `init().build()` is None: an empty cache has no lines. */
  lemma InitParsesToNone()
    ensures Parse(Init().cache) == None
  {
  }

  /** Bytes that are not UTF-8 never parse. */
  lemma InvalidParsesToNone(cache: seq<Utf8.byte>)
    requires !Utf8.IsValid(cache)
    ensures Parse(cache) == None
  {
  }

  /** What a successful parse is made of: the header map takes every line
      after the start line (when there are at least two) and holds only
      tokens, it has at most as many keys as there are such lines, so the
      body is exactly the lines after the first `|headers|` of them. */
  lemma ParseShape(cache: seq<Utf8.byte>)
    requires Parse(cache).Some?
    ensures var rest := Lines(Utf8.Decode(cache).value)[1..]; var p := Parse(cache).value;
      && p.line.resource[0] == '/'
      && p.headers == (if |rest| > 1 then InsertAll(map[], rest) else map[])
      && |p.headers| <= |rest|
      && (forall k :: k in p.headers ==> IsToken(k) && IsToken(p.headers[k]))
      && p.body == Utf8.Encode(Concat(rest[|p.headers|..]))
  {
    var text := Utf8.Decode(cache).value;
    var rest := Lines(text)[1..];
    ParseRequestLineSpec(Lines(text)[0]);
    RunLengthOfLines(text, 1);
    assert rest[..|rest|] == rest;
    InsertAllSize(map[], rest);
    InsertAllTokens(rest);
  }

  // ----- the parser -----

  /** The header stage of `build`: a new map, filled by offering the lines
      that pass the stop test to `try_insert` after `trim`, ignoring errors;
      only when there are at least two lines. */
  method OfferHeaderLines(space: seq<string>) returns (header: HeaderMap)
    ensures fresh(header) && header.Valid() && header.iterCount == None
    ensures header.table == Headers(space)
  {
    header := new HeaderMap();
    if |space| > 1 {
      RunLengthSpec(space);
      var i := 0;
      while i < |space|
        invariant i <= RunLength(space)
        invariant header.Valid() && header.iterCount == None
        invariant header.table == InsertAll(map[], space[..i])
      {
        if EndsWithCrLf(space[i]) {
          break;
        }
        ghost var before := header.table;
        var line := Trim(space[i]);
        var _ := header.TryInsert(Borrowed(line));
        InsertLineEffect(before, space[i]);
        assert header.table == InsertLine(before, space[i]);
        InsertAllSnoc(space, i);
        i := i + 1;
      }
      assert i == RunLength(space);
    }
  }

  /** The body stage of `build`: `push_str` of every remaining line onto an
      initially empty string. */
  method JoinLines(rest: seq<string>) returns (body: string)
    ensures body == Concat(rest)
  {
    body := "";
    for j := 0 to |rest|
      invariant body == Concat(rest[..j])
    {
      ConcatAppend(rest[..j], [rest[j]]);
      assert rest[..j + 1] == rest[..j] + [rest[j]];
      body := body + rest[j];
    }
    assert rest[..|rest|] == rest;
  }

  /** `build`: computes `Parse` of the cache, with the header map a new
      object whose cursor is reset. */
  method Build(b: ClientResponseBuilder) returns (r: Option<ClientResponse>)
    ensures r.Some? <==> Parse(b.cache).Some?
    ensures r.Some? ==>
      var p := Parse(b.cache).value; var resp := r.value.response;
      && r.value.httpMethod == p.line.httpMethod
      && r.value.resource == p.line.resource
      && resp.version == p.line.version
      && resp.body == p.body
      && fresh(resp.header) && resp.header.Valid()
      && resp.header.table == p.headers && resp.header.iterCount == None
  {
    var decoded := Utf8.Decode(b.cache);
    if decoded.None? {
      return None;
    }
    var space := Lines(decoded.value);
    if |space| <= 1 {
      return None;
    }
    // the start line
    var methodLine := Tokens(space[0]);
    if |methodLine| != 3 {
      return None;
    }
    var methodTok := methodLine[0];
    var resource := Resource(methodLine[1]);
    var version := methodLine[2];
    space := space[1..];

    // the header lines, then the body: what is left after skipping `len()` lines
    var header := OfferHeaderLines(space);
    var body := JoinLines(Drop(space, header.Len()));

    var response := Responses.Response(FromText(version).GetOr(Http11), header, Utf8.Encode(body));
    r := Some(ClientResponse(response, ClientFrom(methodTok).GetOr(GET), resource));
  }

  // ----- worked examples -----

  lemma TokensOfThree(a: string, b: string, c: string)
    requires IsToken(a) && IsToken(b) && IsToken(c)
    ensures Tokens(a + " " + b + " " + c) == [a, b, c]
  {
    assert a + " " + b + " " + c == a + [' '] + (b + [' '] + c);
    TokensOfToken(c);
    TokensAfterWord(b, ' ', c);
    TokensAfterWord(a, ' ', b + " " + c);
  }

  /** A line with no non-whitespace offers nothing: it is an empty or a
      one-token line after trimming, and both are errors. */
  lemma InsertLineEmpty(m: map<string, string>)
    ensures InsertLine(m, "") == m
  {
  }

  lemma TrimmedWord(w: string)
    requires IsToken(w) && ':' !in w
    ensures ParseKeyValue(Borrowed(Trim(w))) == Err(UnknownString)
  {
    assert !IsWhitespace(w[0]) && !IsWhitespace(w[|w| - 1]);
    TrimOfTrimmed(w);
    assert Trim(w) == w;
    ParseOneWord(w);
  }

  /** A one-word line without ':' is not a header: it has one token. */
  lemma InsertLineWord(m: map<string, string>, w: string)
    requires IsToken(w) && ':' !in w
    ensures InsertLine(m, w) == m
  {
    TrimmedWord(w);
  }

  lemma TrimmedHeader(k: string, v: string)
    requires IsToken(k) && ':' !in k && IsToken(v)
    ensures ParseKeyValue(Borrowed(Trim(k + ": " + v))) == Ok((k, v))
  {
    var l := k + ": " + v;
    assert l[0] == k[0] && l[|l| - 1] == v[|v| - 1];
    TrimOfTrimmed(l);
    assert Trim(l) == l;
    ParseSpacedPair(k, v);
  }

  /** A line "key: value" is the header (key, value). */
  lemma InsertLineHeader(m: map<string, string>, k: string, v: string)
    requires IsToken(k) && ':' !in k && IsToken(v)
    ensures InsertLine(m, k + ": " + v) == m[k := v]
  {
    TrimmedHeader(k, v);
  }

  /** Parse of a text, once its lines are known: the first line is the
      start line, every later line is offered to the header map (when there
      are at least two), and the body is what follows the first `|h|` lines. */
  lemma ParseOfLines(text: string, start: string, rest: seq<string>, line: RequestLine,
                     h: map<string, string>, body: string)
    requires Lines(text) == [start] + rest && rest != []
    requires ParseRequestLine(start) == Some(line)
    requires h == if |rest| > 1 then InsertAll(map[], rest) else map[]
    requires body == Concat(Drop(rest, |h|))
    ensures Parse(Utf8.Encode(text)) == Some(Request(line, h, Utf8.Encode(body)))
  {
    Utf8.DecodeEncode(text);
    RunLengthOfLines(text, 1);
    ConsParts(Lines(text), start, rest);
    assert rest[..|rest|] == rest;
    assert Headers(rest) == h;
  }

  lemma TokenNoNewline(t: string)
    requires NoWhitespace(t)
    ensures '\n' !in t
  {
    assert IsWhitespace('\n');
  }

  /** The start line "method resource version". */
  lemma StartLine(m: string, res: string, ver: string)
    requires IsToken(m) && IsToken(res) && IsToken(ver)
    ensures '\n' !in m + " " + res + " " + ver
    ensures ParseRequestLine(m + " " + res + " " + ver) ==
      Some(RequestLine(ClientFrom(m).GetOr(GET), Resource(res), FromText(ver).GetOr(Http11)))
  {
    TokensOfThree(m, res, ver);
    TokenNoNewline(m);
    TokenNoNewline(res);
    TokenNoNewline(ver);
  }

  /** A header line "key: value" holds no '\n'. */
  lemma HeaderNoNewline(k: string, v: string)
    requires IsToken(k) && IsToken(v)
    ensures '\n' !in k + ": " + v
  {
    TokenNoNewline(k);
    TokenNoNewline(v);
  }

  /** The body joins its lines with no separator. */
  lemma BodyOfLines(a: string, w: string)
    ensures Concat(["", w]) == w
    ensures Concat([a, "", w]) == a + w
  {
    assert ["", w][1..] == [w] && [w][1..] == [];
    assert [a, "", w][1..] == ["", w];
    assert Concat([w]) == w + [];
  }

  /** The lines of a request written as CRLF-terminated lines followed by a
      last line without terminator. */
  lemma LinesOfRequest(ls: seq<string>, w: string)
    requires ls != [] && w != [] && '\n' !in w
    requires forall i :: 0 <= i < |ls| ==> '\n' !in ls[i]
    ensures Lines(CrLfJoin(ls) + w) == [ls[0]] + (ls[1..] + [w])
  {
    LinesOfCrLfJoin(ls, w);
    LinesLast(w);
    ConsAppend(ls, [w]);
  }

  /** One more line offered: the map after `i + 1` lines is the effect of
      line `i` on the map after `i` lines. */
  lemma InsertStep(ls: seq<string>, i: nat, m: map<string, string>, m': map<string, string>)
    requires i < |ls| && InsertAll(map[], ls[..i]) == m && InsertLine(m, ls[i]) == m'
    ensures InsertAll(map[], ls[..i + 1]) == m'
  {
    InsertAllSnoc(ls, i);
  }

  /** A header line offered: its pair is inserted. */
  lemma HeaderStep(ls: seq<string>, i: nat, m: map<string, string>, k: string, v: string)
    requires IsToken(k) && ':' !in k && IsToken(v)
    requires i < |ls| && InsertAll(map[], ls[..i]) == m && ls[i] == k + ": " + v
    ensures InsertAll(map[], ls[..i + 1]) == m[k := v]
  {
    InsertLineHeader(m, k, v);
    InsertStep(ls, i, m, m[k := v]);
  }

  /** Lines that leave the map as it is can follow without changing it. */
  lemma {:induction false} InsertIgnored(ls: seq<string>, i: nat, m: map<string, string>)
    requires i <= |ls| && InsertAll(map[], ls[..i]) == m
    requires forall j :: i <= j < |ls| ==> InsertLine(m, ls[j]) == m
    ensures InsertAll(map[], ls) == m
    decreases |ls| - i
  {
    if i == |ls| {
      assert ls[..i] == ls;
    } else {
      InsertStep(ls, i, m, m);
      InsertIgnored(ls, i + 1, m);
    }
  }

  /** Two final lines that each leave the map as it is. */
  lemma LastTwoIgnored(ls: seq<string>, m: map<string, string>)
    requires |ls| >= 2 && InsertAll(map[], ls[..|ls| - 2]) == m
    requires InsertLine(m, ls[|ls| - 2]) == m && InsertLine(m, ls[|ls| - 1]) == m
    ensures InsertAll(map[], ls) == m
  {
    InsertStep(ls, |ls| - 2, m, m);
    assert InsertAll(map[], ls[..|ls| - 1]) == m;
    InsertStep(ls, |ls| - 1, m, m);
    assert InsertAll(map[], ls[..|ls|]) == m;
    assert ls[..|ls|] == ls;
  }

  lemma OneHeaderInsert(k: string, v: string, w: string)
    requires IsToken(k) && ':' !in k && IsToken(v)
    requires IsToken(w) && ':' !in w
    ensures InsertAll(map[], [k + ": " + v, "", w]) == map[k := v]
  {
    var ls := [k + ": " + v, "", w];
    assert ls[..0] == [];
    HeaderStep(ls, 0, map[], k, v);
    assert InsertAll(map[], ls[..1]) == map[k := v];
    InsertLineEmpty(map[k := v]);
    InsertLineWord(map[k := v], w);
    assert ls[..|ls| - 2] == ls[..1];
    assert InsertLine(map[k := v], ls[|ls| - 2]) == map[k := v];
    assert InsertLine(map[k := v], ls[|ls| - 1]) == map[k := v];
    LastTwoIgnored(ls, map[k := v]);
  }

  /** The lines of a start line, one header line, an empty line and a last line. */
  lemma OneHeaderLines(start: string, hl: string, w: string)
    requires '\n' !in start && '\n' !in hl && w != [] && '\n' !in w
    ensures Lines(CrLfJoin([start, hl, ""]) + w) == [start] + [hl, "", w]
  {
    var ls := [start, hl, ""];
    assert forall i :: 0 <= i < |ls| ==> '\n' !in ls[i];
    LinesOfRequest(ls, w);
    assert ls[1..] + [w] == [hl, "", w];
  }

  /** With one key in the map, the body is the lines after the first. */
  lemma OneHeaderBody(hl: string, w: string, h: map<string, string>)
    requires |h| == 1
    ensures Concat(Drop([hl, "", w], |h|)) == w
  {
    assert Drop([hl, "", w], 1) == ["", w];
    BodyOfLines(w, w);
  }

  /** A start line, one header "key: value", an empty line and a one-word
      body -- the shape of the request in the parser's documentation comment:
      the header map holds the one header and the body is the word. */
  lemma ParseOneHeader(m: string, res: string, ver: string, k: string, v: string, w: string)
    requires IsToken(m) && IsToken(res) && IsToken(ver)
    requires IsToken(k) && ':' !in k && IsToken(v)
    requires IsToken(w) && ':' !in w
    ensures Parse(Utf8.Encode(CrLfJoin([m + " " + res + " " + ver, k + ": " + v, ""]) + w)) ==
      Some(Request(RequestLine(ClientFrom(m).GetOr(GET), Resource(res), FromText(ver).GetOr(Http11)),
                   map[k := v], Utf8.Encode(w)))
  {
    var start := m + " " + res + " " + ver;
    var hl := k + ": " + v;
    StartLine(m, res, ver);
    HeaderNoNewline(k, v);
    TokenNoNewline(w);
    OneHeaderLines(start, hl, w);
    OneHeaderInsert(k, v, w);
    OneHeaderBody(hl, w, map[k := v]);
    ParseOfLines(CrLfJoin([start, hl, ""]) + w, start, [hl, "", w],
                 RequestLine(ClientFrom(m).GetOr(GET), Resource(res), FromText(ver).GetOr(Http11)),
                 map[k := v], w);
  }

  /** A start line followed by an empty line: with only one line after the
      start line nothing is offered to the header map, and the body is empty. */
  lemma ParseNoHeaders(m: string, res: string, ver: string)
    requires IsToken(m) && IsToken(res) && IsToken(ver)
    ensures Parse(Utf8.Encode(CrLfJoin([m + " " + res + " " + ver, ""]))) ==
      Some(Request(RequestLine(ClientFrom(m).GetOr(GET), Resource(res), FromText(ver).GetOr(Http11)),
                   map[], []))
  {
    var start := m + " " + res + " " + ver;
    var ls := [start, ""];
    var text := CrLfJoin(ls);
    var line := RequestLine(ClientFrom(m).GetOr(GET), Resource(res), FromText(ver).GetOr(Http11));
    StartLine(m, res, ver);
    assert ParseRequestLine(start) == Some(line);
    assert '\n' !in ls[0] && '\n' !in ls[1];
    assert forall i :: 0 <= i < |ls| ==> '\n' !in ls[i];
    LinesOfCrLfJoin(ls, "");
    assert CrLfJoin(ls) + "" == text;
    assert Lines(text) == ls + Lines("");
    assert Lines("") == [];
    assert ls + [] == [start] + [""];
    assert Lines(text) == [start] + [""];
    assert Drop([""], 0) == [""];
    assert Concat([""]) == "";
    ParseOfLines(text, start, [""], line, map[], "");
  }

  lemma RepeatedPair(ls: seq<string>, k: string, v1: string, v2: string)
    requires IsToken(k) && ':' !in k && IsToken(v1) && IsToken(v2)
    requires |ls| >= 2 && ls[0] == k + ": " + v1 && ls[1] == k + ": " + v2
    ensures InsertAll(map[], ls[..2]) == map[k := v2]
  {
    assert ls[..0] == [];
    assert InsertAll(map[], ls[..0]) == map[];
    HeaderStep(ls, 0, map[], k, v1);
    assert InsertAll(map[], ls[..1]) == map[k := v1];
    HeaderStep(ls, 1, map[k := v1], k, v2);
    assert InsertAll(map[], ls[..2]) == map[k := v1][k := v2];
    assert map[k := v1][k := v2] == map[k := v2];
  }

  lemma RepeatedInsert(k: string, v1: string, v2: string, w: string)
    requires IsToken(k) && ':' !in k && IsToken(v1) && IsToken(v2)
    requires IsToken(w) && ':' !in w
    ensures InsertAll(map[], [k + ": " + v1, k + ": " + v2, "", w]) == map[k := v2]
  {
    var ls := [k + ": " + v1, k + ": " + v2, "", w];
    var m := map[k := v2];
    RepeatedPair(ls, k, v1, v2);
    assert InsertAll(map[], ls[..2]) == m;
    InsertLineEmpty(m);
    InsertLineWord(m, w);
    assert ls[..|ls| - 2] == ls[..2];
    assert InsertLine(m, ls[|ls| - 2]) == m;
    assert InsertLine(m, ls[|ls| - 1]) == m;
    LastTwoIgnored(ls, m);
  }

  /** The lines of a start line, two header lines, an empty line and a last line. */
  lemma TwoHeaderLines(start: string, h1: string, h2: string, w: string)
    requires '\n' !in start && '\n' !in h1 && '\n' !in h2 && w != [] && '\n' !in w
    ensures Lines(CrLfJoin([start, h1, h2, ""]) + w) == [start] + [h1, h2, "", w]
  {
    var ls := [start, h1, h2, ""];
    assert forall i :: 0 <= i < |ls| ==> '\n' !in ls[i];
    LinesOfRequest(ls, w);
    assert ls[1..] + [w] == [h1, h2, "", w];
  }

  /** With one key in the map, the second header line opens the body. */
  lemma RepeatedHeaderBody(h1: string, h2: string, w: string, h: map<string, string>)
    requires |h| == 1
    ensures Concat(Drop([h1, h2, "", w], |h|)) == h2 + w
  {
    assert Drop([h1, h2, "", w], 1) == [h2, "", w];
    BodyOfLines(h2, w);
  }

  /** The body boundary is the number of distinct keys, not the number of
      header lines: when a header is repeated the map keeps the last value,
      the second header line is left in the body, and the body's lines are
      joined with no separator. */
  lemma ParseRepeatedHeader(m: string, res: string, ver: string, k: string, v1: string, v2: string, w: string)
    requires IsToken(m) && IsToken(res) && IsToken(ver)
    requires IsToken(k) && ':' !in k && IsToken(v1) && IsToken(v2)
    requires IsToken(w) && ':' !in w
    ensures Parse(Utf8.Encode(CrLfJoin([m + " " + res + " " + ver, k + ": " + v1, k + ": " + v2, ""]) + w)) ==
      Some(Request(RequestLine(ClientFrom(m).GetOr(GET), Resource(res), FromText(ver).GetOr(Http11)),
                   map[k := v2], Utf8.Encode(k + ": " + v2 + w)))
  {
    var start := m + " " + res + " " + ver;
    var h1, h2 := k + ": " + v1, k + ": " + v2;
    StartLine(m, res, ver);
    HeaderNoNewline(k, v1);
    HeaderNoNewline(k, v2);
    TokenNoNewline(w);
    TwoHeaderLines(start, h1, h2, w);
    RepeatedInsert(k, v1, v2, w);
    RepeatedHeaderBody(h1, h2, w, map[k := v2]);
    ParseOfLines(CrLfJoin([start, h1, h2, ""]) + w, start, [h1, h2, "", w],
                 RequestLine(ClientFrom(m).GetOr(GET), Resource(res), FromText(ver).GetOr(Http11)),
                 map[k := v2], h2 + w);
  }

  /** The words of that request are tokens, and its start line names POST,
      /xp and HTTP/1.1. */
  lemma HostExampleWords()
    ensures "POST" + " " + "/xp" + " " + "HTTP/1.1" == "POST /xp HTTP/1.1"
    ensures "Host" + ": " + "127.0.0.1:8000" == "Host: 127.0.0.1:8000"
    ensures IsToken("POST") && IsToken("/xp") && IsToken("HTTP/1.1")
    ensures IsToken("Host") && ':' !in "Host" && IsToken("127.0.0.1:8000")
    ensures IsToken("xxxxxx") && ':' !in "xxxxxx"
    ensures ClientFrom("POST") == Ok(POST) && Resource("/xp") == "/xp" && FromText("HTTP/1.1") == Ok(Http11)
  {
  }

  /** A request of the documented shape, with POST and /xp on its start
      line and CRLF line ends: the host header keeps its port, since only
      the first ':' separates key and value, and the body is the last line. */
  lemma ParseHostExample()
    ensures Parse(Utf8.Encode(CrLfJoin(["POST /xp HTTP/1.1", "Host: 127.0.0.1:8000", ""]) + "xxxxxx")) ==
      Some(Request(RequestLine(POST, "/xp", Http11), map["Host" := "127.0.0.1:8000"], Utf8.Encode("xxxxxx")))
  {
    HostExampleWords();
    ParseOneHeader("POST", "/xp", "HTTP/1.1", "Host", "127.0.0.1:8000", "xxxxxx");
  }

  /** A resource without a leading '/' gets one, and a start line followed
      by one empty line gives no headers and an empty body. */
  lemma ParseSlashExample()
    ensures Parse(Utf8.Encode(CrLfJoin(["PUT xp HTTP/2", ""]))) ==
      Some(Request(RequestLine(PUT, "/xp", Http2), map[], []))
  {
    var m, res, ver := "PUT", "xp", "HTTP/2";
    assert IsToken(m) && IsToken(res) && IsToken(ver);
    assert ClientFrom(m) == Ok(PUT) && Resource(res) == "/xp" && FromText(ver) == Ok(Http2);
    assert m + " " + res + " " + ver == "PUT xp HTTP/2";
    ParseNoHeaders(m, res, ver);
  }
}
