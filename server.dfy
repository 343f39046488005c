/**
  The server's answer: a response and a status, rendered as the text of an
  HTTP message -- status line, one line per header entry handed out by the
  header map's cursor, an empty line, then the body decoded lossily.
 */
module Server {
  import opened Wrappers
  import opened Text
  import opened Version
  import opened Method
  import opened HeaderMapping
  import Responses
  import Utf8

  /** `HTTPServerResponse`; `HTTPServerResponse::new` and
      `HTTPServerResponseBuilder::new` are this constructor. */
  datatype ServerResponse = ServerResponse(response: Responses.Response, status: ServerMethod)

  /** `HTTPServerResponseBuilder`: both fields unset until their setters run. */
  datatype ServerResponseBuilder = ServerResponseBuilder(
    response: Option<Responses.Response>,
    status: Option<ServerMethod>)

  /** `builder`, the derived `Default`: nothing set. */
  function Builder(): (b: ServerResponseBuilder)
    ensures b.response.None? && b.status.None?
  {
    ServerResponseBuilder(None, None)
  }

  /** The `response` setter: sets the response, keeps the status. */
  function WithResponse(b: ServerResponseBuilder, r: Responses.Response): (x: ServerResponseBuilder)
    ensures x.response == Some(r) && x.status == b.status
  {
    b.(response := Some(r))
  }

  /** The `method` setter: sets the status, keeps the response. */
  function WithStatus(b: ServerResponseBuilder, m: ServerMethod): (x: ServerResponseBuilder)
    ensures x.status == Some(m) && x.response == b.response
  {
    b.(status := Some(m))
  }

  /** Setting a field twice keeps the second value; the two setters commute. */
  lemma SettersLastWins(b: ServerResponseBuilder, r1: Responses.Response, r2: Responses.Response,
                        m1: ServerMethod, m2: ServerMethod)
    ensures WithResponse(WithResponse(b, r1), r2) == WithResponse(b, r2)
    ensures WithStatus(WithStatus(b, m1), m2) == WithStatus(b, m2)
    ensures WithResponse(WithStatus(b, m1), r1) == WithStatus(WithResponse(b, r1), m1)
  {
  }

  /** `build`: the response that was set, or the default response built by
      the response builder (HTTP/1.1, a new empty header map, an empty
      body); the status that was set, or 200 OK. The default response is
      built whether or not it is used, as `unwrap_or` evaluates its
      argument. */
  method Build(b: ServerResponseBuilder) returns (r: ServerResponse)
    ensures r.status == b.status.GetOr(OK)
    ensures b.response.Some? ==> r.response == b.response.value
    ensures b.response.None? ==>
      && r.response.version == Http11 && r.response.body == []
      && fresh(r.response.header) && r.response.header.Valid()
      && r.response.header.table == map[] && r.response.header.iterCount == None
  {
    var fallback := Responses.Build(Responses.Builder());
    var response := b.response.GetOr(fallback);
    r := ServerResponse(response, b.status.GetOr(OK));
  }

  // ----- the rendered text -----

  /** One header entry on the wire: `key:value;` and CRLF. */
  function HeaderLine(e: Entry): (s: string)
    ensures |s| == |e.0| + |e.1| + 4 && s[..|e.0|] == e.0 && s[|e.0|] == ':' && s[|s| - 3..] == ";\r\n"
      && s[|e.0| + 1..|s| - 3] == e.1
  {
    e.0 + ":" + e.1 + ";\r\n"
  }

  /** The header lines of a sequence of entries, in order. */
  function HeaderLines(es: seq<Entry>): (ls: seq<string>)
    ensures |ls| == |es|
    ensures forall i :: 0 <= i < |es| ==> ls[i] == HeaderLine(es[i])
  {
    if es == [] then [] else [HeaderLine(es[0])] + HeaderLines(es[1..])
  }

  /** The status line: version, a space, the status text, CRLF. */
  function StatusLine(v: HttpVersion, m: ServerMethod): (s: string)
    ensures |s| > 5 && s[..5] == "HTTP/" && s[|s| - 2..] == "\r\n"
    ensures s == IntoStr(v) + " " + ServerIntoStr(m) + "\r\n"
  {
    ToString(v) + " " + ServerToString(m) + "\r\n"
  }

  /** What `http` returns for a version, a status, the entries the header
      traversal hands out, and a body: the status line, the header lines
      joined with nothing between them, an empty line, and the body decoded
      with U+FFFD for every malformed sequence. */
  function Render(v: HttpVersion, m: ServerMethod, es: seq<Entry>, body: seq<Utf8.byte>): (s: string)
    ensures StatusLine(v, m) <= s
    ensures |Utf8.Lossy(body)| <= |s| && s[|s| - |Utf8.Lossy(body)|..] == Utf8.Lossy(body)
  {
    StatusLine(v, m) + Concat(HeaderLines(es)) + "\r\n" + Utf8.Lossy(body)
  }

  lemma HeaderLinesAppend(es: seq<Entry>, e: Entry)
    ensures HeaderLines(es + [e]) == HeaderLines(es) + [HeaderLine(e)]
  {
  }

  /** Part way through a traversal that started at cursor `c0`: `seen` has
      been handed out, `item` is what the last call of `next` returned and
      `c` is where it left the cursor. */
  ghost predicate Resumes(c0: Option<nat>, es: seq<Entry>, seen: seq<Entry>, item: Option<Entry>, c: Option<nat>) {
    if item.Some? then Collect(c0, es) == (seen + [item.value] + Collect(c, es).0, Collect(c, es).1)
    else Collect(c0, es) == (seen, c)
  }

  /** The first call of `next` starts the traversal. */
  lemma ResumesStart(c0: Option<nat>, es: seq<Entry>)
    ensures var (r, c) := Step(c0, es); Resumes(c0, es, [], r, c)
  {
    var (r, c) := Step(c0, es);
    if r.Some? {
      assert [] + [r.value] == [r.value];
    }
  }

  /** Each further call continues it and brings the cursor closer to the end. */
  lemma ResumesNext(c0: Option<nat>, es: seq<Entry>, seen: seq<Entry>, x: Entry, c: Option<nat>)
    requires Resumes(c0, es, seen, Some(x), c)
    ensures var (r, c') := Step(c, es);
      && Resumes(c0, es, seen + [x], r, c')
      && (r.Some? ==> Distance(c', |es|) < Distance(c, |es|))
  {
    var (r, c') := Step(c, es);
    if r.Some? {
      assert Collect(c, es) == ([r.value] + Collect(c', es).0, Collect(c', es).1);
      assert seen + [x] + ([r.value] + Collect(c', es).0) == seen + [x] + [r.value] + Collect(c', es).0;
    } else {
      assert Collect(c, es) == ([], c');
      assert seen + [x] + [] == seen + [x];
    }
  }

  /** `http`: drives the header map's cursor with `next` until it returns
      None, formats each entry it hands out, and assembles the message. The
      table is not changed; the cursor ends where that traversal leaves it. */
  method Http(sr: ServerResponse) returns (s: string)
    requires sr.response.header.Valid()
    modifies sr.response.header`iterCount
    ensures sr.response.header.Valid()
    ensures sr.response.header.table == old(sr.response.header.table)
    ensures sr.response.header.order == old(sr.response.header.order)
    ensures var (es, c) := Collect(old(sr.response.header.iterCount), sr.response.header.Entries());
      && sr.response.header.iterCount == c
      && s == Render(sr.response.version, sr.status, es, sr.response.body)
  {
    var statusText := ServerToString(sr.status);
    var versionText := ToString(sr.response.version);
    var bodyText := Utf8.Lossy(sr.response.body);
    var header := sr.response.header;

    ghost var es := header.Entries();
    ghost var c0 := header.iterCount;
    ghost var seen: seq<Entry> := [];
    var lines: seq<string> := [];
    var item := header.Next();
    ResumesStart(c0, es);
    while item.Some?
      invariant header.Valid() && header.Entries() == es
      invariant header.table == old(header.table) && header.order == old(header.order)
      invariant lines == HeaderLines(seen)
      invariant Resumes(c0, es, seen, item, header.iterCount)
      decreases if item.Some? then Distance(header.iterCount, |es|) + 1 else 0
    {
      ResumesNext(c0, es, seen, item.value, header.iterCount);
      HeaderLinesAppend(seen, item.value);
      lines := lines + [HeaderLine(item.value)];
      seen := seen + [item.value];
      item := header.Next();
    }
    s := versionText + " " + statusText + "\r\n" + Concat(lines) + "\r\n" + bodyText;
  }

  /** `http_bytes`: the UTF-8 bytes of `http`. */
  method HttpBytes(sr: ServerResponse) returns (b: seq<Utf8.byte>)
    requires sr.response.header.Valid()
    modifies sr.response.header`iterCount
    ensures sr.response.header.Valid()
    ensures sr.response.header.table == old(sr.response.header.table)
    ensures sr.response.header.order == old(sr.response.header.order)
    ensures var (es, c) := Collect(old(sr.response.header.iterCount), sr.response.header.Entries());
      && sr.response.header.iterCount == c
      && b == Utf8.Encode(Render(sr.response.version, sr.status, es, sr.response.body))
  {
    var s := Http(sr);
    b := Utf8.Encode(s);
  }

  // ----- properties of the rendering -----

  /** From a reset cursor every entry is rendered, in iteration order, and
      the cursor is reset again (left at Some(1) on an empty map). */
  lemma RenderFromReset(v: HttpVersion, m: ServerMethod, es: seq<Entry>, body: seq<Utf8.byte>)
    ensures Collect(None, es).0 == es
    ensures Render(v, m, Collect(None, es).0, body) ==
      StatusLine(v, m) + Concat(HeaderLines(es)) + "\r\n" + Utf8.Lossy(body)
  {
    CollectFromNone(es);
  }

  /** Rendering twice gives the same headers: the first traversal from a
      reset cursor leaves a cursor from which the second one again hands
      out every entry. */
  lemma RenderRepeatable(es: seq<Entry>)
    ensures var (first, c) := Collect(None, es); Collect(c, es).0 == first == es
  {
    CollectFromNone(es);
    if es == [] {
      CollectFromSome(1, es);
    }
  }

  /** A map whose cursor was already advanced to Some(k) renders only the
      entries from position k on. */
  lemma RenderResumed(k: nat, es: seq<Entry>)
    requires k <= |es|
    ensures Collect(Some(k), es) == (es[k..], None)
  {
    CollectFromSome(k, es);
  }

  /** A traversal of a map from a reset cursor renders each of its entries
      exactly once: one header line per key, and the line of every pair of
      the table is among them. */
  lemma RenderEveryEntry(order: seq<string>, table: map<string, string>)
    requires Enumerates(order, table)
    ensures var ls := HeaderLines(Collect(None, EntriesOf(order, table)).0);
      && |ls| == |table|
      && (forall k :: k in table ==> HeaderLine((k, table[k])) in ls)
  {
    var es := EntriesOf(order, table);
    CollectFromNone(es);
    EntriesAreTheTable(order, table);
    var ls := HeaderLines(es);
    forall k | k in table ensures HeaderLine((k, table[k])) in ls {
      var i :| 0 <= i < |es| && es[i] == (k, table[k]);
      assert ls[i] == HeaderLine(es[i]);
    }
  }

  /** The rendering starts with the status line, and the header lines
      follow it. */
  lemma RenderStartsWithStatus(v: HttpVersion, m: ServerMethod, es: seq<Entry>, body: seq<Utf8.byte>)
    ensures var st := StatusLine(v, m); var r := Render(v, m, es, body);
      && |st| <= |r| && r[..|st|] == st
      && st == IntoStr(v) + " " + ServerIntoString(m) + "\r\n"
  {
  }

  /** With no headers, 200 OK on HTTP/1.1 is the status line, an empty line
      and the body -- the response of `send` in the source's tests. */
  lemma RenderOkNoHeaders(body: seq<Utf8.byte>)
    ensures Render(Http11, OK, [], body) == "HTTP/1.1 200 OK\r\n\r\n" + Utf8.Lossy(body)
  {
    assert Concat(HeaderLines([])) == [];
  }

  /** A body that is valid UTF-8 is rendered as the text it encodes. */
  lemma RenderValidBody(v: HttpVersion, m: ServerMethod, es: seq<Entry>, text: string)
    ensures Render(v, m, es, Utf8.Encode(text)) ==
      StatusLine(v, m) + Concat(HeaderLines(es)) + "\r\n" + text
  {
    Utf8.DecodeEncode(text);
    Utf8.LossyOfValid(Utf8.Encode(text));
  }

  /** Read back by the request parser's header stage -- `str::lines`, which
      drops the CRLF, then `trim` and the header parser -- a rendered header
      line gives back its key, but its value keeps the ';' the renderer
      appended. */
  lemma HeaderLineReadsBack(k: string, v: string, rest: string)
    requires IsToken(k) && ':' !in k && IsToken(v)
    ensures Lines(HeaderLine((k, v)) + rest) == [k + ":" + v + ";"] + Lines(rest)
    ensures ParseText(Trim(k + ":" + v + ";")) == Ok((k, v + ";"))
  {
    var l := k + ":" + v + ";";
    assert '\n' !in l by {
      assert IsWhitespace('\n');
      assert forall j :: 0 <= j < |l| ==> l[j] == ';' || l[j] == ':' || l[j] in k || l[j] in v;
    }
    assert HeaderLine((k, v)) + rest == l + "\r\n" + rest;
    LinesCrLf(l, rest);
    var w := v + ";";
    assert IsToken(w) by {
      assert forall j :: 0 <= j < |w| ==> j < |v| ==> w[j] == v[j];
    }
    assert l == k + ":" + w;
    assert l[0] == k[0] && l[|l| - 1] == ';';
    TrimOfTrimmed(l);
    ParseRenderedPair(k, w);
  }
}
