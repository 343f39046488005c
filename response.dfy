/**
  The message shared by both directions -- a version, a header map and a
  body of bytes -- and its builder, whose unset fields fall back to
  defaults when it is built.
 */
module Responses {
  import opened Wrappers
  import opened Version
  import opened HeaderMapping
  import Utf8

  /** `Response`. Both `Response::new` and `ResponseBuilder::new` are this
      constructor, and the accessors `version`, `header` and `body` are its
      fields. */
  datatype Response = Response(version: HttpVersion, header: HeaderMap, body: seq<Utf8.byte>)

  /** `ResponseBuilder`: each field is unset until its setter is called. */
  datatype ResponseBuilder = ResponseBuilder(
    version: Option<HttpVersion>,
    header: Option<HeaderMap>,
    body: Option<seq<Utf8.byte>>)

  /** `builder`, the derived `Default`: nothing set. */
  function Builder(): (b: ResponseBuilder)
    ensures b.version.None? && b.header.None? && b.body.None?
  {
    ResponseBuilder(None, None, None)
  }

  /** The `version` setter: sets the version, keeps the other two fields. */
  function WithVersion(b: ResponseBuilder, v: HttpVersion): (r: ResponseBuilder)
    ensures r.version == Some(v) && r.header == b.header && r.body == b.body
  {
    b.(version := Some(v))
  }

  /** The `header` setter: sets the header map, keeps the other two fields. */
  function WithHeader(b: ResponseBuilder, h: HeaderMap): (r: ResponseBuilder)
    ensures r.header == Some(h) && r.version == b.version && r.body == b.body
  {
    b.(header := Some(h))
  }

  /** The `body` setter: sets the body, keeps the other two fields. */
  function WithBody(b: ResponseBuilder, body: seq<Utf8.byte>): (r: ResponseBuilder)
    ensures r.body == Some(body) && r.version == b.version && r.header == b.header
  {
    b.(body := Some(body))
  }

  /** Calling a setter twice keeps only the second value, and setters of
      different fields commute. */
  lemma SettersLastWins(b: ResponseBuilder, v1: HttpVersion, v2: HttpVersion,
                        h1: HeaderMap, h2: HeaderMap, x1: seq<Utf8.byte>, x2: seq<Utf8.byte>)
    ensures WithVersion(WithVersion(b, v1), v2) == WithVersion(b, v2)
    ensures WithHeader(WithHeader(b, h1), h2) == WithHeader(b, h2)
    ensures WithBody(WithBody(b, x1), x2) == WithBody(b, x2)
    ensures WithVersion(WithHeader(b, h1), v1) == WithHeader(WithVersion(b, v1), h1)
    ensures WithVersion(WithBody(b, x1), v1) == WithBody(WithVersion(b, v1), x1)
    ensures WithHeader(WithBody(b, x1), h1) == WithBody(WithHeader(b, h1), x1)
  {
  }

  /** A builder with every field set holds exactly those values. */
  lemma SetAll(v: HttpVersion, h: HeaderMap, x: seq<Utf8.byte>)
    ensures WithBody(WithHeader(WithVersion(Builder(), v), h), x) == ResponseBuilder(Some(v), Some(h), Some(x))
  {
  }

  /** `Option<HeaderMap>::unwrap_or_default`: the map that is there, or a new
      empty one with a reset cursor. */
  method HeaderOrDefault(h: Option<HeaderMap>) returns (r: HeaderMap)
    ensures h.Some? ==> r == h.value
    ensures h.None? ==> fresh(r) && r.Valid() && r.table == map[] && r.iterCount == None
  {
    if h.Some? {
      r := h.value;
    } else {
      r := new HeaderMap();
    }
  }

  /** `build`: the fields that were set, and HTTP/1.1, a new empty header
      map and an empty body for those that were not. */
  method Build(b: ResponseBuilder) returns (r: Response)
    ensures r.version == b.version.GetOr(Http11)
    ensures r.body == b.body.GetOr([])
    ensures b.header.Some? ==> r.header == b.header.value
    ensures b.header.None? ==>
      fresh(r.header) && r.header.Valid() && r.header.table == map[] && r.header.iterCount == None
  {
    var header := HeaderOrDefault(b.header);
    r := Response(b.version.GetOr(Http11), header, b.body.GetOr([]));
  }

  /** `header_insert`: parses one header line and inserts the pair into the
      builder's header map, or into a new empty one. A line that does not
      parse is not dropped: `unwrap_or_default` turns it into the pair
      ("", ""), which is inserted. */
  method HeaderInsert(b: ResponseBuilder, t: MappingInput) returns (r: ResponseBuilder)
    requires b.header.Some? ==> b.header.value.Valid()
    modifies if b.header.Some? then {b.header.value} else {}
    ensures r.version == b.version && r.body == b.body && r.header.Some?
    ensures b.header.Some? ==> r.header.value == b.header.value
    ensures b.header.None? ==> fresh(r.header.value)
    ensures r.header.value.Valid()
    ensures r.header.value.iterCount == if b.header.Some? then old(b.header.value.iterCount) else None
    ensures var before := if b.header.Some? then old(b.header.value.table) else map[];
      && (ParseKeyValue(t).Ok? ==>
            r.header.value.table == before[ParseKeyValue(t).value.0 := ParseKeyValue(t).value.1])
      && (ParseKeyValue(t).Err? ==> r.header.value.table == before["" := ""])
  {
    var header := HeaderOrDefault(b.header);
    var _ := header.InsertTuple(ParseKeyValue(t).GetOr(("", "")));
    r := b.(header := Some(header));
  }
}
