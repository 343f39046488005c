/** The protocol version that ends a request line and starts a status line. */
module Version {
  import opened Wrappers
  import Utf8

  datatype VersionParseError = UnknownChars | NotMatch

  datatype HttpVersion = Http10 | Http11 | Http2

  /** `Into<&str>`: the wire literal, the protocol name "HTTP/" followed by
      the version number 1.0, 1.1 or 2. */
  function IntoStr(v: HttpVersion): (s: string)
    ensures |s| > 5 && s[..5] == "HTTP/" && s[5..] in {"1.0", "1.1", "2"}
  {
    match v
    case Http10 => "HTTP/1.0"
    case Http11 => "HTTP/1.1"
    case Http2 => "HTTP/2"
  }

  /** `Into<String>`, a separate table in the source that agrees with `Into<&str>`. */
  function IntoString(v: HttpVersion): (s: string)
    ensures s == IntoStr(v)
  {
    match v
    case Http10 => "HTTP/1.0"
    case Http11 => "HTTP/1.1"
    case Http2 => "HTTP/2"
  }

  /** `ToString`, via `Into<String>`. */
  function ToString(v: HttpVersion): (s: string)
    ensures s == IntoStr(v)
  {
    IntoString(v)
  }

  /** `as_bytes`: the UTF-8 bytes of the `&str` rendering. */
  function AsBytes(v: HttpVersion): (b: seq<Utf8.byte>)
    ensures Utf8.Decode(b) == Some(IntoStr(v))
  {
    Utf8.DecodeEncode(IntoStr(v));
    Utf8.Encode(IntoStr(v))
  }

  /** The exact, case-sensitive match of `from_raw` once the bytes are text;
      the request parser also uses it for the version token. */
  function FromText(s: string): (r: Result<HttpVersion, VersionParseError>)
    ensures r.Ok? ==> IntoStr(r.value) == s
    ensures r.Err? ==> r.error == NotMatch
  {
    if s == "HTTP/1.0" then Ok(Http10)
    else if s == "HTTP/1.1" then Ok(Http11)
    else if s == "HTTP/2" then Ok(Http2)
    else Err(NotMatch)
  }

  /** `from_raw`: UnknownChars exactly when the bytes are not UTF-8; a version
      is returned only for the exact bytes of its wire literal. */
  function FromRaw(raw: seq<Utf8.byte>): (r: Result<HttpVersion, VersionParseError>)
    ensures r == Err(UnknownChars) <==> !Utf8.IsValid(raw)
    ensures r.Ok? ==> AsBytes(r.value) == raw
  {
    match Utf8.Decode(raw)
    case None => Err(UnknownChars)
    case Some(s) =>
      Utf8.EncodeDecode(raw);
      FromText(s)
  }

  /** Every version survives rendering to bytes and parsing back. */
  lemma FromRawAsBytes(v: HttpVersion)
    ensures FromRaw(AsBytes(v)) == Ok(v)
  {
    Utf8.DecodeEncode(IntoStr(v));
  }

  /** Valid text other than the three literals is NotMatch. */
  lemma FromRawNotMatch(raw: seq<Utf8.byte>)
    requires Utf8.IsValid(raw)
    requires forall v :: Utf8.Decode(raw).value != IntoStr(v)
    ensures FromRaw(raw) == Err(NotMatch)
  {
  }

  /** The match is case-sensitive: a lower-case literal is not recognised. */
  lemma FromTextCaseSensitive()
    ensures FromText("http/1.1") == Err(NotMatch)
    ensures FromText("HTTP/2.0") == Err(NotMatch)
  {
  }

  /** The three wire literals are pairwise distinct, so rendering is injective. */
  lemma IntoStrInjective(v: HttpVersion, w: HttpVersion)
    requires IntoStr(v) == IntoStr(w)
    ensures v == w
  {
    assert FromText(IntoStr(v)) == Ok(v);
  }

  /** `version_byte_test`: HTTP/1.1 is the bytes 'H' 'T' 'T' 'P' '/' '1' '.' '1'. */
  lemma AsBytesHttp11()
    ensures AsBytes(Http11) == [72, 84, 84, 80, 47, 49, 46, 49]
  {
    var s := IntoStr(Http11);
    assert s == "HTTP/1.1";
    Utf8.EncodeAscii(s);
  }
}
