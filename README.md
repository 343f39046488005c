# http-rs_plus codec, modelled in Dafny

This project models the core of a small textual HTTP/1.x codec written in
Rust. The core has four parts:

- **Wire enumerations.** The protocol version, the seven request methods, and
  the server status lines with their open `Other(code, reason)` variant. Each
  has a rendering to text and bytes and an exact, case-sensitive parse.
- **Header map.** A key/value table that carries one iteration cursor on the
  map itself. It comes with the line parser `parse_key_value` and the
  `try_insert` built on top of it.
- **Message model and builders.** A response (version, header map, body
  bytes) and its builder, which fills unset fields with defaults.
- **Codec.** The request parser `HTTPClientResponseBuilder::build` turns
  bytes into a method, resource, version, headers and body. The renderer
  `HTTPServerResponse::http` / `http_bytes` drives the header map's cursor
  and writes the status line, the header lines, an empty line and the body.

Each source file keeps its own form in the model:

- Pure code becomes datatypes, functions and lemmas:
  - `version.dfy`, `method.dfy`
  - the line parser
  - the builders
  - the two string libraries `text.dfy` (Rust's `split_whitespace`, `trim`,
    `lines`, `replacen`, `concat` and decimal formatting) and `utf8.dfy`
    (`as_bytes`, `String::from_utf8` and `from_utf8_lossy`, written with the
    standard library's byte-range tests).
- Code that changes state becomes classes and methods:
  - The header map is a `class` with a `table`, an `order` and an
    `iterCount` field, and its methods carry `modifies` clauses.
  - The request parser `Client.Build` is a method. It walks the lines,
    fills a fresh header map with `TryInsert` in a loop, and builds the body
    with a second loop. It is proved to compute the specification function
    `Client.Parse`.
  - `Server.Http` drives the map's `Next` until it returns `None`. It is
    proved to render the entries that the cursor protocol (`Collect`) hands
    out and to leave the cursor where that protocol leaves it.

Assumptions, for places where the source files do not agree with each other:

- `HeaderMap` (src/header_map.rs) and `HTTPHeadMap` (src/map.rs) are the same
  class, `HeaderMapping.HeaderMap`. The only difference is
  `current_iter_count_mut`, which only src/map.rs has; here it is `SetIterCount`.
- `HTTPVersion::from(s)`, called by the parser but not defined in
  src/header/version.rs, is the exact text match that `from_raw` applies to
  valid text (`Version.FromText`).
- `HTTPResponse` / `HTTPResponseBuilder`, used by src/response/server.rs, are
  `Response` / `ResponseBuilder` of src/response/mod.rs.

How closely the standard library is followed:

- Whitespace follows the Unicode White_Space property that
  `char::is_whitespace` uses, not an ASCII subset.
- UTF-8 is modelled concretely, not as an abstract predicate. `Utf8.Lossy`
  follows the standard library's rule of one U+FFFD per maximal ill-formed
  part. No lemma relates it further to `from_utf8_lossy` than
  `Utf8.LossyOfValid` does.

Behaviour of the code that the model follows, and that a reader might not
expect:

- `str::lines` removes every terminator. The parser's stop test
  `ends_with("\r\n")` therefore never fires, and every line after the start
  line is offered to the header parser, body lines included, as long as there
  are at least two such lines (`Client.RunLengthOfLines`, `Client.ParseShape`).
  A two-word body line becomes a header.
- The header/body boundary is `header.len()`, the number of distinct keys. It
  is not the number of lines that were headers and not a blank line. When a
  header is repeated, the second header line ends up in the body
  (`Client.ParseRepeatedHeader`).
- The body joins its lines with no separator. A header value loses its inner
  whitespace, since the value tokens are also joined with no separator.
- The renderer writes `key:value;` and CRLF. Read back by the parser, such a
  line keeps the `;` in its value (`Server.HeaderLineReadsBack`).
- `header_insert` inserts the pair ("", "") for a line that does not parse.
- On an empty map, the first `next` from a reset cursor returns `None` but
  leaves the cursor at `Some(1)`.

## Model

| member | source | states |
|---|---|---|
| Version.IntoStr | src/header/version.rs:26-34 | every wire literal is "HTTP/" followed by one of the version numbers 1.0, 1.1 and 2; `IntoStrInjective` shows distinct versions get distinct literals |
| Version.IntoString | src/header/version.rs:15-34 | `Into<String>` and `Into<&str>` give the same literal for every version |
| Version.ToString | src/header/version.rs:66-70 | `to_string` is the `Into<&str>` literal |
| Version.FromText | src/header/version.rs:39-43 | a version is returned only for its own literal; any other text is NotMatch |
| Version.AsBytes | src/header/version.rs:49-52 | the bytes decode back to the `&str` literal; `FromRawAsBytes` shows that `from_raw` recovers the version |
| Version.FromRaw | src/header/version.rs:37-48 | UnknownChars exactly when the bytes are not UTF-8; a version is returned only for the exact bytes of its literal |
| Version.FromRawAsBytes | src/header/version.rs:37-52 | every version survives `as_bytes` followed by `from_raw` |
| Version.FromRawNotMatch | src/header/version.rs:39-43 | valid text other than the three literals gives NotMatch |
| Version.FromTextCaseSensitive | src/header/version.rs:39-43 | "http/1.1" and "HTTP/2.0" are not recognised |
| Version.IntoStrInjective | src/header/version.rs:28-32 | the three literals are distinct, so rendering is injective |
| Version.AsBytesHttp11 | src/header/version.rs:59-63 | HTTP/1.1 has the bytes of "HTTP/1.1" |
| Method.ClientIntoStr | src/header/method.rs:34-47 | each literal is a non-empty word of upper-case ASCII letters; `ClientFromIntoStr` shows that `from` recovers the method |
| Method.ClientIntoString | src/header/method.rs:20-47 | the `Into<String>` table agrees with the `Into<&str>` table |
| Method.ClientToString | src/header/method.rs:162-166 | `to_string` is the `Into<&str>` literal |
| Method.ClientAsBytes | src/header/method.rs:142-147 | the bytes decode back to the `&str` literal of the method |
| Method.ClientFrom | src/header/method.rs:50-64 | a method is returned only for its own literal |
| Method.ClientFromIntoStr | src/header/method.rs:50-64 | all seven methods survive rendering and parsing back |
| Method.ClientFromNoMatch | src/header/method.rs:54-62 | text other than the seven literals gives NoMatch |
| Method.ClientGetLiteral | src/header/method.rs:201-211 | GET renders as "GET" with bytes 71 69 84, and "get" is NoMatch |
| Method.OtherText | src/header/method.rs:95 | the first space ends the decimal digits of the code, which read back as the code, and the reason phrase is everything after that space |
| Method.ServerIntoString | src/header/method.rs:84-98 | the text of `Other(code, reason)` splits at its first space into the code in digits and the reason; `ServerFromIntoString` shows the eight named statuses round-trip |
| Method.ServerIntoStr | src/header/method.rs:100-116 | the `Into<&str>` table, including the leaked `Other` text, agrees with `Into<String>` |
| Method.ServerToString | src/header/method.rs:156-160 | `to_string` is the `Into<&str>` rendering |
| Method.ServerAsBytes | src/header/method.rs:149-154 | the bytes decode back to the `&str` rendering of the status |
| Method.ServerFrom | src/header/method.rs:119-134 | a parse never yields Other, and yields a status only for that status's own text |
| Method.ServerFromIntoString | src/header/method.rs:119-134 | the eight named statuses survive rendering and parsing back |
| Method.OtherDoesNotRoundTrip | src/header/method.rs:123-132 | the rendering of any Other never parses back to that Other |
| Method.Other200Ok | src/header/method.rs:172-194 | Other(200, "OK") renders as "200 OK" with the bytes of OK, and parses back as OK |
| Method.OtherTextInjective | src/header/method.rs:95 | two Other statuses with the same text have the same code and reason |
| Text.Tokens | src/header_map.rs:123 | `split_whitespace` yields no more pieces than the text has characters; `TokensAreTokens` and `ConcatTokens` say what the pieces are |
| Text.TokensAreTokens | src/header_map.rs:123 | every piece `split_whitespace` yields is non-empty and has no whitespace |
| Text.Concat | src/header_map.rs:129-130 | the first piece starts the joined text; `ConcatAppend` and `ConcatTokens` give the rest |
| Text.ConcatTokens | src/header_map.rs:128-130 | the tokens joined with no separator are exactly the input's non-whitespace characters |
| Text.ConcatOfTokens | src/header_map.rs:129-130 | a non-empty run of tokens joins to a token |
| Text.ReplaceFirst | src/header_map.rs:122 | `replacen` with a one-character pattern and replacement keeps the length; `ReplaceFirstSpec` says which character changes |
| Text.ReplaceFirstSpec | src/header_map.rs:122 | `replacen(':', " ", 1)` changes only the first ':' |
| Text.IndexOf | src/header_map.rs:122 | the index is within the text or its end; `IndexOfSpec` shows it is the first occurrence |
| Text.IndexOfSpec | src/header_map.rs:122 | the index found is the first occurrence |
| Text.Trim | src/response/client.rs:103 | `trim` never lengthens the text, and its result neither starts nor ends with whitespace; `TrimSpec` shows only whitespace is cut |
| Text.TrimSpec | src/response/client.rs:103 | `trim` keeps the part between leading and trailing whitespace, and every character cut off is whitespace |
| Text.Lines | src/response/client.rs:58 | `lines` yields nothing exactly for empty text; `LinesNoNewline`, `LinesCrLf` and `LinesLast` give the lines |
| Text.LinesNoNewline | src/response/client.rs:58 | no line yielded by `lines` holds a '\n' |
| Text.LinesCrLf | src/response/client.rs:58 | a line ended by CRLF is yielded without its terminator |
| Text.LinesOfCrLfJoin | src/response/client.rs:58 | CRLF-terminated lines are yielded back, followed by the lines of what comes after them |
| Text.LinesLast | src/response/client.rs:58 | a last line with no terminator is yielded whole |
| Text.Decimal | src/header/method.rs:95 | the decimal rendering is a non-empty run of digits with no leading zero |
| Text.DecimalValueOfDecimal | src/header/method.rs:95 | reading the digits back gives the number |
| Utf8.Encode | src/header/version.rs:51 | `as_bytes` gives between one and four bytes per character; `DecodeEncode` shows the bytes decode back to the text |
| Utf8.Decode | src/header/version.rs:38 | `String::from_utf8` yields no more characters than there are bytes; `EncodeDecode` shows a success re-encodes to the input |
| Utf8.Lossy | src/response/server.rs:72 | `from_utf8_lossy` yields no more characters than there are bytes; `LossyOfValid` shows it replaces nothing on valid input |
| Utf8.DecodeEncode | src/header/version.rs:38 | the bytes of any string are valid UTF-8 and decode to that string |
| Utf8.EncodeDecode | src/header/version.rs:38 | valid bytes re-encode from their text to the same bytes |
| Utf8.LossyOfValid | src/response/server.rs:72 | on valid bytes `from_utf8_lossy` replaces nothing |
| Utf8.DecodeNonEmpty | src/header_map.rs:112-120 | non-empty valid bytes never decode to empty text |
| Utf8.StrayByteInvalid | src/header_map.rs:112-115 | a byte in 0x80..0xC1 after ASCII makes the input invalid |
| HeaderMapping.SplitKeyValue | src/header_map.rs:122-132 | the shared tail of the three parsers fails only with UnknownString and otherwise gives a non-empty key; `ParseTextSpec` and `ParseColonLine` give the key and value |
| HeaderMapping.ParseText | src/header_map.rs:136-176 | an error is EmptyString exactly for empty text and UnknownString otherwise; `ParseTextSpec` gives the key and value on success |
| HeaderMapping.ParseTextSpec | src/header_map.rs:136-176 | EmptyString for empty text, UnknownString when fewer than two tokens remain after the first ':' becomes a space (both directions), else key = first token and key + value = all non-whitespace characters, both tokens |
| HeaderMapping.ParseRaw | src/header_map.rs:106-134 | EmptyRaw for no bytes, UnknownChars for invalid UTF-8, otherwise exactly the text parser on the decoded text |
| HeaderMapping.ParseKeyValue | src/header_map.rs:102-176 | the trait method gives EmptyRaw exactly for an empty byte slice and UnknownChars exactly for non-empty bytes that are not UTF-8; the text forms never report either |
| HeaderMapping.ParseKeyValueAgree | src/map.rs:108-178 | the byte, String and &str parsers agree on every non-empty text |
| HeaderMapping.ParseColonLine | src/header_map.rs:122-132 | "key:rest" parses to the key and the rest with its whitespace removed |
| HeaderMapping.ParseRenderedPair | src/header_map.rs:157-175 | the `key:value` form parses back to the pair |
| HeaderMapping.ParseSpacedPair | src/header_map.rs:157-175 | the "key: value" form parses to the pair |
| HeaderMapping.ParseOneWord | src/header_map.rs:166-168 | a single word without ':' is UnknownString |
| HeaderMapping.ParseErrors | src/header_map.rs:108-126 | an input that gives each of the four errors |
| HeaderMapping.EnumerationSize | src/header_map.rs:42-45 | a duplicate-free listing of the keys is as long as the table |
| HeaderMapping.EntriesAreTheTable | src/header_map.rs:81-84 | the iterated entries are the table's pairs, each key once, every key present |
| HeaderMapping.EnumeratesInsert | src/header_map.rs:28-31 | after an insert the iteration order still lists each key once |
| HeaderMapping.EnumeratesRemove | src/header_map.rs:33-36 | after a remove the iteration order still lists each key once |
| HeaderMapping.Nth | src/header_map.rs:81-84 | `iter().nth(offset)` gives an entry exactly when the offset is within the table, and that entry is one of the table's |
| HeaderMapping.Step | src/header_map.rs:65-85 | a returned entry is one of the table's entries and brings the cursor closer to the end; a call that returns None resets the cursor, except the first call from a reset cursor, which leaves Some(1) |
| HeaderMapping.Collect | src/header_map.rs:65-85 | calling `next` until None returns no more entries than remain ahead of the cursor, and leaves the cursor reset, except on an empty table from a reset cursor, where it is left at Some(1); `CollectFromNone` and `CollectFromSome` give the entries |
| HeaderMapping.CollectFromNone | src/header_map.rs:65-85 | calling `next` until None from a reset cursor returns every entry in order and resets the cursor, but leaves Some(1) on an empty map |
| HeaderMapping.CollectFromSome | src/header_map.rs:65-85 | resumed at Some(k), a traversal returns the entries from position k and resets the cursor |
| HeaderMapping.StepSequence | src/header_map.rs:65-85 | from None, n calls return the n entries in turn; the next returns None and resets the cursor |
| HeaderMapping.StepEmpty | src/header_map.rs:69-84 | on an empty map the first call leaves the cursor at Some(1), and the second resets it |
| HeaderMapping.HeaderMap.constructor | src/header_map.rs:14-26 | an empty table with a reset cursor |
| HeaderMapping.HeaderMap.Insert | src/header_map.rs:28-31 | returns the previous value; the key then maps to the new value and every other key is unchanged; the cursor is untouched |
| HeaderMapping.HeaderMap.InsertTuple | src/header_map.rs:47-49 | `insert` of the pair's halves |
| HeaderMapping.HeaderMap.Remove | src/header_map.rs:33-36 | returns the removed value; the key is then absent and every other key is unchanged |
| HeaderMapping.HeaderMap.SetIterCount | src/map.rs:44-46 | sets the cursor and leaves the table and its order unchanged |
| HeaderMapping.HeaderMap.Len | src/header_map.rs:42-45 | the number of keys, which is the number of entries a traversal visits |
| HeaderMapping.HeaderMap.IsEmpty | src/header_map.rs:57-59 | holds exactly when the table has no key |
| HeaderMapping.HeaderMap.Next | src/header_map.rs:65-85 | the result and the new cursor are one step of the cursor protocol; the table and its order are unchanged |
| HeaderMapping.HeaderMap.TryInsert | src/header_map.rs:179-184 | on a parse error returns it and leaves the map unchanged; otherwise it is `insert` of the parsed pair |
| Responses.Builder | src/response/mod.rs:53-55 | nothing is set |
| Responses.WithVersion | src/response/mod.rs:57-61 | sets the version only |
| Responses.WithHeader | src/response/mod.rs:63-67 | sets the header map only |
| Responses.WithBody | src/response/mod.rs:82-86 | sets the body only |
| Responses.SettersLastWins | src/response/mod.rs:57-86 | a second call of a setter overrides the first; setters of different fields commute |
| Responses.SetAll | src/response/mod.rs:57-94 | a builder with all three setters applied holds exactly those values |
| Responses.HeaderOrDefault | src/response/mod.rs:90 | the map that was set, or a fresh empty map with a reset cursor |
| Responses.Build | src/response/mod.rs:88-94 | the fields that were set, else HTTP/1.1, a fresh empty map and an empty body |
| Responses.HeaderInsert | src/response/mod.rs:69-80 | inserts the parsed pair into the builder's map or a fresh one, and inserts ("", "") for a line that does not parse; version and body are kept |
| Client.VecU8 | src/response/client.rs:46-53 | bytes are kept as they are, and text becomes bytes that decode back to it |
| Client.Init | src/response/client.rs:36-38 | an empty cache |
| Client.WithCache | src/response/client.rs:46-53 | the cache becomes the bytes of the argument |
| Client.Resource | src/response/client.rs:77-82 | the stored resource is the token or one character longer; `ResourceSpec` shows it is the token with '/' added only when missing |
| Client.ResourceSpec | src/response/client.rs:77-82 | the resource starts with '/', ends with the token, and equals the token exactly when the token starts with '/' |
| Client.ResourceIdempotent | src/response/client.rs:78-82 | adding the slash twice is the same as once |
| Client.ParseRequestLine | src/response/client.rs:71-86 | an accepted start line yields a resource that starts with '/'; `ParseRequestLineSpec` and `RequestLineFallbacks` give when it is accepted and what the method and version become |
| Client.ParseRequestLineSpec | src/response/client.rs:71-86 | a start line is accepted exactly when it has three tokens, and its resource starts with '/' |
| Client.RequestLineFallbacks | src/response/client.rs:118-126 | an unknown method becomes GET and an unknown version HTTP/1.1; known ones are kept; the resource is the token with '/' added if missing |
| Client.EndsWithCrLf | src/response/client.rs:96 | the stop test fires only on a line holding a '\n'; `RunLengthNoNewline` uses this to show it never fires on the output of `lines` |
| Client.RunLength | src/response/client.rs:95-100 | `map_while` lets through no more lines than there are; `RunLengthSpec` shows it is the longest prefix that fails the stop test |
| Client.RunLengthSpec | src/response/client.rs:95-100 | `map_while` lets through the longest prefix of lines that do not end in CRLF |
| Client.RunLengthOfLines | src/response/client.rs:93-100 | the stop test never fires on the output of `lines` |
| Client.InsertLine | src/response/client.rs:103 | offering one line keeps every key and adds at most one; `InsertLineEffect` gives which pair |
| Client.InsertAll | src/response/client.rs:102-104 | offering lines in order never loses a key of the starting map; `InsertAllSize` and `InsertAllTokens` bound and describe what is added |
| Client.InsertLineEffect | src/response/client.rs:102-104 | a line that does not parse leaves the map as it was; one that parses inserts its pair of tokens |
| Client.InsertAllSize | src/response/client.rs:102-104 | the map gets at most one key per line |
| Client.InsertAllTokens | src/response/client.rs:102-104 | every key and value the lines insert is a token |
| Client.Headers | src/response/client.rs:91-105 | the header map gets no more keys than there are lines after the start line; `ParseShape` shows every such line is offered once there are two or more |
| Client.Drop | src/response/client.rs:108 | `skip(n)` leaves exactly the lines after the first `n`, or none when there are fewer |
| Client.Parse | src/response/client.rs:56-130 | a successful parse comes only from UTF-8 bytes, has a UTF-8 body and a resource that starts with '/'; `ParseDefined` gives exactly when it succeeds and `ParseShape` what its headers and body are |
| Client.ParseDefined | src/response/client.rs:56-89 | a parse succeeds exactly when the bytes are UTF-8, give more than one line, and the first line has three tokens |
| Client.InitParsesToNone | src/response/client.rs:36-38 | `init().build()` is None |
| Client.InvalidParsesToNone | src/response/client.rs:57-129 | bytes that are not UTF-8 give None |
| Client.ParseShape | src/response/client.rs:91-117 | on success the headers come from every line after the start line (when there are two or more), hold only tokens, number at most those lines, and the body is the lines after the first `len()` |
| Client.OfferHeaderLines | src/response/client.rs:92-105 | the header loop fills a fresh map with exactly `Headers` of the lines |
| Client.JoinLines | src/response/client.rs:111-114 | the `push_str` loop gives the lines joined with no separator |
| Client.Build | src/response/client.rs:56-130 | returns a value exactly when `Parse` does, with the same method, resource, version, header table and body, in a fresh map with a reset cursor |
| Client.TokensOfThree | src/response/client.rs:72-74 | three tokens joined by spaces split back into those three |
| Client.InsertLineEmpty | src/response/client.rs:103 | an empty line inserts nothing |
| Client.InsertLineWord | src/response/client.rs:103 | a one-word line without ':' inserts nothing |
| Client.InsertLineHeader | src/response/client.rs:103 | a "key: value" line inserts that pair |
| Client.InsertIgnored | src/response/client.rs:102-104 | lines that leave the map unchanged can follow without changing it |
| Client.StartLine | src/response/client.rs:71-83 | "method resource version" is the expected start line |
| Client.LinesOfRequest | src/response/client.rs:58 | the lines of CRLF-terminated lines plus a last line are those lines |
| Client.ParseOfLines | src/response/client.rs:56-127 | the full result of a parse, given the lines of the text |
| Client.OneHeaderInsert | src/response/client.rs:102-104 | a header line, an empty line and a one-word line give the one header |
| Client.RepeatedInsert | src/response/client.rs:102-104 | of two lines with the same key the last one wins |
| Client.ParseOneHeader | src/response/client.rs:59-64 | start line, one header, empty line, one-word body: the header map holds that header and the body is the word |
| Client.ParseNoHeaders | src/response/client.rs:93-105 | start line plus one empty line: no headers and an empty body |
| Client.ParseRepeatedHeader | src/response/client.rs:108-114 | a repeated header keeps its last value, and its second line is left in the body |
| Client.ParseHostExample | src/response/client.rs:56-130 | a request of the shape documented at src/response/client.rs:59-64, with POST and /xp: "POST /xp HTTP/1.1", "Host: 127.0.0.1:8000", "", then "xxxxxx" gives POST, "/xp", HTTP/1.1, {Host: 127.0.0.1:8000} and body "xxxxxx" |
| Client.ParseSlashExample | src/response/client.rs:77-80 | "PUT xp HTTP/2" then "" gives resource "/xp", no headers and an empty body |
| Server.Builder | src/response/server.rs:27-29 | nothing is set |
| Server.WithResponse | src/response/server.rs:31-35 | sets the response only |
| Server.WithStatus | src/response/server.rs:37-41 | sets the status only |
| Server.SettersLastWins | src/response/server.rs:31-41 | a second call of a setter overrides the first; the two setters commute |
| Server.Build | src/response/server.rs:43-53 | the status that was set or OK; the response that was set or the default HTTP/1.1 response with a fresh empty map and empty body |
| Server.HeaderLine | src/response/server.rs:76 | the line is the key, a ':', the value, then ";" and CRLF, and nothing else; `HeaderLineReadsBack` shows what the request parser makes of it |
| Server.HeaderLines | src/response/server.rs:75-78 | one `key:value;` CRLF line per entry, in order |
| Server.StatusLine | src/response/server.rs:65-80 | the line starts with "HTTP/" and ends with CRLF, and is the version, a space and the status text from the `&str` tables |
| Server.Render | src/response/server.rs:64-81 | the text starts with the status line and ends with the lossily decoded body; `RenderEveryEntry` and `RenderValidBody` give the header lines and body in between |
| Server.Http | src/response/server.rs:64-81 | the text is `Render` of the entries one traversal of the cursor hands out; the table is unchanged and the cursor ends where that traversal leaves it |
| Server.HttpBytes | src/response/server.rs:83-85 | the UTF-8 bytes of the `http` text |
| Server.RenderFromReset | src/response/server.rs:75-80 | from a reset cursor every entry is rendered, in iteration order |
| Server.RenderRepeatable | src/response/server.rs:75-78 | a second traversal after the first again gives every entry |
| Server.RenderResumed | src/response/server.rs:75-78 | a cursor already at Some(k) renders only the entries from k on |
| Server.RenderEveryEntry | src/response/server.rs:75-78 | from a reset cursor there are exactly `len()` header lines, and every pair of the table is among them |
| Server.RenderStartsWithStatus | src/response/server.rs:65-80 | the text starts with the version, a space, the status text and CRLF |
| Server.RenderOkNoHeaders | src/response/server.rs:80 | HTTP/1.1, 200 OK and no headers give "HTTP/1.1 200 OK", CRLF, CRLF, then the body |
| Server.RenderValidBody | src/response/server.rs:72 | a UTF-8 body is rendered as the text it encodes |
| Server.HeaderLineReadsBack | src/response/server.rs:76 | a rendered header line read back by `lines`, `trim` and the header parser gives its key, with the value followed by ';' |

## Left out

- RefCell borrow mechanics and borrow panics: the map and its cursor are plain
  mutable fields of the class, because the code is single-threaded.
- HashMap hashing and iteration order: the class carries an arbitrary
  duplicate-free listing `order` of the keys. Insert and remove promise
  nothing about the new order beyond that, and nothing says insertion order.
- HeaderMapping.HeaderMap.Next: the cursor is an unbounded `nat`, so the
  `usize` increment at src/header_map.rs:79 cannot overflow in the model.
  Reaching `usize::MAX` would need more calls than there are entries.
- HeaderMapping.HeaderMap.CurrentIterCount: a plain read of the cursor field,
  with no contract of its own.
- `Response::body_mut`: it hands out a mutable reference into the response.
  For a value-typed `Response`, in-place access like this has no counterpart.
- The accessors `version`, `header` and `body` of `Response`, and both `new`
  constructors, are the datatype's fields and constructor. They are not
  separate functions.
- The `HTTPBytes` trait (`string()`, `vec_u8()`) lives in a prelude that is
  not part of this model. Text is taken as it is and converted to bytes with
  `as_bytes` (`Client.VecU8`).
- `.leak()` at src/header/method.rs:113 is a memory detail. The leaked string
  is modelled as equal to the `Into<String>` rendering.
- src/header/mod.rs only re-exports the modules. It names an
  `HTTPVersionMatchError` that src/header/version.rs does not define.
- The `TcpListener` test at src/response/server.rs:88-118 is socket I/O and an
  accept loop.
- The client test at src/response/client.rs:137-165 only prints the parse
  and asserts nothing.
- Server.Http: the header map is consumed by value in the source
  (`self.response.header` moved into `map`). In the model the same object is
  kept, with its cursor advanced.
