/**
  The string operations of Rust's standard library that the codec relies on:
  `char::is_whitespace`, `str::split_whitespace`, `str::trim`, `str::lines`,
  `str::replacen` with a count of 1, `[&str]::concat` and the decimal
  formatting of an unsigned integer.
 */
module Text {

  /** `char::is_whitespace`: the Unicode White_Space property. */
  predicate IsWhitespace(c: char) {
    ('\t' <= c <= '\r') || c == ' ' || c == '\U{85}' || c == '\U{A0}' || c == '\U{1680}'
    || ('\U{2000}' <= c <= '\U{200A}') || c == '\U{2028}' || c == '\U{2029}'
    || c == '\U{202F}' || c == '\U{205F}' || c == '\U{3000}'
  }

  predicate NoWhitespace(s: string) {
    forall i :: 0 <= i < |s| ==> !IsWhitespace(s[i])
  }

  /** What `split_whitespace` yields: a non-empty run without whitespace. */
  predicate IsToken(s: string) {
    s != [] && NoWhitespace(s)
  }

  /** The length of the leading run of non-whitespace characters. */
  function WordLen(s: string): (n: nat)
    ensures n <= |s|
  {
    if s == [] || IsWhitespace(s[0]) then 0 else 1 + WordLen(s[1..])
  }

  /** The run is free of whitespace and stops at whitespace or the end. */
  lemma {:induction false} WordLenSpec(s: string)
    ensures NoWhitespace(s[..WordLen(s)])
    ensures WordLen(s) == |s| || IsWhitespace(s[WordLen(s)])
  {
    if s != [] && !IsWhitespace(s[0]) {
      var t := s[1..];
      WordLenSpec(t);
      var n := WordLen(t);
      assert s[..n + 1] == [s[0]] + t[..n];
      assert n < |t| ==> s[n + 1] == t[n];
    }
  }

  /** `str::split_whitespace`, collected. */
  function Tokens(s: string): (ts: seq<string>)
    ensures |ts| <= |s|
    decreases |s|
  {
    if s == [] then []
    else if IsWhitespace(s[0]) then Tokens(s[1..])
    else var n := WordLen(s); [s[..n]] + Tokens(s[n..])
  }

  /** Every piece `split_whitespace` yields is a token. */
  lemma {:induction false} TokensAreTokens(s: string)
    ensures forall i :: 0 <= i < |Tokens(s)| ==> IsToken(Tokens(s)[i])
    decreases |s|
  {
    if s == [] {
    } else if IsWhitespace(s[0]) {
      TokensAreTokens(s[1..]);
    } else {
      var n := WordLen(s);
      WordLenSpec(s);
      TokensAreTokens(s[n..]);
      assert Tokens(s) == [s[..n]] + Tokens(s[n..]);
    }
  }

  /** `[&str]::concat` (equivalently `join("")`). */
  function Concat(ss: seq<string>): (r: string)
    ensures ss != [] ==> |ss[0]| <= |r| && r[..|ss[0]|] == ss[0]
  {
    if ss == [] then [] else ss[0] + Concat(ss[1..])
  }

  /** The characters of `s` that are not whitespace, in order. */
  function RemoveWhitespace(s: string): string {
    if s == [] then []
    else if IsWhitespace(s[0]) then RemoveWhitespace(s[1..])
    else [s[0]] + RemoveWhitespace(s[1..])
  }

  lemma {:induction false} ConcatAppend(a: seq<string>, b: seq<string>)
    ensures Concat(a + b) == Concat(a) + Concat(b)
  {
    if a == [] {
      assert a + b == b;
    } else {
      assert (a + b)[1..] == a[1..] + b;
      ConcatAppend(a[1..], b);
    }
  }

  lemma {:induction false} RemoveWhitespaceAppend(a: string, b: string)
    ensures RemoveWhitespace(a + b) == RemoveWhitespace(a) + RemoveWhitespace(b)
  {
    if a == [] {
      assert a + b == b;
    } else {
      assert (a + b)[1..] == a[1..] + b;
      RemoveWhitespaceAppend(a[1..], b);
    }
  }

  lemma {:induction false} RemoveWhitespaceOfNoWhitespace(s: string)
    requires NoWhitespace(s)
    ensures RemoveWhitespace(s) == s
  {
    if s != [] {
      RemoveWhitespaceOfNoWhitespace(s[1..]);
      assert [s[0]] + s[1..] == s;
    }
  }

  lemma {:induction false} RemoveWhitespaceHasNone(s: string)
    ensures NoWhitespace(RemoveWhitespace(s))
  {
    if s != [] {
      RemoveWhitespaceHasNone(s[1..]);
    }
  }

  /** Gluing the tokens back together with no separator gives exactly the
      non-whitespace characters of the input: split_whitespace followed by
      concat drops every whitespace character and nothing else. */
  lemma {:induction false} ConcatTokens(s: string)
    ensures Concat(Tokens(s)) == RemoveWhitespace(s)
    decreases |s|
  {
    if s == [] {
    } else if IsWhitespace(s[0]) {
      ConcatTokens(s[1..]);
    } else {
      var n := WordLen(s);
      WordLenSpec(s);
      ConcatTokens(s[n..]);
      assert s == s[..n] + s[n..];
      RemoveWhitespaceAppend(s[..n], s[n..]);
      RemoveWhitespaceOfNoWhitespace(s[..n]);
    }
  }

  /** A non-empty run of tokens concatenates to a token. */
  lemma {:induction false} ConcatOfTokens(ts: seq<string>)
    requires |ts| > 0 && forall i :: 0 <= i < |ts| ==> IsToken(ts[i])
    ensures IsToken(Concat(ts))
  {
    if |ts| > 1 {
      ConcatOfTokens(ts[1..]);
      var a, b := ts[0], Concat(ts[1..]);
      assert forall i :: 0 <= i < |a + b| ==> (a + b)[i] == if i < |a| then a[i] else b[i - |a|];
    } else {
      assert Concat(ts) == ts[0] + Concat([]);
    }
  }

  lemma {:induction false} WordLenOfToken(k: string, rest: string)
    requires NoWhitespace(k)
    requires rest == [] || IsWhitespace(rest[0])
    ensures WordLen(k + rest) == |k|
  {
    if k != [] {
      assert (k + rest)[1..] == k[1..] + rest;
      WordLenOfToken(k[1..], rest);
    } else {
      assert k + rest == rest;
    }
  }

  /** A lone token is its own one-element split. */
  lemma TokensOfToken(k: string)
    requires IsToken(k)
    ensures Tokens(k) == [k]
  {
    WordLenOfToken(k, []);
    assert k + [] == k;
    assert k[|k|..] == [];
  }

  /** A token followed by a whitespace character is split off as the first
      token, whatever comes after. */
  lemma TokensAfterWord(k: string, c: char, w: string)
    requires IsToken(k) && IsWhitespace(c)
    ensures Tokens(k + [c] + w) == [k] + Tokens(w)
  {
    var s := k + [c] + w;
    WordLenOfToken(k, [c] + w);
    assert s == k + ([c] + w);
    assert s[..|k|] == k;
    assert s[|k|..] == [c] + w;
    assert ([c] + w)[1..] == w;
  }

  /** `str::trim_start` */
  function TrimStart(s: string): (r: string)
    ensures |r| <= |s|
  {
    if s != [] && IsWhitespace(s[0]) then TrimStart(s[1..]) else s
  }

  /** `str::trim_end` */
  function TrimEnd(s: string): (r: string)
    ensures |r| <= |s|
  {
    if s != [] && IsWhitespace(s[|s| - 1]) then TrimEnd(s[..|s| - 1]) else s
  }

  /** `str::trim` */
  function Trim(s: string): (r: string)
    ensures |r| <= |s|
    ensures r == [] || (!IsWhitespace(r[0]) && !IsWhitespace(r[|r| - 1]))
  {
    TrimStartSpec(s);
    TrimEndSpec(TrimStart(s));
    TrimEnd(TrimStart(s))
  }

  /** `trim_start` removes the leading whitespace and nothing else. */
  lemma {:induction false} TrimStartSpec(s: string)
    ensures var r := TrimStart(s);
      && |r| <= |s| && r == s[|s| - |r|..]
      && (r == [] || !IsWhitespace(r[0]))
      && (forall i :: 0 <= i < |s| - |r| ==> IsWhitespace(s[i]))
  {
    if s != [] && IsWhitespace(s[0]) {
      TrimStartSpec(s[1..]);
      var r := TrimStart(s[1..]);
      assert s[1..][|s| - 1 - |r|..] == s[|s| - |r|..];
      assert forall i :: 1 <= i < |s| - |r| ==> s[i] == s[1..][i - 1];
    }
  }

  /** `trim_end` removes the trailing whitespace and nothing else. */
  lemma {:induction false} TrimEndSpec(s: string)
    ensures var r := TrimEnd(s);
      && |r| <= |s| && r == s[..|r|]
      && (r == [] || !IsWhitespace(r[|r| - 1]))
      && (forall i :: |r| <= i < |s| ==> IsWhitespace(s[i]))
  {
    if s != [] && IsWhitespace(s[|s| - 1]) {
      TrimEndSpec(s[..|s| - 1]);
      var r := TrimEnd(s[..|s| - 1]);
      assert s[..|s| - 1][..|r|] == s[..|r|];
      assert forall i :: |r| <= i < |s| - 1 ==> s[i] == s[..|s| - 1][i];
    }
  }

  /** `trim` keeps the part of the input between its leading and its
      trailing whitespace: the result starts and ends with a character that
      is not whitespace, and everything cut off on either side is. */
  lemma TrimSpec(s: string)
    ensures var a := |s| - |TrimStart(s)|; var r := Trim(s);
      && a + |r| <= |s| && r == s[a..a + |r|]
      && (r == [] || (!IsWhitespace(r[0]) && !IsWhitespace(r[|r| - 1])))
      && (forall i :: 0 <= i < a ==> IsWhitespace(s[i]))
      && (forall i :: a + |r| <= i < |s| ==> IsWhitespace(s[i]))
  {
    var t := TrimStart(s);
    TrimStartSpec(s);
    TrimEndSpec(t);
    var a := |s| - |t|;
    var r := Trim(s);
    assert r == t[..|r|];
    assert t[..|r|] == s[a..a + |r|];
    assert r != [] ==> r[0] == t[0];
    assert forall i :: a + |r| <= i < |s| ==> s[i] == t[i - a];
  }

  lemma TrimOfTrimmed(s: string)
    requires s == [] || (!IsWhitespace(s[0]) && !IsWhitespace(s[|s| - 1]))
    ensures Trim(s) == s
  {
  }

  /** The position of the first `c` in `s`, or |s| when there is none. */
  function IndexOf(s: string, c: char): (i: nat)
    ensures i <= |s|
  {
    if s == [] then 0 else if s[0] == c then 0 else 1 + IndexOf(s[1..], c)
  }

  /** The index is the first occurrence of `c`, if there is one, and it is
      the only index with that property. */
  lemma {:induction false} IndexOfSpec(s: string, c: char)
    ensures var i := IndexOf(s, c);
      && (i < |s| ==> s[i] == c)
      && (forall j :: 0 <= j < i ==> s[j] != c)
  {
    if s != [] && s[0] != c {
      IndexOfSpec(s[1..], c);
      assert forall j :: 1 <= j < IndexOf(s, c) ==> s[j] == s[1..][j - 1];
    }
  }

  lemma IndexOfAt(s: string, c: char, i: nat)
    requires i <= |s| && (i < |s| ==> s[i] == c)
    requires forall j :: 0 <= j < i ==> s[j] != c
    ensures IndexOf(s, c) == i
  {
    IndexOfSpec(s, c);
  }

  /** `str::replacen(a, b, 1)` for single characters: the first `a`, if any,
      becomes `b` and nothing else changes. */
  function ReplaceFirst(s: string, a: char, b: char): (r: string)
    ensures |r| == |s|
  {
    if s == [] then []
    else if s[0] == a then [b] + s[1..]
    else [s[0]] + ReplaceFirst(s[1..], a, b)
  }

  /** Only the first `a` is replaced. */
  lemma {:induction false} ReplaceFirstSpec(s: string, a: char, b: char)
    ensures var i := IndexOf(s, a);
      ReplaceFirst(s, a, b) == if i == |s| then s else s[..i] + [b] + s[i + 1..]
  {
    if s != [] && s[0] != a {
      ReplaceFirstSpec(s[1..], a, b);
      var i := IndexOf(s[1..], a);
      if i < |s| - 1 {
        assert [s[0]] + (s[1..][..i] + [b] + s[1..][i + 1..]) == s[..i + 1] + [b] + s[i + 2..];
      } else {
        assert [s[0]] + s[1..] == s;
      }
    }
  }

  /** One line as `str::lines` yields it: the terminator "\n" or "\r\n" removed. */
  function StripCr(l: string): string {
    if l != [] && l[|l| - 1] == '\r' then l[..|l| - 1] else l
  }

  /** `str::lines`, collected: split after each '\n', drop the '\n' and a '\r'
      right before it. A final line without '\n' is kept as it is, and a final
      "\n" does not start an extra empty line. */
  function Lines(s: string): (ls: seq<string>)
    ensures s == [] <==> ls == []
    decreases |s|
  {
    if s == [] then []
    else
      var i := IndexOf(s, '\n');
      if i == |s| then [s]
      else [StripCr(s[..i])] + Lines(s[i + 1..])
  }

  /** No line keeps a '\n'. */
  lemma {:induction false} LinesNoNewline(s: string)
    ensures forall i :: 0 <= i < |Lines(s)| ==> '\n' !in Lines(s)[i]
    decreases |s|
  {
    if s != [] {
      var i := IndexOf(s, '\n');
      IndexOfSpec(s, '\n');
      if i < |s| {
        LinesNoNewline(s[i + 1..]);
        var l := s[..i];
        assert '\n' !in l by {
          assert forall j :: 0 <= j < |l| ==> l[j] == s[j];
        }
        assert StripCr(l) == l || StripCr(l) == l[..|l| - 1];
        assert forall c :: c in StripCr(l) ==> c in l;
      } else {
        assert forall j :: 0 <= j < |s| ==> s[j] != '\n';
      }
    }
  }

  /** A line ended by "\r\n" is yielded without its terminator. */
  lemma LinesCrLf(l: string, rest: string)
    requires '\n' !in l
    ensures Lines(l + "\r\n" + rest) == [l] + Lines(rest)
  {
    var s := l + "\r\n" + rest;
    assert IndexOf(s, '\n') == |l| + 1 by {
      assert s[|l| + 1] == '\n';
      assert forall j :: 0 <= j < |l| + 1 ==> s[j] != '\n' by {
        assert forall j :: 0 <= j < |l| ==> s[j] == l[j];
      }
      IndexOfAt(s, '\n', |l| + 1);
    }
    assert s[..|l| + 1] == l + "\r";
    assert (l + "\r")[..|l|] == l;
    assert s[|l| + 2..] == rest;
  }

  /** Lines each ended by "\r\n", as a peer writes them. */
  function CrLfJoin(ls: seq<string>): string {
    if ls == [] then [] else ls[0] + "\r\n" + CrLfJoin(ls[1..])
  }

  lemma ConsAppend<T>(a: seq<T>, b: seq<T>)
    requires a != []
    ensures [a[0]] + (a[1..] + b) == a + b
  {
    assert a == [a[0]] + a[1..];
  }

  lemma ConsParts<T>(a: seq<T>, x: T, rest: seq<T>)
    requires a == [x] + rest
    ensures a[0] == x && a[1..] == rest
  {
  }

  lemma LinesOfCrLfJoinCons(ls: seq<string>, last: string)
    requires ls != [] && '\n' !in ls[0]
    requires Lines(CrLfJoin(ls[1..]) + last) == ls[1..] + Lines(last)
    ensures Lines(CrLfJoin(ls) + last) == ls + Lines(last)
  {
    var tail := CrLfJoin(ls[1..]) + last;
    assert CrLfJoin(ls) + last == ls[0] + "\r\n" + tail;
    LinesCrLf(ls[0], tail);
    ConsAppend(ls, Lines(last));
  }

  /** `str::lines` gives back every line written with a "\r\n" terminator,
      followed by the lines of whatever comes after them. */
  lemma {:induction false} LinesOfCrLfJoin(ls: seq<string>, last: string)
    requires forall i :: 0 <= i < |ls| ==> '\n' !in ls[i]
    ensures Lines(CrLfJoin(ls) + last) == ls + Lines(last)
  {
    if ls == [] {
      assert CrLfJoin(ls) + last == last;
    } else {
      LinesOfCrLfJoin(ls[1..], last);
      LinesOfCrLfJoinCons(ls, last);
    }
  }

  /** The last line, with no terminator, is yielded whole. */
  lemma LinesLast(l: string)
    requires l != [] && '\n' !in l
    ensures Lines(l) == [l]
  {
    IndexOfAt(l, '\n', |l|);
  }

  function DigitChar(d: nat): char
    requires d < 10
  {
    (48 + d) as char
  }

  predicate IsDigits(s: string) {
    forall i :: 0 <= i < |s| ==> '0' <= s[i] <= '9'
  }

  /** `format!("{}", n)` for an unsigned integer: decimal, no leading zeros. */
  function Decimal(n: nat): (s: string)
    ensures s != [] && IsDigits(s)
    ensures |s| > 1 ==> s[0] != '0'
  {
    if n < 10 then [DigitChar(n)] else Decimal(n / 10) + [DigitChar(n % 10)]
  }

  /** The number a string of digits spells. */
  function DecimalValue(s: string): nat
    requires IsDigits(s)
  {
    if s == [] then 0 else DecimalValue(s[..|s| - 1]) * 10 + (s[|s| - 1] as int - 48)
  }

  /** Reading the decimal rendering back gives the number: the rendering is
      injective. */
  lemma {:induction false} DecimalValueOfDecimal(n: nat)
    ensures DecimalValue(Decimal(n)) == n
  {
    if n >= 10 {
      DecimalValueOfDecimal(n / 10);
      var s := Decimal(n);
      assert s[..|s| - 1] == Decimal(n / 10);
    }
  }
}
