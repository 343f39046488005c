/**
  The header collection: a key/value table with one iteration cursor stored
  on the table itself, and the parser that turns one header line into a
  key and a value. This one class stands for both copies the repository
  carries, `HeaderMap` (src/header_map.rs) and `HTTPHeadMap` (src/map.rs);
  the second adds only `current_iter_count_mut` (SetIterCount here).
 */
module HeaderMapping {
  import opened Wrappers
  import opened Text
  import Utf8

  type Entry = (string, string)

  datatype MappingError = UnknownChars | UnknownString | EmptyRaw | EmptyString

  /** The three implementations of `HeaderMappingType`: a byte slice, a
      `String` and a `&str`. */
  datatype MappingInput = Raw(bytes: seq<Utf8.byte>) | Owned(text: string) | Borrowed(str: string)

  // ----- parse_key_value -----

  /** The part every implementation shares once its input is known to be
      non-empty text: the first ':' becomes a space, the result is split on
      whitespace, the first token is the key and the others, glued with no
      separator, the value. */
  function SplitKeyValue(s: string): (r: Result<Entry, MappingError>)
    ensures r.Err? ==> r.error == UnknownString
    ensures r.Ok? ==> r.value.0 != []
  {
    var sp := Tokens(ReplaceFirst(s, ':', ' '));
    TokensAreTokens(ReplaceFirst(s, ':', ' '));
    if |sp| < 2 then Err(UnknownString) else Ok((sp[0], Concat(sp[1..])))
  }

  /** `parse_key_value` for `String` and for `&str` (two identical bodies in
      the source). */
  function ParseText(s: string): (r: Result<Entry, MappingError>)
    ensures r.Err? ==> r.error == if s == [] then EmptyString else UnknownString
    ensures s == [] ==> r.Err?
  {
    if s == [] then Err(EmptyString) else SplitKeyValue(s)
  }

  /** What the text parser returns: EmptyString for empty text, UnknownString
      when fewer than two tokens remain once the first ':' is a space, and
      otherwise a key that is the first token and a value that holds the
      remaining tokens with nothing between them -- both tokens, and together
      exactly the non-whitespace characters of the line. */
  lemma ParseTextSpec(s: string)
    ensures var r := ParseText(s); var t := ReplaceFirst(s, ':', ' ');
      && (r.Err? ==> r.error == if s == [] then EmptyString else UnknownString)
      && (r.Ok? <==> s != [] && |Tokens(t)| >= 2)
      && (r.Ok? ==> && IsToken(r.value.0) && IsToken(r.value.1)
                    && r.value.0 == Tokens(t)[0]
                    && r.value.0 + r.value.1 == RemoveWhitespace(t))
  {
    var t := ReplaceFirst(s, ':', ' ');
    var sp := Tokens(t);
    TokensAreTokens(t);
    if s != [] && |sp| >= 2 {
      ConcatOfTokens(sp[1..]);
      ConcatTokens(t);
      assert Concat(sp) == sp[0] + Concat(sp[1..]);
    }
  }

  /** `parse_key_value` for a byte slice: EmptyRaw for no bytes, UnknownChars
      for bytes that are not UTF-8, and otherwise exactly what the text
      parser says of the decoded text. */
  function ParseRaw(b: seq<Utf8.byte>): (r: Result<Entry, MappingError>)
    ensures b == [] ==> r == Err(EmptyRaw)
    ensures b != [] && !Utf8.IsValid(b) ==> r == Err(UnknownChars)
    ensures b != [] && Utf8.IsValid(b) ==> r == ParseText(Utf8.Decode(b).value)
  {
    if b == [] then Err(EmptyRaw)
    else match Utf8.Decode(b)
      case None => Err(UnknownChars)
      case Some(s) => if s == [] then Err(EmptyString) else SplitKeyValue(s)
  }

  /** The trait method, dispatched on the implementing type. Only the byte
      version can report EmptyRaw (for no bytes) and UnknownChars (for
      bytes that are not UTF-8). */
  function ParseKeyValue(t: MappingInput): (r: Result<Entry, MappingError>)
    ensures r == Err(EmptyRaw) <==> t == Raw([])
    ensures r == Err(UnknownChars) <==> t.Raw? && t.bytes != [] && !Utf8.IsValid(t.bytes)
  {
    match t
    case Raw(b) => ParseRaw(b)
    case Owned(s) => ParseText(s)
    case Borrowed(s) => ParseText(s)
  }

  /** The three implementations agree on any non-empty text (given to the
      byte version as its UTF-8 encoding). */
  lemma ParseKeyValueAgree(s: string)
    requires s != []
    ensures ParseKeyValue(Raw(Utf8.Encode(s))) == ParseKeyValue(Owned(s))
    ensures ParseKeyValue(Owned(s)) == ParseKeyValue(Borrowed(s))
  {
    Utf8.DecodeEncode(s);
    assert Utf8.Encode(s) != [] by {
      assert Utf8.Encode(s) == Utf8.EncodeChar(s[0]) + Utf8.Encode(s[1..]);
    }
  }

  /** A line "key:rest", with a key free of whitespace and ':', parses to that
      key and to the rest with all its whitespace removed (the value loses
      any inner spaces), provided the rest has some non-whitespace. */
  lemma {:induction false} ParseColonLine(k: string, w: string)
    requires IsToken(k) && ':' !in k
    requires RemoveWhitespace(w) != []
    ensures ParseText(k + ":" + w) == Ok((k, RemoveWhitespace(w)))
  {
    var s := k + ":" + w;
    assert IndexOf(s, ':') == |k| by {
      assert s[|k|] == ':';
      assert forall j :: 0 <= j < |k| ==> s[j] == k[j];
      IndexOfAt(s, ':', |k|);
    }
    var t := ReplaceFirst(s, ':', ' ');
    ReplaceFirstSpec(s, ':', ' ');
    assert t == k + [' '] + w by {
      assert s[..|k|] == k;
      assert s[|k| + 1..] == w;
    }
    TokensAfterWord(k, ' ', w);
    ConcatTokens(w);
    var sp := Tokens(t);
    assert sp[1..] == Tokens(w);
    assert |Tokens(w)| >= 1;
  }

  /** The `key:value` form the server writes parses back to the same pair
      when the value has no whitespace. */
  lemma ParseRenderedPair(k: string, v: string)
    requires IsToken(k) && ':' !in k && IsToken(v)
    ensures ParseText(k + ":" + v) == Ok((k, v))
  {
    RemoveWhitespaceOfNoWhitespace(v);
    ParseColonLine(k, v);
  }

  /** The usual "key: value" form, with one space after the colon. */
  lemma ParseSpacedPair(k: string, v: string)
    requires IsToken(k) && ':' !in k && IsToken(v)
    ensures ParseText(k + ": " + v) == Ok((k, v))
  {
    var w := " " + v;
    assert k + ": " + v == k + ":" + w;
    assert w[1..] == v;
    RemoveWhitespaceOfNoWhitespace(v);
    assert RemoveWhitespace(w) == v;
    ParseColonLine(k, w);
  }

  /** A single word without ':' is not a header line: it is one token. */
  lemma ParseOneWord(w: string)
    requires IsToken(w) && ':' !in w
    ensures ParseText(w) == Err(UnknownString)
  {
    IndexOfAt(w, ':', |w|);
    ReplaceFirstSpec(w, ':', ' ');
    assert ReplaceFirst(w, ':', ' ') == w;
    TokensOfToken(w);
  }

  /** Lines that give each error. */
  lemma ParseErrors()
    ensures ParseText("") == Err(EmptyString)
    ensures ParseRaw([]) == Err(EmptyRaw)
    ensures ParseRaw([0xFF]) == Err(UnknownChars)
    ensures ParseText("Host") == Err(UnknownString)
  {
    assert Utf8.DecodeStep([0xFF]) == Utf8.Bad(1);
    var t := ReplaceFirst("Host", ':', ' ');
    assert t == "Host";
    assert WordLen(t) == 4;
    assert t[4..] == [];
  }

  // ----- the table and its iteration order -----

  function Lookup(m: map<string, string>, k: string): Option<string> {
    if k in m then Some(m[k]) else None
  }

  /** `order` lists every key of `table` exactly once: the order in which the
      `HashMap` hands out its entries. Which listing it is is not specified. */
  ghost predicate Enumerates(order: seq<string>, table: map<string, string>) {
    && (forall i, j :: 0 <= i < j < |order| ==> order[i] != order[j])
    && (forall i :: 0 <= i < |order| ==> order[i] in table)
    && (forall k :: k in table ==> k in order)
  }

  /** The entries one traversal visits, in iteration order. */
  function EntriesOf(order: seq<string>, table: map<string, string>): (es: seq<Entry>)
    requires forall i :: 0 <= i < |order| ==> order[i] in table
    ensures |es| == |order|
    ensures forall i :: 0 <= i < |order| ==> es[i] == (order[i], table[order[i]])
  {
    if order == [] then [] else [(order[0], table[order[0]])] + EntriesOf(order[1..], table)
  }

  /** A listing of the keys is exactly as long as the table. */
  lemma {:induction false} EnumerationSize(order: seq<string>, table: map<string, string>)
    requires Enumerates(order, table)
    ensures |order| == |table|
  {
    if order == [] {
      assert table.Keys == {};
    } else {
      var k := order[0];
      var rest := table - {k};
      assert Enumerates(order[1..], rest) by {
        forall i | 0 <= i < |order| - 1 ensures order[1..][i] in rest {
          assert order[i + 1] != order[0];
        }
        forall k' | k' in rest ensures k' in order[1..] {
          var i :| 0 <= i < |order| && order[i] == k';
          assert i != 0;
          assert order[1..][i - 1] == k';
        }
      }
      EnumerationSize(order[1..], rest);
      assert rest.Keys == table.Keys - {k};
    }
  }

  /** One traversal visits every entry of the table exactly once: as many
      entries as the table has, each one of its pairs, no key twice. */
  lemma EntriesAreTheTable(order: seq<string>, table: map<string, string>)
    requires Enumerates(order, table)
    ensures var es := EntriesOf(order, table);
      && |es| == |table|
      && (forall i :: 0 <= i < |es| ==> es[i].0 in table && table[es[i].0] == es[i].1)
      && (forall i, j :: 0 <= i < j < |es| ==> es[i].0 != es[j].0)
      && (forall k :: k in table ==> exists i :: 0 <= i < |es| && es[i] == (k, table[k]))
  {
    EnumerationSize(order, table);
    var es := EntriesOf(order, table);
    forall k | k in table ensures exists i :: 0 <= i < |es| && es[i] == (k, table[k]) {
      var i :| 0 <= i < |order| && order[i] == k;
      assert es[i] == (k, table[k]);
    }
  }

  lemma EnumeratesInsert(order: seq<string>, table: map<string, string>, k: string, v: string)
    requires Enumerates(order, table)
    ensures Enumerates(if k in table then order else order + [k], table[k := v])
  {
  }

  function Position(order: seq<string>, k: string): (i: nat)
    requires k in order
    ensures i < |order| && order[i] == k
  {
    if order[0] == k then 0 else 1 + Position(order[1..], k)
  }

  /** The position in `order` that index `j` of `order` with index `i`
      removed comes from. */
  function Shift(j: nat, i: nat): nat {
    if j < i then j else j + 1
  }

  /** Removing index `i`: every other element keeps its relative place. */
  lemma RemoveAt(order: seq<string>, i: nat)
    requires i < |order|
    ensures var o := order[..i] + order[i + 1..];
      && |o| == |order| - 1
      && (forall j :: 0 <= j < |o| ==> o[j] == order[Shift(j, i)])
  {
    var o := order[..i] + order[i + 1..];
    forall j | 0 <= j < |o| ensures o[j] == order[Shift(j, i)] {
    }
  }

  lemma EnumeratesRemove(order: seq<string>, table: map<string, string>, k: string)
    requires Enumerates(order, table) && k in table
    ensures var i := Position(order, k); Enumerates(order[..i] + order[i + 1..], table - {k})
  {
    var i := Position(order, k);
    var o := order[..i] + order[i + 1..];
    RemoveAt(order, i);
    forall a, b | 0 <= a < b < |o| ensures o[a] != o[b] {
      assert o[a] == order[Shift(a, i)] && o[b] == order[Shift(b, i)];
      assert Shift(a, i) < Shift(b, i) < |order|;
    }
    forall j | 0 <= j < |o| ensures o[j] in table - {k} {
      assert o[j] == order[Shift(j, i)] && Shift(j, i) != i;
      assert order[Shift(j, i)] != order[i];
    }
    forall k' | k' in table - {k} ensures k' in o {
      var j :| 0 <= j < |order| && order[j] == k';
      assert j != i;
      if j < i {
        assert Shift(j, i) == j;
        assert o[j] == k';
      } else {
        assert Shift(j - 1, i) == j;
        assert o[j - 1] == k';
      }
    }
  }

  // ----- the cursor protocol of Iterator::next -----

  /** `Iterator::nth` on the table's entries. */
  function Nth(es: seq<Entry>, i: nat): (r: Option<Entry>)
    ensures r.Some? <==> i < |es|
    ensures r.Some? ==> r.value in es
  {
    if i < |es| then Some(es[i]) else None
  }

  /** One call of `next`: what it returns and where it leaves the cursor.
      From None it starts at 0; from Some(k) past the end it returns None and
      resets the cursor to None. */
  function Step(cursor: Option<nat>, es: seq<Entry>): (r: (Option<Entry>, Option<nat>))
    ensures r.0.Some? ==> r.0.value in es && Distance(r.1, |es|) < Distance(cursor, |es|)
    ensures r.0.None? ==> r.1 == if cursor.None? then Some(1) else None
  {
    match cursor
    case None => (Nth(es, 0), Some(1))
    case Some(k) => if k >= |es| then (None, None) else (Nth(es, k), Some(k + 1))
  }

  /** How far a cursor is from the end; it drops with every call that
      returns an entry. */
  function Distance(cursor: Option<nat>, n: nat): nat {
    match cursor
    case None => n + 1
    case Some(k) => if k <= n then n - k else 0
  }

  /** Calling `next` until it returns None, as `collect` does: the entries
      returned, and the cursor left behind. */
  function Collect(cursor: Option<nat>, es: seq<Entry>): (r: (seq<Entry>, Option<nat>))
    ensures |r.0| <= Distance(cursor, |es|)
    ensures r.1 != None ==> cursor == None && es == [] && r.1 == Some(1)
    decreases Distance(cursor, |es|)
  {
    var (r, c) := Step(cursor, es);
    if r.None? then ([], c)
    else
      var (rest, last) := Collect(c, es);
      ([r.value] + rest, last)
  }

  /** A traversal started from a reset cursor returns every entry, in order,
      and resets the cursor again -- except on an empty table, where the one
      call leaves the cursor at Some(1). */
  lemma CollectFromNone(es: seq<Entry>)
    ensures Collect(None, es) == (es, if es == [] then Some(1) else None)
  {
    if es != [] {
      CollectFromSome(1, es);
      assert [es[0]] + es[1..] == es;
    }
  }

  /** A traversal resumed at Some(k) returns the entries from position k on
      (none when k is past the end) and resets the cursor. */
  lemma {:induction false} CollectFromSome(k: nat, es: seq<Entry>)
    ensures Collect(Some(k), es) == (es[if k <= |es| then k else |es|..], None)
    decreases |es| - k
  {
    if k < |es| {
      assert Step(Some(k), es) == (Some(es[k]), Some(k + 1));
      CollectFromSome(k + 1, es);
      assert Collect(Some(k), es).0 == [es[k]] + es[k + 1..];
      assert [es[k]] + es[k + 1..] == es[k..];
    } else {
      assert Step(Some(k), es) == (None, None);
      assert es[|es|..] == [];
    }
  }

  /** Starting from None on a table of n > 0 entries, n calls return the n
      entries in turn, the cursor then stands at Some(n), and the next call
      returns None and resets it. */
  lemma {:induction false} StepSequence(es: seq<Entry>, i: nat)
    requires 0 < |es| && i < |es|
    ensures Step(if i == 0 then None else Some(i), es) == (Some(es[i]), Some(i + 1))
    ensures Step(Some(|es|), es) == (None, None)
  {
  }

  /** On an empty table the first call from None returns None but leaves the
      cursor at Some(1), and only the call after that resets it. */
  lemma StepEmpty()
    ensures Step(None, []) == (None, Some(1))
    ensures Step(Some(1), []) == (None, None)
  {
  }

  // ----- the map object -----

  class HeaderMap {
    var table: map<string, string>
    /** The order the underlying hash table iterates in. */
    var order: seq<string>
    /** `iter_count`, the cursor of the one traversal the map supports. */
    var iterCount: Option<nat>

    ghost predicate Valid()
      reads this
    {
      Enumerates(order, table)
    }

    /** The entries, in iteration order. */
    function Entries(): seq<Entry>
      reads this
      requires Valid()
    {
      EntriesOf(order, table)
    }

    /** `new` / `default`: an empty table, cursor None. */
    constructor ()
      ensures Valid() && table == map[] && iterCount == None
    {
      table := map[];
      order := [];
      iterCount := None;
    }

    /** `insert`: returns the value the key had, if any; afterwards the key
        maps to `v` and every other key is as before. The cursor is left
        alone, and nothing is promised about the new iteration order. */
    method Insert(k: string, v: string) returns (prev: Option<string>)
      requires Valid()
      modifies this
      ensures Valid()
      ensures prev == Lookup(old(table), k)
      ensures table == old(table)[k := v]
      ensures iterCount == old(iterCount)
    {
      EnumeratesInsert(order, table, k, v);
      prev := Lookup(table, k);
      if k !in table {
        order := order + [k];
      }
      table := table[k := v];
    }

    /** `insert_tuple`: `insert` of the pair's two halves. */
    method InsertTuple(t: Entry) returns (prev: Option<string>)
      requires Valid()
      modifies this
      ensures Valid()
      ensures prev == Lookup(old(table), t.0)
      ensures table == old(table)[t.0 := t.1]
      ensures iterCount == old(iterCount)
    {
      prev := Insert(t.0, t.1);
    }

    /** `remove`: returns the value stored under `k`, if any; afterwards `k`
        is absent and every other key is as before. */
    method Remove(k: string) returns (prev: Option<string>)
      requires Valid()
      modifies this
      ensures Valid()
      ensures prev == Lookup(old(table), k)
      ensures table == old(table) - {k}
      ensures iterCount == old(iterCount)
    {
      prev := Lookup(table, k);
      if k in table {
        EnumeratesRemove(order, table, k);
        var i := Position(order, k);
        order := order[..i] + order[i + 1..];
        table := table - {k};
      }
    }

    /** `current_iter_count` */
    function CurrentIterCount(): Option<nat>
      reads this
    {
      iterCount
    }

    /** `current_iter_count_mut` (src/map.rs only): sets the cursor and
        touches nothing else. */
    method SetIterCount(value: Option<nat>)
      modifies this`iterCount
      ensures iterCount == value
      ensures table == old(table) && order == old(order)
    {
      iterCount := value;
    }

    /** `len`: the number of keys, which is the number of entries one
        traversal visits. */
    function Len(): (n: nat)
      reads this
      requires Valid()
      ensures n == |Entries()|
    {
      EnumerationSize(order, table);
      |table|
    }

    /** `is_empty`: holds exactly when the table has no key. */
    function IsEmpty(): (b: bool)
      reads this
      requires Valid()
      ensures b <==> table == map[]
    {
      Len() == 0
    }

    /** `Iterator::next`: one step of the cursor protocol (Step); the table
        and its order do not change. */
    method Next() returns (r: Option<Entry>)
      requires Valid()
      modifies this`iterCount
      ensures Valid() && table == old(table) && order == old(order)
      ensures (r, iterCount) == Step(old(iterCount), Entries())
    {
      var isNone := iterCount.None?;
      if isNone {
        iterCount := Some(0);
      } else if iterCount.value >= |table| {
        iterCount := None;
        EnumerationSize(order, table);
        return None;
      }
      var offset := iterCount.value;
      iterCount := Some(offset + 1);
      EnumerationSize(order, table);
      r := Nth(Entries(), offset);
    }

    /** `try_insert`: on a parse error returns it and changes nothing;
        otherwise it is `insert` of the parsed pair. */
    method TryInsert(t: MappingInput) returns (r: Result<Option<string>, MappingError>)
      requires Valid()
      modifies this
      ensures Valid() && iterCount == old(iterCount)
      ensures ParseKeyValue(t).Err? ==>
        r == Err(ParseKeyValue(t).error) && table == old(table) && order == old(order)
      ensures ParseKeyValue(t).Ok? ==>
        var (k, v) := ParseKeyValue(t).value;
        r == Ok(Lookup(old(table), k)) && table == old(table)[k := v]
    {
      var parsed := ParseKeyValue(t);
      if parsed.Err? {
        return Err(parsed.error);
      }
      var prev := InsertTuple(parsed.value);
      r := Ok(prev);
    }
  }
}
