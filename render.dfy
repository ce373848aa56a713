/** A renderer from values back to the token list the parser reads, used as
    the parser's reference: every well-formed value, rendered and parsed
    again, comes back unchanged, with whatever tokens follow left unread. */
module MemlRender {
  import opened MemlValues
  import opened MemlLexemes
  import opened MemlParser
  import opened MemlParserFacts

  /** The values the format can write down: a string that does not hold
      both kinds of quote (it is rendered between double quotes, or between
      single quotes when it holds a double one), a float whose two digit runs
      are non-empty, a keyword that is an identifier, and mappings whose keys
      are unique and can head an entry line (not empty, not `}`). */
  predicate WFValue(v: Value)
    decreases v
  {
    match v
    case Str(text) => '"' !in text || '\'' !in text
    case Int(_) => true
    case Float(_, whole, fraction) => IsDigits(whole) && IsDigits(fraction)
    case Keyword(name) => IsIdent(name)
    case Dict(es) => UniqueKeys(es) && WFEntries(es)
    case List(rows) => WFRows(rows)
  }

  predicate WFItems(items: seq<Value>)
    decreases items
  {
    items == [] || (WFValue(items[0]) && WFItems(items[1..]))
  }

  predicate WFEntries(es: seq<Entry>)
    decreases es
  {
    es == [] || (es[0].key != "" && es[0].key != "}" && WFItems(es[0].tuple.items) && WFEntries(es[1..]))
  }

  predicate WFRows(rows: seq<Tuple>)
    decreases rows
  {
    rows == [] || (WFItems(rows[0].items) && WFRows(rows[1..]))
  }

  /** The one token of a scalar. */
  function ScalarToken(v: Value): string
    requires v.IsScalar()
  {
    match v
    case Str(text) => if '"' !in text then "\"" + text + "\"" else "'" + text + "'"
    case Int(n) => if n < 0 then "-" + DecimalString(-n) else DecimalString(n)
    case Float(negative, whole, fraction) => (if negative then "-" else "") + whole + "." + fraction
    case Keyword(name) => name
  }

  function ValueTokens(v: Value): seq<string>
    decreases v
  {
    match v
    case Dict(es) => ["{", "\n"] + EntriesTokens(es) + ["}"]
    case List(rows) => ["[", "\n"] + RowsTokens(rows) + ["]"]
    case _ => [ScalarToken(v)]
  }

  /** The values of a tuple, one after another. */
  function ItemsTokens(items: seq<Value>): seq<string>
    decreases items
  {
    if items == [] then [] else ValueTokens(items[0]) + ItemsTokens(items[1..])
  }

  /** One `key : tuple` line per entry. */
  function EntriesTokens(es: seq<Entry>): seq<string>
    decreases es
  {
    if es == [] then [] else [es[0].key, ":"] + ItemsTokens(es[0].tuple.items) + ["\n"] + EntriesTokens(es[1..])
  }

  /** One line per row. */
  function RowsTokens(rows: seq<Tuple>): seq<string>
    decreases rows
  {
    if rows == [] then [] else ItemsTokens(rows[0].items) + ["\n"] + RowsTokens(rows[1..])
  }

  /** A document: the top-level mapping. */
  function DocumentTokens(es: seq<Entry>): seq<string> {
    ValueTokens(Dict(es))
  }

  /** A token that can start a value inside a tuple: the tuple loop goes on
      at it and neither loop around it takes it for a closer. */
  predicate OpensItem(t: string) {
    t != "" && t != "\n" && t != ":" && t != "}" && t != "]"
  }

  lemma StrRoundTrip(text: string)
    requires '"' !in text || '\'' !in text
    ensures ParseValue(ScalarToken(Str(text))) == Ok(Str(text))
  {
    var t := ScalarToken(Str(text));
    assert t[1..|t| - 1] == text;
    QuotedReadsAsInterior(t);
  }

  lemma IntRoundTrip(n: int)
    ensures ParseValue(ScalarToken(Int(n))) == Ok(Int(n))
    ensures ScalarToken(Int(n))[0] == '-' || IsDigit(ScalarToken(Int(n))[0])
  {
    var t := ScalarToken(Int(n));
    var s := DecimalString(if n < 0 then -n else n);
    DecimalStringValue(if n < 0 then -n else n);
    if n < 0 {
      assert t == "-" + s && Unnegated(t) == s;
    } else {
      assert t == s && Unnegated(t) == s;
    }
    DigitsReadAsInteger(t);
  }

  lemma FloatRoundTrip(negative: bool, whole: string, fraction: string)
    requires IsDigits(whole) && IsDigits(fraction)
    ensures ParseValue(ScalarToken(Float(negative, whole, fraction))) == Ok(Float(negative, whole, fraction))
    ensures var t := ScalarToken(Float(negative, whole, fraction)); t[0] == '-' || IsDigit(t[0])
  {
    var t := ScalarToken(Float(negative, whole, fraction));
    var u := whole + "." + fraction;
    assert Unnegated(t) == u by {
      if negative { assert t == "-" + u; } else { assert t == u && u[0] == whole[0]; }
    }
    assert u[..|whole|] == whole && u[|whole|] == '.' && u[|whole| + 1..] == fraction;
    assert (t[0] == '-') == negative by { if !negative { assert t[0] == whole[0]; } }
    PointNumberReadsAsFloat(t, |whole|);
  }

  /** Scalar coercion reads a rendered scalar back as the same value. */
  lemma ScalarRoundTrip(v: Value)
    requires v.IsScalar() && WFValue(v)
    ensures ParseValue(ScalarToken(v)) == Ok(v)
    ensures OpensItem(ScalarToken(v)) && ScalarToken(v) != "{" && ScalarToken(v) != "["
  {
    match v
    case Str(text) => StrRoundTrip(text);
    case Int(n) => IntRoundTrip(n);
    case Float(negative, whole, fraction) => FloatRoundTrip(negative, whole, fraction);
    case Keyword(name) => KeywordIffIdent(name);
  }

  /** Every scalar that coercion returns can be written down again. */
  lemma ParsedScalarIsWellFormed(t: string)
    requires ParseValue(t).Ok?
    ensures WFValue(ParseValue(t).value)
  {
    var u := Unnegated(t);
    if !IsPlainQuoted(t) && IsPointNumber(u) {
      var k := DigitCount(u);
      assert ParseValue(t).value == Float(u != t, u[..k], u[k + 1..]);
    }
  }

  /** The first token of a rendered value opens an item. */
  lemma FirstToken(v: Value)
    requires WFValue(v)
    ensures ValueTokens(v) != [] && OpensItem(ValueTokens(v)[0])
  {
    if v.IsScalar() {
      ScalarRoundTrip(v);
    }
  }

  /** A rendered value is read back by one pass of the tuple loop, and the
      tokens after it are left as they were. */
  lemma {:induction false} ValueRoundTrip(v: Value, rest: seq<string>)
    requires WFValue(v)
    ensures ValueTokens(v) + rest != []
    ensures ItemSpec(ValueTokens(v) + rest) == Ok((v, rest))
    decreases v
  {
    var ts := ValueTokens(v) + rest;
    match v
    case Dict(es) =>
      var body := EntriesTokens(es) + (["}"] + rest);
      assert ts == ["{", "\n"] + body;
      DictOpens(body);
      EntriesRoundTrip(es, [], rest);
      assert [] + es == es;
    case List(rows) =>
      var body := RowsTokens(rows) + (["]"] + rest);
      assert ts == ["[", "\n"] + body;
      ListOpens(body);
      RowsRoundTrip(rows, [], rest);
      assert [] + rows == rows;
    case _ =>
      ScalarRoundTrip(v);
      assert ts[0] == ScalarToken(v) && ts[1..] == rest;
  }

  /** One pass of the tuple loop over rendered values reads the first. */
  lemma {:induction false} ItemStep(items: seq<Value>, acc: seq<Value>, rest: seq<string>)
    requires items != [] && WFItems(items)
    ensures TupleSpec(ItemsTokens(items) + rest, LineStops, acc) == TupleSpec(ItemsTokens(items[1..]) + rest, LineStops, acc + [items[0]])
    decreases items, 0
  {
    var tail := ItemsTokens(items[1..]) + rest;
    var ts := ValueTokens(items[0]) + tail;
    assert ItemsTokens(items) + rest == ts;
    FirstToken(items[0]);
    assert ts[0] == ValueTokens(items[0])[0];
    assert Some(ts[0]) !in LineStops;
    ValueRoundTrip(items[0], tail);
  }

  /** The values of a tuple, rendered and followed by a token that stops the
      tuple loop, are read back in order. */
  lemma {:induction false} ItemsRoundTrip(items: seq<Value>, acc: seq<Value>, rest: seq<string>)
    requires WFItems(items) && !TupleContinues(Head(rest), LineStops)
    ensures TupleSpec(ItemsTokens(items) + rest, LineStops, acc) == Ok((Tuple(acc + items), rest))
    decreases items, 1
  {
    if items == [] {
      assert ItemsTokens(items) + rest == rest;
      assert acc + items == acc;
    } else {
      ItemStep(items, acc, rest);
      ItemsRoundTrip(items[1..], acc + [items[0]], rest);
      ShiftFirst(acc, items);
    }
  }

  /** One rendered entry line is read back as that entry. */
  lemma {:induction false} EntryLineRoundTrip(e: Entry, tail: seq<string>)
    requires WFItems(e.tuple.items)
    ensures EntrySpec([e.key, ":"] + ItemsTokens(e.tuple.items) + ["\n"] + tail) == Ok((e.key, e.tuple, tail))
    decreases e
  {
    var line := ItemsTokens(e.tuple.items) + (["\n"] + tail);
    var ts := [e.key, ":"] + line;
    assert [e.key, ":"] + ItemsTokens(e.tuple.items) + ["\n"] + tail == ts;
    assert ts[1..] == [":"] + line && ts[1..][1..] == line;
    ItemsRoundTrip(e.tuple.items, [], ["\n"] + tail);
    assert [] + e.tuple.items == e.tuple.items;
    assert (["\n"] + tail)[1..] == tail;
  }

  lemma ShiftFirst<T>(a: seq<T>, b: seq<T>)
    requires b != []
    ensures a + [b[0]] + b[1..] == a + b
  {
    assert [b[0]] + b[1..] == b;
  }

  /** While the entries are read back in order, the next key is new to the
      mapping built so far, ... */
  lemma NextKeyNotIn(es: seq<Entry>, acc: seq<Entry>)
    requires es != [] && UniqueKeys(acc + es)
    ensures es[0].key !in Keys(acc)
  {
    forall i | 0 <= i < |acc| ensures Keys(acc)[i] != es[0].key {
      assert (acc + es)[i] == acc[i];
      assert (acc + es)[|acc|] == es[0];
    }
  }

  /** ... so `Put` appends it. */
  lemma NextKeyIsNew(es: seq<Entry>, acc: seq<Entry>)
    requires es != [] && es[0].key !in Keys(acc)
    ensures Put(acc, es[0].key, es[0].tuple) == acc + [es[0]]
  {
    PutAppendsNewKey(acc, es[0].key, es[0].tuple);
  }

  /** Rendered entries, followed by the closing brace, extend the mapping
      built so far in order: each key is new, so each `Put` appends. */
  lemma {:induction false} EntriesRoundTrip(es: seq<Entry>, acc: seq<Entry>, rest: seq<string>)
    requires WFEntries(es) && UniqueKeys(acc + es)
    ensures EntriesSpec(EntriesTokens(es) + (["}"] + rest), acc) == Ok((acc + es, rest))
    decreases es
  {
    if es == [] {
      assert EntriesTokens(es) + (["}"] + rest) == ["}"] + rest;
      assert acc + es == acc;
    } else {
      var e := es[0];
      var tail := EntriesTokens(es[1..]) + (["}"] + rest);
      var ts := [e.key, ":"] + ItemsTokens(e.tuple.items) + ["\n"] + tail;
      assert EntriesTokens(es) + (["}"] + rest) == ts;
      EntryLineRoundTrip(e, tail);
      NextKeyNotIn(es, acc);
      NextKeyIsNew(es, acc);
      ShiftFirst(acc, es);
      EntriesRoundTrip(es[1..], acc + [e], rest);
    }
  }

  /** One rendered row line is one pass of the row loop. */
  lemma {:induction false} RowLineRoundTrip(row: Tuple, tail: seq<string>, acc: seq<Tuple>)
    requires WFItems(row.items)
    ensures RowsSpec(ItemsTokens(row.items) + (["\n"] + tail), acc) == RowsSpec(tail, acc + [row])
    decreases row
  {
    var items := row.items;
    var ts := ItemsTokens(items) + (["\n"] + tail);
    assert ts != [] && ts[0] != "" && ts[0] != "]" by {
      if items != [] {
        FirstToken(items[0]);
        assert ts[0] == ValueTokens(items[0])[0];
      }
    }
    ItemsRoundTrip(items, [], ["\n"] + tail);
    assert Tuple([] + items) == row;
    assert (["\n"] + tail)[1..] == tail;
  }

  /** Rendered rows, followed by the closing bracket, extend the rows read so
      far in order. */
  lemma {:induction false} RowsRoundTrip(rows: seq<Tuple>, acc: seq<Tuple>, rest: seq<string>)
    requires WFRows(rows)
    ensures RowsSpec(RowsTokens(rows) + (["]"] + rest), acc) == Ok((acc + rows, rest))
    decreases rows
  {
    if rows == [] {
      assert RowsTokens(rows) + (["]"] + rest) == ["]"] + rest;
      assert acc + rows == acc;
    } else {
      var tail := RowsTokens(rows[1..]) + (["]"] + rest);
      assert RowsTokens(rows) + (["]"] + rest) == ItemsTokens(rows[0].items) + (["\n"] + tail);
      RowLineRoundTrip(rows[0], tail, acc);
      RowsRoundTrip(rows[1..], acc + [rows[0]], rest);
      ShiftFirst(acc, rows);
    }
  }

  /** Parsing inverts rendering: a well-formed document comes back as it
      was, whatever follows it. */
  lemma DocumentRoundTrip(es: seq<Entry>, rest: seq<string>)
    requires WFValue(Dict(es))
    ensures ParseDocument(DocumentTokens(es) + rest) == Ok(es)
  {
    ValueRoundTrip(Dict(es), rest);
  }
}
