/** The recursive-descent parser over a token list. Each parsing routine of
    pyMEML's `Parser` is modelled twice: as a specification function over the
    tokens that remain (returning the parsed value and the tokens left after
    it), and as a method of class `Parser` that advances `pos` step by step,
    as the source does, and is proved to agree with its specification. */
module MemlParser {
  import opened MemlValues
  import opened MemlLexemes

  /** The token at the front of what remains, as `current` returns it. */
  function Head(ts: seq<string>): (c: Option<string>)
    ensures c.None? <==> ts == []
    ensures c.Some? ==> c.value == ts[0]
  {
    if ts == [] then None else Some(ts[0])
  }

  /** Python truthiness of `current()`: neither the end of the tokens nor an
      empty token. */
  predicate Truthy(c: Option<string>) {
    c.Some? && c.value != ""
  }

  /** The stop set every caller of `parse_tuple` passes: a newline or the end
      of the tokens. */
  const LineStops: set<Option<string>> := {Some("\n"), None}

  /** Whether `parse_tuple` reads another value when `c` is current. */
  predicate TupleContinues(c: Option<string>, until: set<Option<string>>) {
    Truthy(c) && c !in until && c != Some(":")
  }

  /** `consume(expected)` with a non-empty `expected`: the current token must
      be `expected`, and then it is consumed. */
  function Expect(ts: seq<string>, expected: string): (r: Result<seq<string>>)
    requires expected != ""
    ensures r.Ok? <==> ts != [] && ts[0] == expected
    ensures r.Ok? ==> r.value == ts[1..]
    ensures r.Err? ==> r.error == Mismatch(expected, Head(ts))
  {
    if Head(ts) == Some(expected) then Ok(ts[1..]) else Err(Mismatch(expected, Head(ts)))
  }

  /** `parse_value`: a quoted string (with no quote of its kind inside) loses
      its quotes, a point number becomes a float, a digit run an integer, an
      identifier a keyword; anything else is an invalid token. Each pattern
      allows only a leading `-`, never `+`. */
  function ParseValue(token: string): (r: Result<Value>)
    ensures r.Ok? ==> r.value.IsScalar()
    ensures r.Err? ==> r.error == InvalidToken(token)
    ensures r.Ok? && r.value.Str? ==> IsPlainQuoted(token) && r.value.text == token[1..|token| - 1]
    ensures r.Ok? && r.value.Keyword? ==> IsIdent(token) && r.value.name == token
    ensures r.Ok? && r.value.Int? ==> IsDigits(Unnegated(token)) && (r.value.n < 0 ==> token[0] == '-')
    ensures r.Ok? && r.value.Float? ==>
      IsPointNumber(Unnegated(token)) && r.value.negative == (token[0] == '-') &&
      Unnegated(token) == r.value.whole + "." + r.value.fraction
    ensures r.Ok? <==>
      IsPlainQuoted(token) || IsPointNumber(Unnegated(token)) || IsDigits(Unnegated(token)) || IsIdent(token)
  {
    var u := Unnegated(token);
    if IsPlainQuoted(token) then Ok(Str(token[1..|token| - 1]))
    else if IsPointNumber(u) then
      var k := DigitCount(u);
      assert u == u[..k] + "." + u[k + 1..];
      Ok(Float(u != token, u[..k], u[k + 1..]))
    else if IsDigits(u) then
      Ok(Int(if u != token then -(DecimalValue(u) as int) else DecimalValue(u) as int))
    else if IsIdent(token) then Ok(Keyword(token))
    else Err(InvalidToken(token))
  }

  /** `parse_dict` on the tokens `ts`: the mapping and the tokens after its
      closing brace. */
  function DictSpec(ts: seq<string>): (r: Result<(seq<Entry>, seq<string>)>)
    ensures r.Ok? ==> |r.value.1| < |ts|
    decreases |ts|, 0
  {
    var ts1 :- Expect(ts, "{");
    var ts2 :- Expect(ts1, "\n");
    EntriesSpec(ts2, [])
  }

  /** The entry loop of `parse_dict`, with `acc` the mapping built so far:
      entry lines until the current token is falsy or `}`, then the closing
      `}`. */
  function EntriesSpec(ts: seq<string>, acc: seq<Entry>): (r: Result<(seq<Entry>, seq<string>)>)
    ensures r.Ok? ==> |r.value.1| < |ts|
    decreases |ts|, 1
  {
    if Truthy(Head(ts)) && ts[0] != "}" then
      var line :- EntrySpec(ts);
      EntriesSpec(line.2, Put(acc, line.0, line.1))
    else
      var rest :- Expect(ts, "}");
      Ok((acc, rest))
  }

  /** One pass of the entry loop: any token as the key, `:`, the tuple up to
      the end of the line, and the newline. */
  function EntrySpec(ts: seq<string>): (r: Result<(string, Tuple, seq<string>)>)
    requires ts != []
    ensures r.Ok? ==> r.value.0 == ts[0] && |r.value.2| < |ts| - 2
    decreases |ts|, 0
  {
    var ts1 :- Expect(ts[1..], ":");
    var p :- TupleSpec(ts1, LineStops, []);
    var ts2 :- Expect(p.1, "\n");
    Ok((ts[0], p.0, ts2))
  }

  /** `parse_tuple(until)`, with `acc` the values read so far: items until the
      current token is falsy, in `until`, or `:`. */
  function TupleSpec(ts: seq<string>, until: set<Option<string>>, acc: seq<Value>): (r: Result<(Tuple, seq<string>)>)
    ensures r.Ok? ==> |r.value.1| <= |ts| && !TupleContinues(Head(r.value.1), until)
    decreases |ts|, 2
  {
    if TupleContinues(Head(ts), until) then
      var p :- ItemSpec(ts);
      TupleSpec(p.1, until, acc + [p.0])
    else
      Ok((Tuple(acc), ts))
  }

  /** One pass of the tuple loop: a `{` or `[` starts a nested mapping or
      list; any other token is one scalar. */
  function ItemSpec(ts: seq<string>): (r: Result<(Value, seq<string>)>)
    requires ts != []
    ensures r.Ok? ==> |r.value.1| < |ts|
    decreases |ts|, 1
  {
    if ts[0] == "{" then
      var d :- DictSpec(ts);
      Ok((Dict(d.0), d.1))
    else if ts[0] == "[" then
      var l :- ListSpec(ts);
      Ok((List(l.0), l.1))
    else
      var v :- ParseValue(ts[0]);
      Ok((v, ts[1..]))
  }

  /** `parse_list` on the tokens `ts`: the rows and the tokens after the
      closing bracket. */
  function ListSpec(ts: seq<string>): (r: Result<(seq<Tuple>, seq<string>)>)
    ensures r.Ok? ==> |r.value.1| < |ts|
    decreases |ts|, 0
  {
    var ts1 :- Expect(ts, "[");
    var ts2 :- Expect(ts1, "\n");
    RowsSpec(ts2, [])
  }

  /** The row loop of `parse_list`, with `acc` the rows read so far: tuples
      each ended by a newline, until the current token is falsy or `]`, then
      the closing `]`. */
  function RowsSpec(ts: seq<string>, acc: seq<Tuple>): (r: Result<(seq<Tuple>, seq<string>)>)
    ensures r.Ok? ==> |r.value.1| < |ts|
    decreases |ts|, 3
  {
    if Truthy(Head(ts)) && ts[0] != "]" then
      var p :- TupleSpec(ts, LineStops, []);
      var ts1 :- Expect(p.1, "\n");
      RowsSpec(ts1, acc + [p.0])
    else
      var rest :- Expect(ts, "]");
      Ok((acc, rest))
  }

  /** `parse()` on a whole token list: the top-level mapping. Tokens after its
      closing brace are not looked at. */
  function ParseDocument(tokens: seq<string>): (r: Result<seq<Entry>>)
    ensures r.Ok? ==> |tokens| > 2 && tokens[0] == "{" && tokens[1] == "\n"
    ensures r.Err? <==> DictSpec(tokens).Err?
    ensures r.Err? ==> r.error == DictSpec(tokens).error
  {
    var p :- DictSpec(tokens);
    Ok(p.0)
  }

  /** The method result `r` and the position it leaves agree with the
      specification's outcome `spec`: the same value and the same remaining
      tokens, or the same error. */
  ghost predicate Agrees<T>(spec: Result<(T, seq<string>)>, r: Result<T>, rest: seq<string>) {
    match spec
    case Ok(p) => r == Ok(p.0) && rest == p.1
    case Err(e) => r == Err(e)
  }

  /** pyMEML's `Parser`: a token list and a cursor into it. */
  class Parser {
    const tokens: seq<string>
    var pos: nat

    constructor (tokens: seq<string>)
      ensures this.tokens == tokens && pos == 0
    {
      this.tokens := tokens;
      pos := 0;
    }

    /** The tokens not yet consumed (none once `pos` has run past the end). */
    ghost function Rest(): seq<string>
      reads this
    {
      if pos <= |tokens| then tokens[pos..] else []
    }

    /** `current`: the token at `pos`, or None past the end. */
    function Current(): (c: Option<string>)
      reads this
      ensures c == Head(Rest())
    {
      if pos < |tokens| then Some(tokens[pos]) else None
    }

    /** `consume(expected)`: a truthy `expected` that is not the current token
        is an error and consumes nothing; otherwise the current token (None at
        the end) is returned and `pos` moves on by one. */
    method Consume(expected: Option<string>) returns (r: Result<Option<string>>)
      modifies this
      ensures var token := old(Current());
        if Truthy(expected) && token != expected then
          r == Err(Mismatch(expected.value, token)) && pos == old(pos)
        else
          r == Ok(token) && pos == old(pos) + 1
    {
      var token := Current();
      if Truthy(expected) && token != expected {
        return Err(Mismatch(expected.value, token));
      }
      pos := pos + 1;
      return Ok(token);
    }

    /** Consuming an expected token is `Expect` on what remains. */
    method ConsumeExpected(expected: string) returns (r: Result<Option<string>>)
      requires expected != ""
      modifies this
      ensures var spec := Expect(old(Rest()), expected);
        if spec.Ok? then r.Ok? && Rest() == spec.value else r == Err(spec.error)
      ensures old(pos) <= pos && (old(pos) <= |tokens| ==> pos <= |tokens|)
    {
      r := Consume(Some(expected));
      if r.Ok? {
        assert old(Rest()) != [];
        assert Rest() == old(Rest())[1..];
      }
    }

    /** `parse`: the top-level mapping. */
    method Parse() returns (r: Result<seq<Entry>>)
      modifies this
      ensures Agrees(DictSpec(old(Rest())), r, Rest())
      ensures old(pos) <= pos && (old(pos) <= |tokens| ==> pos <= |tokens|)
    {
      r := ParseDict();
    }

    /** `parse_dict`. */
    method ParseDict() returns (r: Result<seq<Entry>>)
      modifies this
      ensures Agrees(DictSpec(old(Rest())), r, Rest())
      ensures old(pos) <= pos && (old(pos) <= |tokens| ==> pos <= |tokens|)
      decreases |Rest()|, 0
    {
      ghost var ts := Rest();
      var c := ConsumeExpected("{");
      if c.Err? { return Err(c.error); }
      c := ConsumeExpected("\n");
      if c.Err? { return Err(c.error); }
      var result: seq<Entry> := [];
      while Truthy(Current()) && Current().value != "}"
        invariant |Rest()| < |ts|
        invariant old(pos) <= pos && (old(pos) <= |tokens| ==> pos <= |tokens|)
        invariant DictSpec(ts) == EntriesSpec(Rest(), result)
        decreases |Rest()|
      {
        ghost var here := Rest();
        assert EntriesSpec(here, result) == if EntrySpec(here).Err? then Err(EntrySpec(here).error) else EntriesSpec(EntrySpec(here).value.2, Put(result, EntrySpec(here).value.0, EntrySpec(here).value.1));
        var line := ParseEntry();
        if line.Err? { return Err(line.error); }
        var (key, tuple) := line.value;
        result := Put(result, key, tuple);
      }
      c := ConsumeExpected("}");
      if c.Err? { return Err(c.error); }
      r := Ok(result);
    }

    /** One pass of `parse_dict`'s loop: the key, `:`, the tuple, and the
        newline that ends the line. */
    method ParseEntry() returns (r: Result<(string, Tuple)>)
      requires Rest() != []
      modifies this
      ensures var spec := EntrySpec(old(Rest()));
        if spec.Ok? then r == Ok((spec.value.0, spec.value.1)) && Rest() == spec.value.2
        else r == Err(spec.error)
      ensures old(pos) <= pos && (old(pos) <= |tokens| ==> pos <= |tokens|)
      decreases |Rest()|, 0
    {
      ghost var here := Rest();
      var key := Consume(None);
      assert Rest() == here[1..];
      var c := ConsumeExpected(":");
      if c.Err? { return Err(c.error); }
      var tuple := ParseTuple(LineStops);
      if tuple.Err? { return Err(tuple.error); }
      c := ConsumeExpected("\n");
      if c.Err? { return Err(c.error); }
      r := Ok((key.value.value, tuple.value));
    }

    /** `parse_list`. */
    method ParseList() returns (r: Result<seq<Tuple>>)
      modifies this
      ensures Agrees(ListSpec(old(Rest())), r, Rest())
      ensures old(pos) <= pos && (old(pos) <= |tokens| ==> pos <= |tokens|)
      decreases |Rest()|, 0
    {
      ghost var ts := Rest();
      var c := ConsumeExpected("[");
      if c.Err? { return Err(c.error); }
      c := ConsumeExpected("\n");
      if c.Err? { return Err(c.error); }
      var items: seq<Tuple> := [];
      while Truthy(Current()) && Current().value != "]"
        invariant |Rest()| < |ts|
        invariant old(pos) <= pos && (old(pos) <= |tokens| ==> pos <= |tokens|)
        invariant ListSpec(ts) == RowsSpec(Rest(), items)
        decreases |Rest()|
      {
        ghost var here := Rest();
        var tuple := ParseTuple(LineStops);
        if tuple.Err? { return Err(tuple.error); }
        c := ConsumeExpected("\n");
        if c.Err? { return Err(c.error); }
        items := items + [tuple.value];
        assert |Rest()| < |here|;
      }
      c := ConsumeExpected("]");
      if c.Err? { return Err(c.error); }
      r := Ok(items);
    }

    /** `parse_tuple(until)`. */
    method ParseTuple(until: set<Option<string>>) returns (r: Result<Tuple>)
      modifies this
      ensures Agrees(TupleSpec(old(Rest()), until, []), r, Rest())
      ensures old(pos) <= pos && (old(pos) <= |tokens| ==> pos <= |tokens|)
      decreases |Rest()|, 2
    {
      ghost var ts := Rest();
      var values: seq<Value> := [];
      while TupleContinues(Current(), until)
        invariant |Rest()| <= |ts|
        invariant old(pos) <= pos && (old(pos) <= |tokens| ==> pos <= |tokens|)
        invariant TupleSpec(ts, until, []) == TupleSpec(Rest(), until, values)
        decreases |Rest()|
      {
        ghost var here := Rest();
        ghost var item := ItemSpec(here);
        assert TupleSpec(here, until, values) == if item.Err? then Err(item.error) else TupleSpec(item.value.1, until, values + [item.value.0]);
        var token := Current().value;
        if token == "{" {
          var d := ParseDict();
          if d.Err? { return Err(d.error); }
          values := values + [Dict(d.value)];
        } else if token == "[" {
          var l := ParseList();
          if l.Err? { return Err(l.error); }
          values := values + [List(l.value)];
        } else {
          var v := ParseValue(token);
          if v.Err? { return Err(v.error); }
          values := values + [v.value];
          pos := pos + 1;
          assert Rest() == here[1..];
        }
      }
      r := Ok(Tuple(values));
    }
  }

  /** Building a `Parser` over `tokens` and calling `parse`. */
  method ParseTokens(tokens: seq<string>) returns (r: Result<seq<Entry>>)
    ensures r == ParseDocument(tokens)
  {
    var parser := new Parser(tokens);
    r := parser.Parse();
  }
}
