/** What the parser's specification functions promise beyond their own
    contracts: how a single token is classified, that the parser never looks
    past the closing brace of the top-level mapping, that a mapping never
    holds a key twice, and how typical malformed inputs fail. */
module MemlParserFacts {
  import opened MemlValues
  import opened MemlLexemes
  import opened MemlParser
  import MemlLexer

  // ---------------------------------------------------------------------
  // Scalar classification

  /** A token reads as a keyword exactly when it is an identifier. */
  lemma KeywordIffIdent(t: string)
    ensures ParseValue(t) == Ok(Keyword(t)) <==> IsIdent(t)
  {
    if IsIdent(t) {
      IdentIsNotNumber(t);
      assert !IsPlainQuoted(t) by { assert IsIdentStart(t[0]); }
    }
  }

  /** A quoted token without its own quote inside reads as its interior. */
  lemma QuotedReadsAsInterior(t: string)
    requires IsPlainQuoted(t)
    ensures ParseValue(t) == Ok(Str(t[1..|t| - 1]))
  {
  }

  /** A digit run, optionally after `-`, reads as the integer it denotes;
      leading zeros are accepted. */
  lemma DigitsReadAsInteger(t: string)
    requires IsDigits(Unnegated(t))
    ensures var u := Unnegated(t);
      ParseValue(t) == Ok(Int(if t[0] == '-' then -(DecimalValue(u) as int) else DecimalValue(u) as int))
  {
    var u := Unnegated(t);
    DigitCountAt(u, |u|);
    assert u[..|u|] == u;
    assert !IsPlainQuoted(t) by { assert t[0] == '-' || IsDigit(t[0]); }
    assert (u != t) == (t[0] == '-');
  }

  /** A point number, optionally after `-`, reads as a float with its sign
      and the two digit runs as written. */
  lemma PointNumberReadsAsFloat(t: string, k: nat)
    requires var u := Unnegated(t); 0 < k < |u| && AllDigits(u[..k]) && u[k] == '.' && IsDigits(u[k + 1..])
    ensures var u := Unnegated(t);
      ParseValue(t) == Ok(Float(t[0] == '-', u[..k], u[k + 1..]))
  {
    var u := Unnegated(t);
    DigitCountAt(u, k);
    assert !IsPlainQuoted(t) by {
      assert u[..k][0] == u[0];
      assert t[0] == '-' || IsDigit(t[0]);
    }
    assert (u != t) == (t[0] == '-');
  }

  /** A leading `+` is never accepted: no pattern of scalar coercion allows
      it, although the tokenizer lets numbers carry one. */
  lemma PlusSignRejected(t: string)
    requires |t| > 0 && t[0] == '+'
    ensures ParseValue(t) == Err(InvalidToken(t))
  {
    assert Unnegated(t) == t;
    assert DigitCount(t) == 0;
  }

  /** What the tokenizer emits in value position (anything but a newline or a
      structural character) is accepted by scalar coercion except for two
      kinds: numbers with a `+` sign, and quoted strings holding their own
      quote behind a backslash. */
  lemma LexemeAcceptedUnlessPlusOrEscapedQuote(t: string)
    requires IsLexeme(t) && t != "\n" && !(|t| == 1 && IsStructuralChar(t[0]))
    ensures ParseValue(t).Ok? <==> t[0] != '+' && ((t[0] == '"' || t[0] == '\'') ==> IsPlainQuoted(t))
  {
    if t[0] == '+' {
      PlusSignRejected(t);
    } else if t[0] == '"' || t[0] == '\'' {
      assert !IsIdent(t);
      assert Unnegated(t) == t && DigitCount(t) == 0;
    } else if IsEscapedQuoted(t, '"') || IsEscapedQuoted(t, '\'') {
    } else if IsPointNumber(Unsigned(t)) {
      assert Unsigned(t) == Unnegated(t);
    } else if IsDigits(Unsigned(t)) {
      assert Unsigned(t) == Unnegated(t);
      DigitsReadAsInteger(t);
    } else {
      KeywordIffIdent(t);
    }
  }

  /** Leading zeros are read away, as Python's `int` does. */
  lemma LeadingZerosAccepted()
    ensures ParseValue("007") == Ok(Int(7))
  {
    DigitsReadAsInteger("007");
    assert "007"[..2] == "00" && "00"[..1] == "0" && "0"[..0] == "";
  }

  /** `-0` is the integer zero. */
  lemma NegativeZero()
    ensures ParseValue("-0") == Ok(Int(0))
  {
    DigitsReadAsInteger("-0");
    assert "0"[..0] == "";
  }

  /** A backslash does not shield a quote from scalar coercion: the token
      the tokenizer emits for `"a\"b"` is rejected. */
  lemma EscapedQuoteRejected(q: string)
    requires q == "\"a\\\"b\""
    ensures ParseValue(q) == Err(InvalidToken(q))
  {
    assert q[1..|q| - 1][2] == '"';
    assert !IsPlainQuoted(q);
    assert Unnegated(q) == q && DigitCount(q) == 0;
  }

  // ---------------------------------------------------------------------
  // The parser reads only up to the closing brace

  lemma {:induction false} DictExtends(ts: seq<string>, extra: seq<string>)
    requires DictSpec(ts).Ok?
    ensures DictSpec(ts + extra) == Ok((DictSpec(ts).value.0, DictSpec(ts).value.1 + extra))
    decreases |ts|, 0
  {
    assert (ts + extra)[0] == ts[0] && (ts + extra)[1] == ts[1];
    assert (ts + extra)[2..] == ts[2..] + extra;
    EntriesExtends(ts[2..], [], extra);
  }

  lemma {:induction false} EntriesExtends(ts: seq<string>, acc: seq<Entry>, extra: seq<string>)
    requires EntriesSpec(ts, acc).Ok?
    ensures EntriesSpec(ts + extra, acc) == Ok((EntriesSpec(ts, acc).value.0, EntriesSpec(ts, acc).value.1 + extra))
    decreases |ts|, 1
  {
    assert ts != [];
    assert (ts + extra)[0] == ts[0];
    if Truthy(Head(ts)) && ts[0] != "}" {
      EntryExtends(ts, extra);
      var line := EntrySpec(ts).value;
      EntriesExtends(line.2, Put(acc, line.0, line.1), extra);
    } else {
      assert (ts + extra)[1..] == ts[1..] + extra;
    }
  }

  lemma {:induction false} EntryExtends(ts: seq<string>, extra: seq<string>)
    requires ts != [] && EntrySpec(ts).Ok?
    ensures ts + extra != []
    ensures var line := EntrySpec(ts).value;
      EntrySpec(ts + extra) == Ok((line.0, line.1, line.2 + extra))
    decreases |ts|, 0
  {
    assert (ts + extra)[0] == ts[0];
    assert (ts + extra)[1..] == ts[1..] + extra;
    assert (ts[1..] + extra)[1..] == ts[2..] + extra;
    var p := TupleSpec(ts[2..], LineStops, []).value;
    TupleExtends(ts[2..], LineStops, [], extra);
    assert (p.1 + extra)[0] == p.1[0];
    assert (p.1 + extra)[1..] == p.1[1..] + extra;
  }

  lemma {:induction false} TupleExtends(ts: seq<string>, until: set<Option<string>>, acc: seq<Value>, extra: seq<string>)
    requires TupleSpec(ts, until, acc).Ok? && TupleSpec(ts, until, acc).value.1 != []
    ensures var p := TupleSpec(ts, until, acc).value;
      TupleSpec(ts + extra, until, acc) == Ok((p.0, p.1 + extra))
    decreases |ts|, 2
  {
    assert ts != [];
    assert Head(ts + extra) == Head(ts) by { assert (ts + extra)[0] == ts[0]; }
    if TupleContinues(Head(ts), until) {
      ItemExtends(ts, extra);
      var p := ItemSpec(ts).value;
      TupleExtends(p.1, until, acc + [p.0], extra);
    }
  }

  lemma {:induction false} ItemExtends(ts: seq<string>, extra: seq<string>)
    requires ts != [] && ItemSpec(ts).Ok?
    ensures ts + extra != []
    ensures var p := ItemSpec(ts).value;
      ItemSpec(ts + extra) == Ok((p.0, p.1 + extra))
    decreases |ts|, 1
  {
    assert (ts + extra)[0] == ts[0];
    if ts[0] == "{" {
      DictExtends(ts, extra);
    } else if ts[0] == "[" {
      ListExtends(ts, extra);
    } else {
      assert (ts + extra)[1..] == ts[1..] + extra;
    }
  }

  lemma {:induction false} ListExtends(ts: seq<string>, extra: seq<string>)
    requires ListSpec(ts).Ok?
    ensures ListSpec(ts + extra) == Ok((ListSpec(ts).value.0, ListSpec(ts).value.1 + extra))
    decreases |ts|, 0
  {
    assert (ts + extra)[0] == ts[0] && (ts + extra)[1] == ts[1];
    assert (ts + extra)[2..] == ts[2..] + extra;
    RowsExtends(ts[2..], [], extra);
  }

  lemma {:induction false} RowsExtends(ts: seq<string>, acc: seq<Tuple>, extra: seq<string>)
    requires RowsSpec(ts, acc).Ok?
    ensures RowsSpec(ts + extra, acc) == Ok((RowsSpec(ts, acc).value.0, RowsSpec(ts, acc).value.1 + extra))
    decreases |ts|, 3
  {
    assert ts != [];
    assert (ts + extra)[0] == ts[0];
    if Truthy(Head(ts)) && ts[0] != "]" {
      var p := TupleSpec(ts, LineStops, []).value;
      TupleExtends(ts, LineStops, [], extra);
      assert (p.1 + extra)[0] == p.1[0];
      assert (p.1 + extra)[1..] == p.1[1..] + extra;
      RowsExtends(p.1[1..], acc + [p.0], extra);
    } else {
      assert (ts + extra)[1..] == ts[1..] + extra;
    }
  }

  /** Whatever follows a well-formed top-level mapping is never read. */
  lemma TrailingTokensIgnored(tokens: seq<string>, extra: seq<string>)
    requires ParseDocument(tokens).Ok?
    ensures ParseDocument(tokens + extra) == ParseDocument(tokens)
  {
    DictExtends(tokens, extra);
  }

  // ---------------------------------------------------------------------
  // Keys

  /** The entry loop only ever writes through `Put`, so its keys stay
      unique. */
  lemma {:induction false} EntriesKeepKeysUnique(ts: seq<string>, acc: seq<Entry>)
    requires UniqueKeys(acc) && EntriesSpec(ts, acc).Ok?
    ensures UniqueKeys(EntriesSpec(ts, acc).value.0)
    decreases |ts|
  {
    if Truthy(Head(ts)) && ts[0] != "}" {
      var line := EntrySpec(ts).value;
      PutKeepsKeysUnique(acc, line.0, line.1);
      EntriesKeepKeysUnique(line.2, Put(acc, line.0, line.1));
    }
  }

  /** A parsed mapping never holds a key twice. */
  lemma DictKeysUnique(ts: seq<string>)
    requires DictSpec(ts).Ok?
    ensures UniqueKeys(DictSpec(ts).value.0)
  {
    EntriesKeepKeysUnique(ts[2..], []);
  }

  // ---------------------------------------------------------------------
  // Failures and edge cases

  /** A closing brace or bracket where a value is expected is an invalid
      token: the tuple loop stops only at a newline, a colon or the end. */
  lemma CloserInTupleIsInvalid(ts: seq<string>, acc: seq<Value>, closer: string)
    requires closer == "}" || closer == "]"
    requires ts != [] && ts[0] == closer
    ensures TupleSpec(ts, LineStops, acc) == Err(InvalidToken(closer))
  {
    assert Some(closer) !in LineStops;
    assert !IsPlainQuoted(closer) && !IsIdent(closer);
    assert Unnegated(closer) == closer && DigitCount(closer) == 0;
  }

  /** The smallest mapping: a brace, a newline and a brace. */
  lemma EmptyDict(ts: seq<string>)
    requires ts == ["{", "\n", "}"]
    ensures ParseDocument(ts) == Ok([])
  {
    assert Expect(ts, "{") == Ok(["\n", "}"]);
    assert Expect(["\n", "}"], "\n") == Ok(["}"]);
    assert !Truthy(Head(["}"])) || ["}"][0] == "}";
    assert EntriesSpec(["}"], []) == Ok(([], []));
  }

  /** A line holding one scalar token: the tuple of that one value, stopped
      at the newline. */
  lemma SingleScalarLine(t: string, v: Value, rest: seq<string>)
    requires PlainScalar(t, v)
    ensures TupleSpec([t, "\n"] + rest, LineStops, []) == Ok((Tuple([v]), ["\n"] + rest))
  {
    var ts := [t, "\n"] + rest;
    assert ts[0] == t && ts[1..] == ["\n"] + rest;
    assert Some(t) !in LineStops;
    assert ItemSpec(ts) == Ok((v, ["\n"] + rest));
    assert TupleContinues(Head(ts), LineStops);
    assert TupleSpec(ts, LineStops, []) == TupleSpec(["\n"] + rest, LineStops, [] + [v]);
    assert Head(["\n"] + rest) == Some("\n") && Some("\n") in LineStops;
    assert [] + [v] == [v];
  }

  /** An entry line `k : t` with one scalar token. */
  lemma SingleScalarEntry(k: string, t: string, v: Value, rest: seq<string>)
    requires PlainScalar(t, v)
    ensures EntrySpec([k, ":", t, "\n"] + rest) == Ok((k, Tuple([v]), rest))
  {
    var ts := [k, ":", t, "\n"] + rest;
    assert ts[1..] == [":"] + ([t, "\n"] + rest);
    assert ts[1..][1..] == [t, "\n"] + rest;
    SingleScalarLine(t, v, rest);
    assert (["\n"] + rest)[1..] == rest;
  }

  /** `parse_dict` first consumes `{` and then a newline; whichever is
      missing is reported with the token found in its place. */
  lemma DictOpening(ts: seq<string>)
    ensures (ts == [] || ts[0] != "{") ==> DictSpec(ts) == Err(Mismatch("{", Head(ts)))
    ensures ts != [] && ts[0] == "{" && Head(ts[1..]) != Some("\n") ==>
      DictSpec(ts) == Err(Mismatch("\n", Head(ts[1..])))
    ensures DictSpec(ts).Ok? ==> |ts| > 2 && ts[0] == "{" && ts[1] == "\n"
  {
  }

  /** `parse_list` first consumes `[` and then a newline, reporting the
      missing one in the same way. */
  lemma ListOpening(ts: seq<string>)
    ensures (ts == [] || ts[0] != "[") ==> ListSpec(ts) == Err(Mismatch("[", Head(ts)))
    ensures ts != [] && ts[0] == "[" && Head(ts[1..]) != Some("\n") ==>
      ListSpec(ts) == Err(Mismatch("\n", Head(ts[1..])))
    ensures ListSpec(ts).Ok? ==> |ts| > 2 && ts[0] == "[" && ts[1] == "\n"
  {
  }

  /** The opening of a mapping: `{` and a newline, then the entry loop. */
  lemma DictOpens(body: seq<string>)
    ensures DictSpec(["{", "\n"] + body) == EntriesSpec(body, [])
  {
    var ts := ["{", "\n"] + body;
    assert ts[1..] == ["\n"] + body && (["\n"] + body)[1..] == body;
  }

  /** The opening of a list: `[` and a newline, then the row loop. */
  lemma ListOpens(body: seq<string>)
    ensures ListSpec(["[", "\n"] + body) == RowsSpec(body, [])
  {
    var ts := ["[", "\n"] + body;
    assert ts[1..] == ["\n"] + body && (["\n"] + body)[1..] == body;
  }

  /** One scalar entry line in the entry loop is one `Put`. */
  lemma EntriesScalarLine(k: string, t: string, v: Value, rest: seq<string>, acc: seq<Entry>)
    requires k != "" && k != "}"
    requires PlainScalar(t, v)
    ensures EntriesSpec([k, ":", t, "\n"] + rest, acc) == EntriesSpec(rest, Put(acc, k, Tuple([v])))
  {
    SingleScalarEntry(k, t, v, rest);
  }

  /** A token that scalar coercion accepts and that does not end, open or
      split a line. */
  predicate PlainScalar(t: string, v: Value) {
    t != "" && t != "{" && t != "[" && t != "\n" && t != ":" && ParseValue(t) == Ok(v)
  }

  /** A mapping that is never closed fails on the missing `}`. */
  lemma UnclosedDict(k: string, t: string, v: Value)
    requires k != "" && k != "}" && PlainScalar(t, v)
    ensures ParseDocument(["{", "\n", k, ":", t, "\n"]) == Err(Mismatch("}", None))
  {
    var body := [k, ":", t, "\n"] + [];
    assert ["{", "\n", k, ":", t, "\n"] == ["{", "\n"] + body;
    DictOpens(body);
    EntriesScalarLine(k, t, v, [], []);
  }

  /** An empty line inside a mapping (what a comment on a line of its own
      leaves behind: two newline tokens in a row) is not skipped: the second
      newline is taken as a key, and the entry fails for want of `:`. */
  lemma BlankLineInMappingFails(k: string, t: string, v: Value, rest: seq<string>, acc: seq<Entry>)
    requires k != "" && k != "}" && PlainScalar(t, v)
    requires rest == [] || rest[0] != ":"
    ensures EntriesSpec([k, ":", t, "\n"] + (["\n"] + rest), acc) == Err(Mismatch(":", Head(rest)))
  {
    var ts := ["\n"] + rest;
    EntriesScalarLine(k, t, v, ts, acc);
    assert ts[0] == "\n" && ts[1..] == rest;
  }

  /** The entry loop over two lines with the same key. */
  lemma RepeatedKeyEntries(k: string, t1: string, v1: Value, t2: string, v2: Value)
    requires k != "" && k != "}" && PlainScalar(t1, v1) && PlainScalar(t2, v2)
    ensures EntriesSpec([k, ":", t1, "\n"] + ([k, ":", t2, "\n"] + ["}"]), []) == Ok(([Entry(k, Tuple([v2]))], []))
  {
    var one := [Entry(k, Tuple([v1]))];
    var two := [Entry(k, Tuple([v2]))];
    EntriesScalarLine(k, t1, v1, [k, ":", t2, "\n"] + ["}"], []);
    assert Put([], k, Tuple([v1])) == one;
    EntriesScalarLine(k, t2, v2, ["}"], one);
    assert Put(one, k, Tuple([v2])) == two;
    assert EntriesSpec(["}"], two) == Ok((two, []));
  }

  /** A repeated key keeps the place of its first line, ahead of a key
      first written between its two lines, and takes the last value. */
  lemma RepeatedKeyKeepsItsPlace(k: string, t1: string, v1: Value, k2: string, t2: string, v2: Value, t3: string, v3: Value)
    requires k != "" && k != "}" && k2 != "" && k2 != "}" && k2 != k
    requires PlainScalar(t1, v1) && PlainScalar(t2, v2) && PlainScalar(t3, v3)
    ensures EntriesSpec([k, ":", t1, "\n"] + ([k2, ":", t2, "\n"] + ([k, ":", t3, "\n"] + ["}"])), [])
      == Ok(([Entry(k, Tuple([v3])), Entry(k2, Tuple([v2]))], []))
  {
    var one := [Entry(k, Tuple([v1]))];
    var two := one + [Entry(k2, Tuple([v2]))];
    var three := [Entry(k, Tuple([v3])), Entry(k2, Tuple([v2]))];
    EntriesScalarLine(k, t1, v1, [k2, ":", t2, "\n"] + ([k, ":", t3, "\n"] + ["}"]), []);
    assert Put([], k, Tuple([v1])) == one;
    EntriesScalarLine(k2, t2, v2, [k, ":", t3, "\n"] + ["}"], one);
    assert Put(one, k2, Tuple([v2])) == two;
    EntriesScalarLine(k, t3, v3, ["}"], two);
    assert Put(two, k, Tuple([v3])) == three;
    assert EntriesSpec(["}"], three) == Ok((three, []));
  }

  lemma TwoLineDocument(ts: seq<string>, k: string, t1: string, t2: string)
    requires ts == ["{", "\n", k, ":", t1, "\n", k, ":", t2, "\n", "}"]
    ensures ts == ["{", "\n"] + ([k, ":", t1, "\n"] + ([k, ":", t2, "\n"] + ["}"]))
  {
  }

  /** Two lines for one key give one entry, holding the last value (where
      the key stays is shown by RepeatedKeyKeepsItsPlace). */
  lemma DuplicateKeyLastWins(k: string, t1: string, v1: Value, t2: string, v2: Value, ts: seq<string>)
    requires k != "" && k != "}" && PlainScalar(t1, v1) && PlainScalar(t2, v2)
    requires ts == ["{", "\n", k, ":", t1, "\n", k, ":", t2, "\n", "}"]
    ensures ParseDocument(ts) == Ok([Entry(k, Tuple([v2]))])
  {
    var body := [k, ":", t1, "\n"] + ([k, ":", t2, "\n"] + ["}"]);
    TwoLineDocument(ts, k, t1, t2);
    DictOpens(body);
    RepeatedKeyEntries(k, t1, v1, t2, v2);
  }

  // ---------------------------------------------------------------------
  // The parser on the tokenizer's output

  /** The tokenizer never emits an empty token, so on its output the
      truthiness tests of the entry, tuple and row loops fail only at the
      end of the tokens. */
  lemma TruthyMeansTokensLeft(text: string, n: nat)
    requires n <= |MemlLexer.Lex(text)|
    ensures Truthy(Head(MemlLexer.Lex(text)[n..])) <==> n < |MemlLexer.Lex(text)|
  {
    MemlLexer.TokensAreNonEmpty(text);
    if n < |MemlLexer.Lex(text)| {
      assert MemlLexer.Lex(text)[n] in MemlLexer.Lex(text);
    }
  }

  /** `+5` comes out of the tokenizer as one token, which scalar coercion
      then rejects. */
  lemma PlusNumberLexedThenRejected()
    ensures MemlLexer.Lex("+5") == ["+5"]
    ensures ParseValue("+5") == Err(InvalidToken("+5"))
  {
    MemlLexer.PlusSignedIntIsOneToken();
    PlusSignRejected("+5");
  }

  /** `"a\"b"` comes out of the tokenizer as one token, which scalar
      coercion then rejects. */
  lemma EscapedQuoteLexedThenRejected()
    ensures MemlLexer.Lex("\"a\\\"b\"") == ["\"a\\\"b\""]
    ensures ParseValue("\"a\\\"b\"") == Err(InvalidToken("\"a\\\"b\""))
  {
    MemlLexer.EscapedQuoteIsOneToken();
    EscapedQuoteRejected("\"a\\\"b\"");
  }
}
