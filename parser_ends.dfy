/** Where each parsing routine stops: what is left after it is always a
    suffix of what it was given, and a mapping or list that parses has just
    consumed its closing `}` or `]`. It follows that no mapping parses from
    tokens holding no `}`, and no list from tokens holding no `]`. */
module MemlParserEnds {
  import opened MemlValues
  import opened MemlParser

  /** `rest` is what remains of `ts` once a prefix has been consumed. */
  ghost predicate SuffixOf<T>(rest: seq<T>, ts: seq<T>) {
    |rest| <= |ts| && ts[|ts| - |rest|..] == rest
  }

  /** `rest` is what remains of `ts` once a non-empty prefix ending in
      `closer` has been consumed. */
  ghost predicate ClosedBy<T>(rest: seq<T>, ts: seq<T>, closer: T) {
    SuffixOf(rest, ts) && |rest| < |ts| && ts[|ts| - |rest| - 1] == closer
  }

  lemma SuffixOfSuffix<T>(c: seq<T>, b: seq<T>, a: seq<T>)
    requires SuffixOf(c, b) && SuffixOf(b, a)
    ensures SuffixOf(c, a)
  {
    forall i | 0 <= i < |c|
      ensures a[|a| - |c|..][i] == c[i]
    {
      assert a[|a| - |c| + i] == a[|a| - |b|..][|b| - |c| + i];
      assert b[|b| - |c|..][i] == b[|b| - |c| + i];
    }
  }

  lemma ClosedWithin<T>(c: seq<T>, b: seq<T>, a: seq<T>, closer: T)
    requires ClosedBy(c, b, closer) && SuffixOf(b, a)
    ensures ClosedBy(c, a, closer)
  {
    SuffixOfSuffix(c, b, a);
    assert a[|a| - |c| - 1] == a[|a| - |b|..][|b| - |c| - 1];
  }

  lemma DropSuffix<T>(ts: seq<T>, n: nat)
    requires n <= |ts|
    ensures SuffixOf(ts[n..], ts)
    ensures n > 0 ==> ClosedBy(ts[n..], ts, ts[n - 1])
  {
  }

  // The proofs follow the mutual recursion of the specification functions,
  // with the same ranks.

  /** `parse_dict` stops just after a `}`. */
  lemma {:induction false} DictEnds(ts: seq<string>)
    requires DictSpec(ts).Ok?
    ensures ClosedBy(DictSpec(ts).value.1, ts, "}")
    decreases |ts|, 0
  {
    EntriesEnds(ts[2..], []);
    DropSuffix(ts, 2);
    ClosedWithin(DictSpec(ts).value.1, ts[2..], ts, "}");
  }

  lemma {:induction false} EntriesEnds(ts: seq<string>, acc: seq<Entry>)
    requires EntriesSpec(ts, acc).Ok?
    ensures ClosedBy(EntriesSpec(ts, acc).value.1, ts, "}")
    decreases |ts|, 1
  {
    if Truthy(Head(ts)) && ts[0] != "}" {
      var line := EntrySpec(ts).value;
      var next := Put(acc, line.0, line.1);
      assert EntriesSpec(ts, acc) == EntriesSpec(line.2, next);
      EntryEnds(ts);
      EntriesEnds(line.2, next);
      ClosedWithin(EntriesSpec(line.2, next).value.1, line.2, ts, "}");
    } else {
      DropSuffix(ts, 1);
    }
  }

  /** An entry line stops just after its newline. */
  lemma {:induction false} EntryEnds(ts: seq<string>)
    requires ts != [] && EntrySpec(ts).Ok?
    ensures ClosedBy(EntrySpec(ts).value.2, ts, "\n")
    decreases |ts|, 0
  {
    var p := TupleSpec(ts[2..], LineStops, []).value;
    TupleEnds(ts[2..], LineStops, []);
    DropSuffix(p.1, 1);
    ClosedWithin(p.1[1..], p.1, ts[2..], "\n");
    DropSuffix(ts, 2);
    ClosedWithin(p.1[1..], ts[2..], ts, "\n");
  }

  lemma {:induction false} TupleEnds(ts: seq<string>, until: set<Option<string>>, acc: seq<Value>)
    requires TupleSpec(ts, until, acc).Ok?
    ensures SuffixOf(TupleSpec(ts, until, acc).value.1, ts)
    decreases |ts|, 2
  {
    if TupleContinues(Head(ts), until) {
      var p := ItemSpec(ts).value;
      ItemEnds(ts);
      TupleEnds(p.1, until, acc + [p.0]);
      SuffixOfSuffix(TupleSpec(p.1, until, acc + [p.0]).value.1, p.1, ts);
    } else {
      DropSuffix(ts, 0);
    }
  }

  lemma {:induction false} ItemEnds(ts: seq<string>)
    requires ts != [] && ItemSpec(ts).Ok?
    ensures SuffixOf(ItemSpec(ts).value.1, ts)
    decreases |ts|, 1
  {
    if ts[0] == "{" {
      DictEnds(ts);
    } else if ts[0] == "[" {
      ListEnds(ts);
    } else {
      DropSuffix(ts, 1);
    }
  }

  /** `parse_list` stops just after a `]`. */
  lemma {:induction false} ListEnds(ts: seq<string>)
    requires ListSpec(ts).Ok?
    ensures ClosedBy(ListSpec(ts).value.1, ts, "]")
    decreases |ts|, 0
  {
    RowsEnds(ts[2..], []);
    DropSuffix(ts, 2);
    ClosedWithin(ListSpec(ts).value.1, ts[2..], ts, "]");
  }

  lemma {:induction false} RowsEnds(ts: seq<string>, acc: seq<Tuple>)
    requires RowsSpec(ts, acc).Ok?
    ensures ClosedBy(RowsSpec(ts, acc).value.1, ts, "]")
    decreases |ts|, 3
  {
    if Truthy(Head(ts)) && ts[0] != "]" {
      var p := TupleSpec(ts, LineStops, []).value;
      var next := acc + [p.0];
      assert RowsSpec(ts, acc) == RowsSpec(p.1[1..], next);
      TupleEnds(ts, LineStops, []);
      RowsEnds(p.1[1..], next);
      DropSuffix(p.1, 1);
      SuffixOfSuffix(p.1[1..], p.1, ts);
      ClosedWithin(RowsSpec(p.1[1..], next).value.1, p.1[1..], ts, "]");
    } else {
      DropSuffix(ts, 1);
    }
  }

  /** No mapping parses from tokens without a `}`. */
  lemma DictNeedsClosingBrace(ts: seq<string>)
    ensures DictSpec(ts).Ok? ==> "}" in ts
  {
    if DictSpec(ts).Ok? {
      DictEnds(ts);
      var rest := DictSpec(ts).value.1;
      assert ts[|ts| - |rest| - 1] in ts;
    }
  }

  /** No list parses from tokens without a `]`. */
  lemma ListNeedsClosingBracket(ts: seq<string>)
    ensures ListSpec(ts).Ok? ==> "]" in ts
  {
    if ListSpec(ts).Ok? {
      ListEnds(ts);
      var rest := ListSpec(ts).value.1;
      assert ts[|ts| - |rest| - 1] in ts;
    }
  }
}
