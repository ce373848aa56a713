/** The value model of the configuration format: the scalars and containers a
    parse produces, the two error kinds, and the insertion-ordered dictionary
    that a mapping is built into. */
module MemlValues {

  datatype Option<+T> = None | Some(value: T)

  /** The two ways a parse fails: an expected structural token was not the one
      present (or the stream had ended), or a token could not be read as a
      scalar. */
  datatype ParseError =
    | Mismatch(expected: string, actual: Option<string>)
    | InvalidToken(token: string)

  datatype Result<+T> = Ok(value: T) | Err(error: ParseError) {
    predicate IsFailure() { Err? }

    function PropagateFailure<U>(): Result<U>
      requires Err?
    {
      Err(error)
    }

    function Extract(): T
      requires Ok?
    {
      value
    }
  }

  /** A parsed value. A keyword is a bare identifier, kept apart from a quoted
      string of the same text. A float keeps its sign and its two digit runs
      as written, rather than an IEEE double. */
  datatype Value =
    | Str(text: string)
    | Int(n: int)
    | Float(negative: bool, whole: string, fraction: string)
    | Keyword(name: string)
    | Dict(entries: seq<Entry>)
    | List(rows: seq<Tuple>)
  {
    predicate IsScalar() { Str? || Int? || Float? || Keyword? }
  }

  /** Everything written after a `:` or on one list row: zero or more values. */
  datatype Tuple = Tuple(items: seq<Value>)

  /** One `key: tuple` line of a mapping. */
  datatype Entry = Entry(key: string, tuple: Tuple)

  /** The keys of a mapping, in iteration (insertion) order. */
  function Keys(es: seq<Entry>): (ks: seq<string>)
    ensures |ks| == |es|
    ensures forall i :: 0 <= i < |es| ==> ks[i] == es[i].key
  {
    if es == [] then [] else [es[0].key] + Keys(es[1..])
  }

  predicate UniqueKeys(es: seq<Entry>) {
    forall i, j :: 0 <= i < j < |es| ==> es[i].key != es[j].key
  }

  /** The tuple stored under key `k`, as a dictionary lookup sees it. */
  function Lookup(es: seq<Entry>, k: string): (r: Option<Tuple>)
    ensures r.None? <==> k !in Keys(es)
  {
    if es == [] then None
    else if es[0].key == k then Some(es[0].tuple)
    else Lookup(es[1..], k)
  }

  /** `result[k] = t` on a Python dict: an existing key gets the new tuple and
      keeps its place, a new key is appended at the end. */
  function Put(es: seq<Entry>, k: string, t: Tuple): (r: seq<Entry>)
    ensures Keys(r) == if k in Keys(es) then Keys(es) else Keys(es) + [k]
  {
    if es == [] then [Entry(k, t)]
    else if es[0].key == k then [Entry(k, t)] + es[1..]
    else [es[0]] + Put(es[1..], k, t)
  }

  /** After `Put`, the key reads back the new tuple and every other key reads
      what it read before. */
  lemma {:induction false} PutLookup(es: seq<Entry>, k: string, t: Tuple, k': string)
    ensures Lookup(Put(es, k, t), k') == if k' == k then Some(t) else Lookup(es, k')
  {
    if es != [] && es[0].key != k {
      PutLookup(es[1..], k, t, k');
      assert Put(es, k, t)[1..] == Put(es[1..], k, t);
    }
  }

  /** Writing a key never creates a duplicate: the keys of a dict built by
      `Put` stay unique. */
  lemma {:induction false} PutKeepsKeysUnique(es: seq<Entry>, k: string, t: Tuple)
    requires UniqueKeys(es)
    ensures UniqueKeys(Put(es, k, t))
    ensures |Put(es, k, t)| == if k in Keys(es) then |es| else |es| + 1
  {
    var r := Put(es, k, t);
    var ks := Keys(r);
    assert |ks| == |r|;
    forall i, j | 0 <= i < j < |r| ensures r[i].key != r[j].key {
      assert ks[i] == r[i].key && ks[j] == r[j].key;
      if k in Keys(es) {
        assert Keys(es)[i] == es[i].key && Keys(es)[j] == es[j].key;
      } else {
        if j < |es| {
          assert Keys(es)[i] == es[i].key && Keys(es)[j] == es[j].key;
        } else {
          assert ks[j] == k;
          assert Keys(es)[i] == es[i].key;
          assert ks[i] in Keys(es);
        }
      }
    }
  }

  /** Overwriting keeps every other entry where and what it was. */
  lemma {:induction false} PutOverwritesInPlace(es: seq<Entry>, i: nat, k: string, t: Tuple)
    requires UniqueKeys(es)
    requires i < |es| && es[i].key == k
    ensures Put(es, k, t) == es[i := Entry(k, t)]
  {
    if i > 0 {
      assert es[0].key != k;
      PutOverwritesInPlace(es[1..], i - 1, k, t);
      assert es[1..][i - 1 := Entry(k, t)] == es[i := Entry(k, t)][1..];
    }
  }

  /** A new key goes to the end and nothing before it moves. */
  lemma {:induction false} PutAppendsNewKey(es: seq<Entry>, k: string, t: Tuple)
    requires k !in Keys(es)
    ensures Put(es, k, t) == es + [Entry(k, t)]
  {
    if es != [] {
      assert Keys(es) == [es[0].key] + Keys(es[1..]);
      assert es[0].key != k && k !in Keys(es[1..]);
      assert Put(es, k, t) == [es[0]] + Put(es[1..], k, t);
      PutAppendsNewKey(es[1..], k, t);
      assert [es[0]] + (es[1..] + [Entry(k, t)]) == es + [Entry(k, t)];
    }
  }
}
