/** The tokenizer: an ordered-choice scanner equivalent to pyMEML's token
    regular expression, and `Tokenize`, the loop that collects the non-comment
    matches. At each position the scanner tries, in order, a whitespace run
    cut back to its last newline, then (after blanks) a comment, a structural
    character, a double- or single-quoted string, a float, an integer and an
    identifier. Where nothing matches, scanning resumes one character on, so
    that character is dropped. */
module MemlLexer {
  import opened MemlValues
  import opened MemlLexemes

  /** The end of the maximal run of `[ \t\n]` starting at `i`. */
  function SpaceRunEnd(text: string, i: nat): (j: nat)
    requires i <= |text|
    ensures i <= j <= |text|
    decreases |text| - i
  {
    if i < |text| && IsSpace(text[i]) then SpaceRunEnd(text, i + 1) else i
  }

  /** The end of the maximal run of `[ \t]` starting at `i`. */
  function BlankRunEnd(text: string, i: nat): (j: nat)
    requires i <= |text|
    ensures i <= j <= |text|
    decreases |text| - i
  {
    if i < |text| && IsBlank(text[i]) then BlankRunEnd(text, i + 1) else i
  }

  /** The end of the maximal run of digits starting at `i`. */
  function DigitRunEnd(text: string, i: nat): (j: nat)
    requires i <= |text|
    ensures i <= j <= |text|
    decreases |text| - i
  {
    if i < |text| && IsDigit(text[i]) then DigitRunEnd(text, i + 1) else i
  }

  /** The end of the maximal run of identifier characters starting at `i`. */
  function IdentRunEnd(text: string, i: nat): (j: nat)
    requires i <= |text|
    ensures i <= j <= |text|
    decreases |text| - i
  {
    if i < |text| && IsIdentChar(text[i]) then IdentRunEnd(text, i + 1) else i
  }

  /** The position of the next newline at or after `i`, or the end of text. */
  function LineEnd(text: string, i: nat): (j: nat)
    requires i <= |text|
    ensures i <= j <= |text|
    decreases |text| - i
  {
    if i < |text| && text[i] != '\n' then LineEnd(text, i + 1) else i
  }

  /** The last newline in `text[i..j]`, if there is one. */
  function LastNewline(text: string, i: nat, j: nat): (r: Option<nat>)
    requires i <= j <= |text|
    ensures r.Some? ==> i <= r.value < j && text[r.value] == '\n'
    decreases j - i
  {
    if i == j then None
    else if text[j - 1] == '\n' then Some(j - 1)
    else LastNewline(text, i, j - 1)
  }

  /* The run-end functions promise only their bounds; what holds along and
     after each run is a lemma of its own, used where a proof needs it. */

  lemma {:induction false} SpaceRunEndFacts(text: string, i: nat)
    requires i <= |text|
    ensures var j := SpaceRunEnd(text, i);
      && (forall k :: i <= k < j ==> IsSpace(text[k]))
      && (j == |text| || !IsSpace(text[j]))
    decreases |text| - i
  {
    if i < |text| && IsSpace(text[i]) { SpaceRunEndFacts(text, i + 1); }
  }

  lemma {:induction false} BlankRunEndFacts(text: string, i: nat)
    requires i <= |text|
    ensures var j := BlankRunEnd(text, i);
      && (forall k :: i <= k < j ==> IsBlank(text[k]))
      && (j == |text| || !IsBlank(text[j]))
    decreases |text| - i
  {
    if i < |text| && IsBlank(text[i]) { BlankRunEndFacts(text, i + 1); }
  }

  lemma {:induction false} DigitRunEndFacts(text: string, i: nat)
    requires i <= |text|
    ensures var j := DigitRunEnd(text, i);
      && (forall k :: i <= k < j ==> IsDigit(text[k]))
      && (j == |text| || !IsDigit(text[j]))
    decreases |text| - i
  {
    if i < |text| && IsDigit(text[i]) { DigitRunEndFacts(text, i + 1); }
  }

  lemma {:induction false} IdentRunEndFacts(text: string, i: nat)
    requires i <= |text|
    ensures var j := IdentRunEnd(text, i);
      && (forall k :: i <= k < j ==> IsIdentChar(text[k]))
      && (j == |text| || !IsIdentChar(text[j]))
    decreases |text| - i
  {
    if i < |text| && IsIdentChar(text[i]) { IdentRunEndFacts(text, i + 1); }
  }

  lemma {:induction false} LineEndFacts(text: string, i: nat)
    requires i <= |text|
    ensures var j := LineEnd(text, i);
      && (forall k :: i <= k < j ==> text[k] != '\n')
      && (j == |text| || text[j] == '\n')
    decreases |text| - i
  {
    if i < |text| && text[i] != '\n' { LineEndFacts(text, i + 1); }
  }

  lemma {:induction false} LastNewlineFacts(text: string, i: nat, j: nat)
    requires i <= j <= |text|
    ensures var r := LastNewline(text, i, j);
      && (r.Some? ==> forall k :: r.value < k < j ==> text[k] != '\n')
      && (r.None? ==> forall k :: i <= k < j ==> text[k] != '\n')
    decreases j - i
  {
    if i < j && text[j - 1] != '\n' { LastNewlineFacts(text, i, j - 1); }
  }

  /** Scans the interior of a string quoted with `q` from `i`; yields the
      position just past the closing quote, or None when the string is not
      closed (end of text, or a backslash before a newline or at the end). */
  function StringEnd(text: string, i: nat, q: char): (r: Option<nat>)
    requires i <= |text|
    ensures r.Some? ==> i < r.value <= |text| && text[r.value - 1] == q
    decreases |text| - i
  {
    if i == |text| then None
    else if text[i] == q then Some(i + 1)
    else if text[i] == '\\' then
      if i + 1 < |text| && text[i + 1] != '\n' then StringEnd(text, i + 2, q) else None
    else StringEnd(text, i + 1, q)
  }

  /** What `StringEnd` steps over is an escaped string body. */
  lemma {:induction false} StringEndFacts(text: string, i: nat, q: char)
    requires i <= |text| && StringEnd(text, i, q).Some?
    ensures EscapedBody(text[i..StringEnd(text, i, q).value - 1], q)
    decreases |text| - i
  {
    var e := StringEnd(text, i, q).value;
    if text[i] == q {
    } else if text[i] == '\\' {
      StringEndFacts(text, i + 2, q);
      assert text[i..e - 1][2..] == text[i + 2..e - 1];
    } else {
      StringEndFacts(text, i + 1, q);
      assert text[i..e - 1][1..] == text[i + 1..e - 1];
    }
  }

  /** The position after an optional `+` or `-` at `s`. */
  function SignEnd(text: string, s: nat): (d: nat)
    requires s <= |text|
    ensures s <= d <= |text| && d <= s + 1
    ensures d == s + 1 <==> s < |text| && (text[s] == '+' || text[s] == '-')
  {
    if s < |text| && (text[s] == '+' || text[s] == '-') then s + 1 else s
  }

  /** `[-+]?\d+\.\d+` at `s`. */
  function FloatEnd(text: string, s: nat): (r: Option<nat>)
    requires s <= |text|
    ensures r.Some? ==> s < r.value <= |text|
  {
    var d := SignEnd(text, s);
    var p := DigitRunEnd(text, d);
    if p > d && p < |text| && text[p] == '.' then
      var e := DigitRunEnd(text, p + 1);
      if e > p + 1 then Some(e) else None
    else None
  }

  /** `[-+]?\d+` at `s`. */
  function IntEnd(text: string, s: nat): (r: Option<nat>)
    requires s <= |text|
    ensures r.Some? ==> s < r.value <= |text|
  {
    var d := SignEnd(text, s);
    var e := DigitRunEnd(text, d);
    if e > d then Some(e) else None
  }

  /** The second alternative of the token expression at `s` (blanks already
      skipped): the end of the captured group, trying comment, structural
      character, quoted strings, float, integer and identifier in order. */
  function GroupEnd(text: string, s: nat): (r: Option<nat>)
    requires s <= |text|
    ensures r.Some? ==> s < r.value <= |text|
  {
    if s == |text| then None
    else if text[s] == '#' then Some(LineEnd(text, s + 1))
    else if IsStructuralChar(text[s]) then Some(s + 1)
    else if text[s] == '"' && StringEnd(text, s + 1, '"').Some? then StringEnd(text, s + 1, '"')
    else if text[s] == '\'' && StringEnd(text, s + 1, '\'').Some? then StringEnd(text, s + 1, '\'')
    else if FloatEnd(text, s).Some? then FloatEnd(text, s)
    else if IntEnd(text, s).Some? then IntEnd(text, s)
    else if IsIdentStart(text[s]) then Some(IdentRunEnd(text, s + 1))
    else None
  }

  /** One match of the token expression at exactly `i`: the span of its
      captured group. A whitespace run holding a newline matches up to its
      last newline and captures that newline; otherwise blanks are skipped
      and the second alternative is tried. Both alternatives end where their
      group ends, so the span's end is also where the next match starts. */
  function NextMatch(text: string, i: nat): (r: Option<(nat, nat)>)
    requires i < |text|
    ensures r.Some? ==> i <= r.value.0 < r.value.1 <= |text|
  {
    var j := SpaceRunEnd(text, i);
    match LastNewline(text, i, j)
    case Some(k) => Some((k, k + 1))
    case None =>
      var s := BlankRunEnd(text, i);
      match GroupEnd(text, s)
      case Some(e) => Some((s, e))
      case None => None
  }

  /** The tokens `tokenize` collects from position `i` on: every match's
      group, comments excepted, in the order `finditer` finds them. */
  function LexFrom(text: string, i: nat): (r: seq<string>)
    requires i <= |text|
    ensures |r| <= |text| - i
    decreases |text| - i, 1
  {
    if i == |text| then [] else LexAt(text, i, NextMatch(text, i))
  }

  /** The tokens from `i` on, given the match `m` found at `i`: a match's
      group is kept unless it is a comment, and scanning goes on where the
      match ended, or one character on when there was none. */
  function LexAt(text: string, i: nat, m: Option<(nat, nat)>): (r: seq<string>)
    requires i < |text| && m == NextMatch(text, i)
    decreases |text| - i, 0
  {
    match m
    case None => LexFrom(text, i + 1)
    case Some(span) =>
      var token := text[span.0..span.1];
      (if token[0] == '#' then [] else [token]) + LexFrom(text, span.1)
  }

  /** pymeml's `tokenize` as a function: at most one token per character. */
  function Lex(text: string): (r: seq<string>)
    ensures |r| <= |text|
  {
    LexFrom(text, 0)
  }

  /** pymeml's `tokenize`: the matches of the token expression, left to right,
      keeping each group that is not a comment. */
  method Tokenize(text: string) returns (tokens: seq<string>)
    ensures tokens == Lex(text)
  {
    tokens := [];
    var i := 0;
    while i < |text|
      invariant i <= |text|
      invariant tokens + LexFrom(text, i) == Lex(text)
      decreases |text| - i
    {
      var m := NextMatch(text, i);
      if m.None? {
        // no match starts here: the search resumes at the next character
        assert LexFrom(text, i) == LexFrom(text, i + 1) by { LexStep(text, i); }
        i := i + 1;
      } else {
        var span := m.value;
        var token := text[span.0..span.1];
        ghost var rest := LexFrom(text, span.1);
        assert LexFrom(text, i) == (if token[0] == '#' then [] else [token]) + rest by { LexStep(text, i); }
        if token[0] != '#' {
          assert tokens + ([token] + rest) == (tokens + [token]) + rest;
          tokens := tokens + [token];
        } else {
          assert [] + rest == rest;
        }
        i := span.1;
      }
    }
  }

  /** One step of the scan, as `Tokenize`'s loop takes it. */
  lemma LexStep(text: string, i: nat)
    requires i < |text|
    ensures NextMatch(text, i).None? ==> LexFrom(text, i) == LexFrom(text, i + 1)
    ensures NextMatch(text, i).Some? ==>
      var span := NextMatch(text, i).value;
      var token := text[span.0..span.1];
      LexFrom(text, i) == (if token[0] == '#' then [] else [token]) + LexFrom(text, span.1)
  {
  }

  /** The spans of the tokens `LexFrom` emits, in the same order. */
  ghost function SpansFrom(text: string, i: nat): seq<(nat, nat)>
    requires i <= |text|
    decreases |text| - i
  {
    if i == |text| then []
    else
      match NextMatch(text, i)
      case None => SpansFrom(text, i + 1)
      case Some(span) =>
        (if text[span.0] == '#' then [] else [span]) + SpansFrom(text, span.1)
  }

  lemma SpansStep(text: string, i: nat)
    requires i < |text|
    ensures NextMatch(text, i).None? ==> SpansFrom(text, i) == SpansFrom(text, i + 1)
    ensures NextMatch(text, i).Some? ==>
      var span := NextMatch(text, i).value;
      SpansFrom(text, i) == (if text[span.0] == '#' then [] else [span]) + SpansFrom(text, span.1)
  {
  }

  /** `sp` gives, for each token of `toks`, the piece of `text` it is; the
      pieces start at or after `i`, lie left to right and do not overlap. */
  ghost predicate SpansFit(text: string, i: nat, toks: seq<string>, sp: seq<(nat, nat)>) {
    && |sp| == |toks|
    && (forall k :: 0 <= k < |sp| ==> i <= sp[k].0 < sp[k].1 <= |text| && toks[k] == text[sp[k].0..sp[k].1])
    && (forall k :: 0 < k < |sp| ==> sp[k - 1].1 <= sp[k].0)
  }

  lemma SpansFitCons(text: string, i: nat, span: (nat, nat), toks: seq<string>, sp: seq<(nat, nat)>)
    requires i <= span.0 < span.1 <= |text|
    requires SpansFit(text, span.1, toks, sp)
    ensures SpansFit(text, i, [text[span.0..span.1]] + toks, [span] + sp)
  {
    var toks', sp' := [text[span.0..span.1]] + toks, [span] + sp;
    forall k | 0 < k < |sp'| ensures sp'[k - 1].1 <= sp'[k].0 {
      if k > 1 { assert sp'[k - 1] == sp[k - 2] && sp'[k] == sp[k - 1]; }
    }
  }

  lemma {:induction false} TokensInSourceOrder(text: string, i: nat)
    requires i <= |text|
    ensures SpansFit(text, i, LexFrom(text, i), SpansFrom(text, i))
    decreases |text| - i, 1
  {
    if i < |text| {
      var m := NextMatch(text, i);
      if m.None? {
        TokensInSourceOrder(text, i + 1);
        assert LexFrom(text, i) == LexFrom(text, i + 1) by { LexStep(text, i); }
        assert SpansFrom(text, i) == SpansFrom(text, i + 1) by { SpansStep(text, i); }
      } else {
        TokensInSourceOrderAt(text, i, m.value);
      }
    }
  }

  lemma {:induction false} TokensInSourceOrderAt(text: string, i: nat, span: (nat, nat))
    requires i < |text| && NextMatch(text, i) == Some(span)
    ensures SpansFit(text, i, LexFrom(text, i), SpansFrom(text, i))
    decreases |text| - i, 0
  {
    var toks, sp := LexFrom(text, span.1), SpansFrom(text, span.1);
    TokensInSourceOrder(text, span.1);
    var token := text[span.0..span.1];
    if text[span.0] != '#' {
      assert LexFrom(text, i) == [token] + toks by { LexStep(text, i); assert token[0] == text[span.0]; }
      assert SpansFrom(text, i) == [span] + sp by { SpansStep(text, i); }
      SpansFitCons(text, i, span, toks, sp);
    } else {
      assert LexFrom(text, i) == toks by { LexStep(text, i); assert token[0] == text[span.0]; }
      assert SpansFrom(text, i) == sp by { SpansStep(text, i); }
      SpansFitWeaken(text, i, span.1, toks, sp);
    }
  }

  lemma SpansFitWeaken(text: string, i: nat, j: nat, toks: seq<string>, sp: seq<(nat, nat)>)
    requires i <= j && SpansFit(text, j, toks, sp)
    ensures SpansFit(text, i, toks, sp)
  {
  }

  /** The float alternative matches a signed point number. */
  lemma FloatShape(text: string, s: nat)
    requires s <= |text| && FloatEnd(text, s).Some?
    ensures IsPointNumber(Unsigned(text[s..FloatEnd(text, s).value]))
  {
    var e := FloatEnd(text, s).value;
    var d := SignEnd(text, s);
    var p := DigitRunEnd(text, d);
    FloatRuns(text, s);
    SignedSlice(text, s, e);
    PointNumberSlice(text, d, p, e);
  }

  lemma PointNumberSlice(text: string, d: nat, p: nat, e: nat)
    requires d < p < e - 1 && e <= |text| && text[p] == '.'
    requires AllDigits(text[d..p]) && AllDigits(text[p + 1..e])
    ensures IsPointNumber(text[d..e])
  {
    var u := text[d..e];
    assert u[..p - d] == text[d..p] && u[p - d] == '.' && u[p - d + 1..] == text[p + 1..e];
    PointNumberOf(u, p - d);
  }

  /** The pieces a float match is made of. */
  lemma FloatRuns(text: string, s: nat)
    requires s <= |text| && FloatEnd(text, s).Some?
    ensures var d := SignEnd(text, s);
      var p := DigitRunEnd(text, d);
      var e := FloatEnd(text, s).value;
      && d < p < e - 1 && text[p] == '.'
      && AllDigits(text[d..p]) && AllDigits(text[p + 1..e])
  {
    var d := SignEnd(text, s);
    var p := DigitRunEnd(text, d);
    assert FloatEnd(text, s).value == DigitRunEnd(text, p + 1);
    DigitRunEndFacts(text, d);
    DigitSlice(text, d, p);
    DigitRunEndFacts(text, p + 1);
    DigitSlice(text, p + 1, DigitRunEnd(text, p + 1));
  }

  /** Taking off the optional sign of a match is starting it after the sign. */
  lemma SignedSlice(text: string, s: nat, e: nat)
    requires s <= e <= |text| && SignEnd(text, s) <= e
    ensures Unsigned(text[s..e]) == text[SignEnd(text, s)..e]
  {
    if SignEnd(text, s) == s + 1 { assert text[s..e][1..] == text[s + 1..e]; }
  }

  lemma DigitSlice(text: string, a: nat, b: nat)
    requires a <= b <= |text| && forall k :: a <= k < b ==> IsDigit(text[k])
    ensures AllDigits(text[a..b])
  {
    forall k | 0 <= k < b - a ensures IsDigit(text[a..b][k]) { assert text[a..b][k] == text[a + k]; }
  }

  /** The integer alternative matches a signed digit run. */
  lemma IntShape(text: string, s: nat)
    requires s <= |text| && IntEnd(text, s).Some?
    ensures IsDigits(Unsigned(text[s..IntEnd(text, s).value]))
  {
    var e := IntEnd(text, s).value;
    var d := SignEnd(text, s);
    DigitRunEndFacts(text, d);
    SignedSlice(text, s, e);
    DigitSlice(text, d, e);
  }

  /** A closed string alternative matches an escaped quoted string. */
  lemma StringShape(text: string, s: nat, q: char)
    requires s < |text| && text[s] == q && StringEnd(text, s + 1, q).Some?
    ensures IsEscapedQuoted(text[s..StringEnd(text, s + 1, q).value], q)
  {
    var e := StringEnd(text, s + 1, q).value;
    StringEndFacts(text, s + 1, q);
    var t := text[s..e];
    assert |t| == e - s >= 2;
    assert t[0] == q && t[|t| - 1] == text[e - 1] == q;
    SliceOfSlice(text, s, e, 1, |t| - 1);
  }

  /** Conversely, a closed escaped string body is found: the scan stops at
      its closing quote and nowhere before it. */
  lemma {:induction false} StringEndComplete(text: string, i: nat, e: nat, q: char)
    requires q != '\\'
    requires i < e <= |text| && text[e - 1] == q && EscapedBody(text[i..e - 1], q)
    ensures StringEnd(text, i, q) == Some(e)
    decreases e - i
  {
    var b := text[i..e - 1];
    if i + 1 < e {
      assert b[0] == text[i];
      if b[0] != q && b[0] != '\\' && EscapedBody(b[1..], q) {
        assert b[1..] == text[i + 1..e - 1];
        StringEndComplete(text, i + 1, e, q);
      } else {
        assert b[1] == text[i + 1] && b[2..] == text[i + 2..e - 1];
        StringEndComplete(text, i + 2, e, q);
      }
    }
  }

  /** A closed quoted string is one token, ending at its closing quote. */
  lemma StringIsOneToken(text: string, s: nat, e: nat, q: char)
    requires q == '"' || q == '\''
    requires s < e <= |text| && IsEscapedQuoted(text[s..e], q)
    ensures LexFrom(text, s) == [text[s..e]] + LexFrom(text, e)
  {
    SliceOfSlice(text, s, e, 1, e - s - 1);
    assert text[s] == text[s..e][0] == q;
    StringEndComplete(text, s + 1, e, q);
    assert SpaceRunEnd(text, s) == s && BlankRunEnd(text, s) == s;
    LexStep(text, s);
  }

  /** A brace, a bracket or a colon is a token of its own. */
  lemma StructuralIsOneToken(text: string, i: nat)
    requires i < |text| && IsStructuralChar(text[i])
    ensures LexFrom(text, i) == [text[i..i + 1]] + LexFrom(text, i + 1)
  {
    assert SpaceRunEnd(text, i) == i && BlankRunEnd(text, i) == i;
    assert text[i..i + 1][0] == text[i];
    LexStep(text, i);
  }

  lemma SliceOfSlice<T>(a: seq<T>, s: nat, e: nat, i: nat, j: nat)
    requires s <= e <= |a| && i <= j <= e - s
    ensures a[s..e][i..j] == a[s + i..s + j]
  {
    forall k | 0 <= k < j - i ensures a[s..e][i..j][k] == a[s + i..s + j][k] {
      assert a[s..e][i..j][k] == a[s + i + k];
    }
  }

  /** What the second alternative captures is a comment or a lexeme. */
  lemma GroupShape(text: string, s: nat)
    requires s <= |text| && GroupEnd(text, s).Some?
    ensures var t := text[s..GroupEnd(text, s).value];
      if t[0] == '#' then IsComment(t) else IsLexeme(t)
  {
    var e := GroupEnd(text, s).value;
    var t := text[s..e];
    assert t[0] == text[s];
    if text[s] == '#' {
      LineEndFacts(text, s + 1);
      assert '\n' !in t by {
        forall k | 0 <= k < |t| ensures t[k] != '\n' { assert t[k] == text[s + k]; }
      }
    } else if IsStructuralChar(text[s]) {
    } else if text[s] == '"' && StringEnd(text, s + 1, '"').Some? {
      StringShape(text, s, '"');
    } else if text[s] == '\'' && StringEnd(text, s + 1, '\'').Some? {
      StringShape(text, s, '\'');
    } else if FloatEnd(text, s).Some? {
      FloatShape(text, s);
    } else if IntEnd(text, s).Some? {
      IntShape(text, s);
    } else {
      IdentRunEndFacts(text, s + 1);
      forall k | 1 <= k < |t| ensures IsIdentChar(t[k]) { assert t[k] == text[s + k]; }
    }
  }

  /** Every match captures a comment or a lexeme. */
  lemma MatchShape(text: string, i: nat)
    requires i < |text| && NextMatch(text, i).Some?
    ensures var span := NextMatch(text, i).value;
      var t := text[span.0..span.1];
      if t[0] == '#' then IsComment(t) else IsLexeme(t)
  {
    var j := SpaceRunEnd(text, i);
    var n := LastNewline(text, i, j);
    if n.Some? {
      assert text[n.value..n.value + 1] == "\n";
    } else {
      GroupShape(text, BlankRunEnd(text, i));
    }
  }

  /** Every token `tokenize` returns has one of the shapes of the token
      expression's alternatives; in particular none is a comment. */
  lemma {:induction false} TokensAreLexemes(text: string, i: nat)
    requires i <= |text|
    ensures forall t :: t in LexFrom(text, i) ==> IsLexeme(t)
    decreases |text| - i
  {
    if i < |text| {
      var m := NextMatch(text, i);
      if m.None? {
        TokensAreLexemes(text, i + 1);
        assert LexFrom(text, i) == LexFrom(text, i + 1) by { LexStep(text, i); }
      } else {
        var span := m.value;
        var token := text[span.0..span.1];
        TokensAreLexemes(text, span.1);
        MatchShape(text, i);
        assert LexFrom(text, i) == (if token[0] == '#' then [] else [token]) + LexFrom(text, span.1) by {
          LexStep(text, i);
        }
      }
    }
  }

  /** No token is empty, so the parser's truthiness tests never fail on a
      token that `tokenize` produced. */
  lemma TokensAreNonEmpty(text: string)
    ensures forall t :: t in Lex(text) ==> t != ""
  {
    TokensAreLexemes(text, 0);
  }

  /** A run that ends where `[ \t\n]` stops holding is the maximal one. */
  lemma {:induction false} SpaceRunEndAt(text: string, i: nat, j: nat)
    requires i <= j <= |text|
    requires forall k :: i <= k < j ==> IsSpace(text[k])
    requires j == |text| || !IsSpace(text[j])
    ensures SpaceRunEnd(text, i) == j
    decreases j - i
  {
    if i < j { SpaceRunEndAt(text, i + 1, j); }
  }

  lemma {:induction false} BlankRunEndAt(text: string, i: nat, j: nat)
    requires i <= j <= |text|
    requires forall k :: i <= k < j ==> IsBlank(text[k])
    requires j == |text| || !IsBlank(text[j])
    ensures BlankRunEnd(text, i) == j
    decreases j - i
  {
    if i < j { BlankRunEndAt(text, i + 1, j); }
  }

  /** Blanks in front of a token change nothing: the scan from the first
      blank yields what the scan from the following character yields. */
  lemma {:induction false} BlanksSkipped(text: string, i: nat, j: nat)
    requires i <= j <= |text|
    requires forall k :: i <= k < j ==> IsBlank(text[k])
    requires j == |text| || !IsSpace(text[j])
    ensures LexFrom(text, i) == LexFrom(text, j)
    decreases j - i
  {
    if i < j {
      BlanksSkipped(text, i + 1, j);
      SpaceRunEndAt(text, i, j);
      BlankRunEndAt(text, i, j);
      if j < |text| {
        assert SpaceRunEnd(text, j) == j;
        assert BlankRunEnd(text, j) == j;
        assert NextMatch(text, i) == NextMatch(text, j);
      }
    }
  }

  /** A run of spaces, tabs and newlines holding at least one newline gives
      exactly one newline token, however many lines it spans. */
  lemma NewlineRunCollapses(text: string, i: nat, j: nat)
    requires i < j <= |text|
    requires forall k :: i <= k < j ==> IsSpace(text[k])
    requires exists k :: i <= k < j && text[k] == '\n'
    requires j == |text| || !IsSpace(text[j])
    ensures LexFrom(text, i) == ["\n"] + LexFrom(text, j)
  {
    var k := LastNewlineToken(text, i, j);
    NewlineThenBlanks(text, i, k, j);
  }

  /** The newline token at `k`, then blanks up to `j`, add only that token. */
  lemma NewlineThenBlanks(text: string, i: nat, k: nat, j: nat)
    requires k < j <= |text| && i <= k
    requires LexFrom(text, i) == ["\n"] + LexFrom(text, k + 1)
    requires forall m :: k < m < j ==> IsBlank(text[m])
    requires j == |text| || !IsSpace(text[j])
    ensures LexFrom(text, i) == ["\n"] + LexFrom(text, j)
  {
    BlanksSkipped(text, k + 1, j);
  }

  /** The run's last newline `k` is the token, and only blanks follow it. */
  lemma LastNewlineToken(text: string, i: nat, j: nat) returns (k: nat)
    requires i < j <= |text|
    requires forall k :: i <= k < j ==> IsSpace(text[k])
    requires exists k :: i <= k < j && text[k] == '\n'
    requires j == |text| || !IsSpace(text[j])
    ensures k < j && LexFrom(text, i) == ["\n"] + LexFrom(text, k + 1)
    ensures forall m :: k < m < j ==> IsBlank(text[m])
  {
    var n := LastNewline(text, i, j);
    LastNewlineFacts(text, i, j);
    k := n.value;
    assert NextMatch(text, i) == Some((k, k + 1)) by { SpaceRunEndAt(text, i, j); }
    assert text[k..k + 1] == "\n";
    LexStep(text, i);
  }

  /** A comment is matched and dropped: scanning goes on at the newline that
      ends its line (or at the end of text). */
  lemma CommentDropped(text: string, i: nat)
    requires i < |text| && text[i] == '#'
    ensures LexFrom(text, i) == LexFrom(text, LineEnd(text, i))
  {
    assert SpaceRunEnd(text, i) == i;
    assert BlankRunEnd(text, i) == i;
    assert LineEnd(text, i) == LineEnd(text, i + 1);
  }

  /** A character that can start no alternative is dropped without error. */
  lemma UnmatchedCharDropped(text: string, i: nat)
    requires i < |text|
    requires var c := text[i];
      && !IsSpace(c) && c != '#' && !IsStructuralChar(c) && c != '"' && c != '\''
      && c != '+' && c != '-' && !IsDigit(c) && !IsIdentStart(c)
    ensures LexFrom(text, i) == LexFrom(text, i + 1)
  {
    assert SpaceRunEnd(text, i) == i;
    assert BlankRunEnd(text, i) == i;
    assert SignEnd(text, i) == i && DigitRunEnd(text, i) == i;
  }

  /** At an identifier start, the match is the identifier run. */
  lemma IdentMatch(text: string, i: nat)
    requires i < |text| && IsIdentStart(text[i])
    ensures NextMatch(text, i) == Some((i, IdentRunEnd(text, i + 1)))
  {
    assert SpaceRunEnd(text, i) == i && BlankRunEnd(text, i) == i;
    assert SignEnd(text, i) == i && DigitRunEnd(text, i) == i;
    assert FloatEnd(text, i).None? && IntEnd(text, i).None?;
  }

  /** An identifier is one token, as long as identifier characters last. */
  lemma IdentifierIsOneToken(text: string, i: nat, e: nat)
    requires i < |text| && IsIdentStart(text[i]) && e == IdentRunEnd(text, i + 1)
    ensures LexFrom(text, i) == [text[i..e]] + LexFrom(text, e)
  {
    IdentMatch(text, i);
    assert text[i..e][0] == text[i];
    LexStep(text, i);
  }

  /** The float alternative takes the whole digit run after its point. */
  lemma FloatIsMaximal(text: string, s: nat)
    requires s <= |text| && FloatEnd(text, s).Some?
    ensures var e := FloatEnd(text, s).value; e == |text| || !IsDigit(text[e])
  {
    var p := DigitRunEnd(text, SignEnd(text, s));
    DigitRunEndFacts(text, p + 1);
  }

  /** Where the float alternative fails, the integer alternative takes the
      whole digit run, and no point followed by a digit comes after it. */
  lemma IntIsMaximal(text: string, s: nat)
    requires s <= |text| && FloatEnd(text, s).None? && IntEnd(text, s).Some?
    ensures var e := IntEnd(text, s).value;
      && (e == |text| || !IsDigit(text[e]))
      && (e + 1 < |text| && text[e] == '.' ==> !IsDigit(text[e + 1]))
  {
    var e := IntEnd(text, s).value;
    DigitRunEndFacts(text, SignEnd(text, s));
    if e + 1 < |text| && text[e] == '.' {
      assert DigitRunEnd(text, e + 1) == e + 1;
    }
  }

  /** The end of the number token at `i`: the float match when there is
      one, and the integer match otherwise. */
  function NumberEnd(text: string, i: nat): (e: nat)
    requires i <= |text| && IntEnd(text, i).Some?
    ensures i < e <= |text|
  {
    if FloatEnd(text, i).Some? then FloatEnd(text, i).value else IntEnd(text, i).value
  }

  /** At a digit or a sign that starts a number, the match is the number. */
  lemma NumberMatch(text: string, i: nat)
    requires i < |text| && (IsDigit(text[i]) || text[i] == '+' || text[i] == '-')
    requires IntEnd(text, i).Some?
    ensures NextMatch(text, i) == Some((i, NumberEnd(text, i)))
  {
    assert SpaceRunEnd(text, i) == i && BlankRunEnd(text, i) == i;
  }

  /** A number is one token, spanning its whole digit runs: no digit follows
      it. */
  lemma NumberIsOneToken(text: string, i: nat, e: nat)
    requires i < |text| && (IsDigit(text[i]) || text[i] == '+' || text[i] == '-')
    requires IntEnd(text, i).Some? && e == NumberEnd(text, i)
    ensures LexFrom(text, i) == [text[i..e]] + LexFrom(text, e)
    ensures e == |text| || !IsDigit(text[e])
  {
    NumberMatch(text, i);
    if FloatEnd(text, i).Some? {
      FloatIsMaximal(text, i);
    } else {
      IntIsMaximal(text, i);
    }
    assert text[i..e][0] == text[i];
    LexStep(text, i);
  }

  /** `5.` is the integer `5`; the point matches nothing and is dropped. */
  lemma TrailingPointDropped()
    ensures Lex("5.") == ["5"]
  {
    var t := "5.";
    assert t[0] == '5' && t[1] == '.';
    assert SpaceRunEnd(t, 0) == 0 && BlankRunEnd(t, 0) == 0;
    assert DigitRunEnd(t, 0) == 1 && DigitRunEnd(t, 2) == 2;
    assert FloatEnd(t, 0).None?;
    assert IntEnd(t, 0) == Some(1);
    assert NextMatch(t, 0) == Some((0, 1));
    assert t[0..1] == "5";
    LexStep(t, 0);
    UnmatchedCharDropped(t, 1);
    assert LexFrom(t, 2) == [];
  }

  /** The float alternative is tried before the integer one, so `12.5` is
      one token. */
  lemma FloatIsOneToken()
    ensures Lex("12.5") == ["12.5"]
  {
    var t := "12.5";
    assert t[0] == '1' && t[1] == '2' && t[2] == '.' && t[3] == '5';
    assert SpaceRunEnd(t, 0) == 0 && BlankRunEnd(t, 0) == 0;
    assert DigitRunEnd(t, 0) == 2 && DigitRunEnd(t, 3) == 4;
    assert FloatEnd(t, 0) == Some(4);
    assert NextMatch(t, 0) == Some((0, 4));
    assert t[0..4] == "12.5";
    LexStep(t, 0);
    assert LexFrom(t, 4) == [];
  }

  /** The number patterns take an optional `+` as well as `-`, so `+5` is
      one token. */
  lemma PlusSignedIntIsOneToken()
    ensures Lex("+5") == ["+5"]
  {
    var t := "+5";
    assert t[0] == '+' && t[1] == '5';
    assert SpaceRunEnd(t, 0) == 0 && BlankRunEnd(t, 0) == 0;
    assert SignEnd(t, 0) == 1 && DigitRunEnd(t, 1) == 2;
    assert FloatEnd(t, 0) == None;
    assert IntEnd(t, 0) == Some(2);
    assert NextMatch(t, 0) == Some((0, 2));
    assert t[0..2] == "+5";
    LexStep(t, 0);
    assert LexFrom(t, 2) == [];
  }

  /** A backslash shields the quote after it, so `"a\"b"` is one string
      token. */
  lemma EscapedQuoteIsOneToken()
    ensures Lex("\"a\\\"b\"") == ["\"a\\\"b\""]
  {
    var t := "\"a\\\"b\"";
    assert t[0] == '"' && t[1] == 'a' && t[2] == '\\' && t[3] == '"' && t[4] == 'b' && t[5] == '"';
    assert StringEnd(t, 5, '"') == Some(6);
    assert StringEnd(t, 1, '"') == Some(6) by {
      assert StringEnd(t, 1, '"') == StringEnd(t, 2, '"') == StringEnd(t, 4, '"');
    }
    assert SpaceRunEnd(t, 0) == 0 && BlankRunEnd(t, 0) == 0;
    assert GroupEnd(t, 0) == Some(6);
    assert NextMatch(t, 0) == Some((0, 6));
    assert t[0..6] == t;
    LexStep(t, 0);
    assert LexFrom(t, 6) == [];
  }

  /** A newline followed by no other whitespace is one newline token. */
  lemma LoneNewline(text: string, i: nat)
    requires i < |text| && text[i] == '\n'
    requires i + 1 == |text| || !IsSpace(text[i + 1])
    ensures LexFrom(text, i) == ["\n"] + LexFrom(text, i + 1)
  {
    assert SpaceRunEnd(text, i) == i + 1 by { assert SpaceRunEnd(text, i + 1) == i + 1; }
    assert LastNewline(text, i, i + 1) == Some(i);
    assert text[i..i + 1] == "\n";
    LexStep(text, i);
  }

  /** A comment is dropped but the newline ending its line is kept, as a
      token of its own when no further whitespace follows it. */
  lemma CommentLineKeepsItsNewline(text: string, c: nat)
    requires c < |text| && text[c] == '#'
    requires var j := LineEnd(text, c);
      j < |text| && (j + 1 == |text| || !IsSpace(text[j + 1]))
    ensures LexFrom(text, c) == ["\n"] + LexFrom(text, LineEnd(text, c) + 1)
  {
    var j := LineEnd(text, c);
    assert text[j] == '\n' by { LineEndFacts(text, c); }
    CommentDropped(text, c);
    LoneNewline(text, j);
  }

  /** `x`, a comment line, `y`: the comment line leaves two newline tokens. */
  lemma CommentLineKeepsTwoNewlines(t: string)
    requires t == "x\n# c\ny"
    ensures Lex(t) == ["x", "\n", "\n", "y"]
  {
    ExampleX(t);
    assert t[1] == '\n' && t[2] == '#';
    LoneNewline(t, 1);
    ExampleComment(t);
    ExampleY(t);
    ExampleChain(LexFrom(t, 0), LexFrom(t, 1), LexFrom(t, 2), LexFrom(t, 6));
  }

  lemma ExampleChain(a: seq<string>, b: seq<string>, c: seq<string>, d: seq<string>)
    requires a == ["x"] + b && b == ["\n"] + c && c == ["\n"] + d && d == ["y"]
    ensures a == ["x", "\n", "\n", "y"]
  {
  }

  lemma ExampleX(t: string)
    requires t == "x\n# c\ny"
    ensures LexFrom(t, 0) == ["x"] + LexFrom(t, 1)
  {
    assert t[0] == 'x' && t[1] == '\n';
    assert IdentRunEnd(t, 1) == 1;
    assert t[0..1] == "x";
    IdentifierIsOneToken(t, 0, 1);
  }

  lemma ExampleComment(t: string)
    requires t == "x\n# c\ny"
    ensures LexFrom(t, 2) == ["\n"] + LexFrom(t, 6)
  {
    assert t[2] == '#' && t[3] == ' ' && t[4] == 'c' && t[5] == '\n' && t[6] == 'y';
    LineEndFacts(t, 3);
    assert LineEnd(t, 2) == 5;
    CommentLineKeepsItsNewline(t, 2);
  }

  lemma ExampleY(t: string)
    requires t == "x\n# c\ny"
    ensures LexFrom(t, 6) == ["y"]
  {
    assert t[6] == 'y';
    assert IdentRunEnd(t, 7) == 7;
    assert t[6..7] == "y";
    IdentifierIsOneToken(t, 6, 7);
    assert LexFrom(t, 7) == [];
  }
}
