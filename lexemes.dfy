/** Character classes and the shapes of lexemes, shared by the tokenizer (which
    recognises them in running text) and by scalar classification (which
    recognises a narrower set in a single token). Digits and letters are the
    ASCII ones. */
module MemlLexemes {

  predicate IsDigit(c: char) { '0' <= c <= '9' }

  predicate IsIdentStart(c: char) { ('A' <= c <= 'Z') || ('a' <= c <= 'z') || c == '_' }

  predicate IsIdentChar(c: char) { IsIdentStart(c) || IsDigit(c) }

  /** `[ \t]` */
  predicate IsBlank(c: char) { c == ' ' || c == '\t' }

  /** `[ \t\n]` */
  predicate IsSpace(c: char) { IsBlank(c) || c == '\n' }

  /** `[{\[\]}:]` */
  predicate IsStructuralChar(c: char) { c == '{' || c == '[' || c == ']' || c == '}' || c == ':' }

  predicate AllDigits(s: string) { forall k :: 0 <= k < |s| ==> IsDigit(s[k]) }

  /** `\d+` */
  predicate IsDigits(s: string) { |s| > 0 && AllDigits(s) }

  /** The length of the run of digits that `s` starts with. */
  function DigitCount(s: string): (k: nat)
    ensures k <= |s|
    ensures AllDigits(s[..k])
    ensures k == |s| || !IsDigit(s[k])
  {
    if s != [] && IsDigit(s[0]) then
      var k := 1 + DigitCount(s[1..]);
      assert s[..k] == [s[0]] + s[1..][..k - 1];
      k
    else 0
  }

  /** `\d+\.\d+`: two non-empty digit runs around a single point. */
  predicate IsPointNumber(s: string) {
    var k := DigitCount(s);
    0 < k < |s| && s[k] == '.' && IsDigits(s[k + 1..])
  }

  /** What is left once an optional leading `+` or `-` (the lexer's `[-+]?`)
      is taken off. */
  function Unsigned(t: string): string {
    if |t| > 0 && (t[0] == '+' || t[0] == '-') then t[1..] else t
  }

  /** What is left once an optional leading `-` (scalar coercion's `-?`) is
      taken off. */
  function Unnegated(t: string): string {
    if |t| > 0 && t[0] == '-' then t[1..] else t
  }

  /** `[A-Za-z_][A-Za-z0-9_]*` */
  predicate IsIdent(t: string) {
    |t| > 0 && IsIdentStart(t[0]) && forall k :: 1 <= k < |t| ==> IsIdentChar(t[k])
  }

  /** The interior of a lexer string quoted with `q`: characters other than `q`
      and backslash, and backslash pairs whose second character is not a
      newline (`[^q\\]*(?:\\.[^q\\]*)*`). */
  predicate EscapedBody(s: string, q: char)
    decreases |s|
  {
    || s == []
    || (s[0] != q && s[0] != '\\' && EscapedBody(s[1..], q))
    || (|s| >= 2 && s[0] == '\\' && s[1] != '\n' && EscapedBody(s[2..], q))
  }

  /** A quoted string as the tokenizer accepts it. */
  predicate IsEscapedQuoted(t: string, q: char) {
    |t| >= 2 && t[0] == q && t[|t| - 1] == q && EscapedBody(t[1..|t| - 1], q)
  }

  /** A quoted string as scalar coercion accepts it (`"[^"]*"|'[^']*'`): no
      quote of the same kind inside. */
  predicate IsPlainQuoted(t: string) {
    && |t| >= 2
    && ((t[0] == '"' && t[|t| - 1] == '"' && '"' !in t[1..|t| - 1])
        || (t[0] == '\'' && t[|t| - 1] == '\'' && '\'' !in t[1..|t| - 1]))
  }

  /** A line comment: `#` and the rest of the line, without its newline. */
  predicate IsComment(t: string) {
    |t| > 0 && t[0] == '#' && '\n' !in t
  }

  /** Every shape of token the tokenizer can emit, by alternative. */
  predicate IsLexeme(t: string) {
    || t == "\n"
    || (|t| == 1 && IsStructuralChar(t[0]))
    || IsEscapedQuoted(t, '"')
    || IsEscapedQuoted(t, '\'')
    || IsPointNumber(Unsigned(t))
    || IsDigits(Unsigned(t))
    || IsIdent(t)
  }

  /** A digit run that stops at a non-digit (or the end) is the one
      `DigitCount` measures. */
  lemma {:induction false} DigitCountAt(s: string, k: nat)
    requires k <= |s| && AllDigits(s[..k])
    requires k == |s| || !IsDigit(s[k])
    ensures DigitCount(s) == k
  {
    if k > 0 {
      assert s[0] == s[..k][0];
      assert s[1..][..k - 1] == s[..k][1..];
      DigitCountAt(s[1..], k - 1);
    }
  }

  /** Two digit runs around a point make a point number. */
  lemma PointNumberOf(u: string, k: nat)
    requires 0 < k < |u| - 1 && AllDigits(u[..k]) && u[k] == '.' && AllDigits(u[k + 1..])
    ensures IsPointNumber(u)
  {
    DigitCountAt(u, k);
  }

  /** No shape the tokenizer emits begins with `#`, so it never mistakes a
      token for a comment. */
  lemma LexemeIsNotComment(t: string)
    requires IsLexeme(t)
    ensures t[0] != '#'
  {
    if IsPointNumber(Unsigned(t)) || IsDigits(Unsigned(t)) {
      var u := Unsigned(t);
      assert IsDigit(u[0]) by { if IsPointNumber(u) { assert u[..DigitCount(u)][0] == u[0]; } }
    }
  }

  function DigitValue(c: char): nat
    requires IsDigit(c)
  {
    (c as int - '0' as int) as nat
  }

  /** The number a run of decimal digits denotes (Python's `int` on ASCII
      digits; leading zeros allowed). */
  function DecimalValue(s: string): (n: nat)
    requires AllDigits(s)
    ensures n == 0 <==> forall k :: 0 <= k < |s| ==> s[k] == '0'
  {
    if s == [] then 0 else DecimalValue(s[..|s| - 1]) * 10 + DigitValue(s[|s| - 1])
  }

  /** The shortest decimal spelling of `n`, as Python's `str` of an int. */
  function DecimalString(n: nat): (s: string)
    ensures IsDigits(s)
    ensures s[0] != '0' || n == 0
    decreases n
  {
    var last := ['0' + ((n % 10) as char)];
    if n < 10 then last
    else
      var front := DecimalString(n / 10);
      assert (front + last)[0] == front[0];
      front + last
  }

  lemma {:induction false} DecimalStringValue(n: nat)
    ensures DecimalValue(DecimalString(n)) == n
    decreases n
  {
    var s := DecimalString(n);
    if n >= 10 {
      DecimalStringValue(n / 10);
      assert s[..|s| - 1] == DecimalString(n / 10);
    }
  }

  /** An identifier has no sign and no digit in front, so neither numeric
      shape can hold of it. */
  lemma IdentIsNotNumber(t: string)
    requires IsIdent(t)
    ensures Unsigned(t) == t && Unnegated(t) == t
    ensures DigitCount(t) == 0 && !IsPointNumber(t) && !IsDigits(t)
  {
  }
}
