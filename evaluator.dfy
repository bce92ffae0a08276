/** The arithmetic evaluator that formula results come from.

    The engine hands the evaluator the text `e` of a formula after every
    reference has been replaced by the referenced value's string form, and
    evaluates the program `return (e)`.  This module reads exactly the
    arithmetic part of that program: `e` is wrapped in parentheses and parsed
    by recursive descent with the usual precedence (`*` and `/` above `+` and
    `-`, both levels left-associative), unary `-` and `+`, parentheses,
    decimal literals and legacy octal literals.  Every other character is a failure, and so is a
    division by zero.  Numbers are exact rationals. */
module Evaluator {
  import opened Values

  /** A parse step's outcome: the value read and the position after it. */
  datatype Parsed = Parsed(v: Rat, next: nat)

  /** The characters an arithmetic expression may be made of. */
  predicate IsExprChar(c: char)
  {
    IsDigit(c) || c == '.' || c == '+' || c == '-' || c == '*' || c == '/' || c == '(' || c == ')'
  }

  predicate ExprChars(s: string, i: int, j: int)
    requires 0 <= i <= j <= |s|
  {
    forall k :: i <= k < j ==> IsExprChar(s[k])
  }

  /** The end of the run of digits that starts at position i. */
  function DigitRun(s: string, i: nat): (j: nat)
    requires i <= |s|
    ensures i <= j <= |s|
    ensures forall k :: i <= k < j ==> IsDigit(s[k])
    ensures j == |s| || !IsDigit(s[j])
    decreases |s| - i
  {
    if i < |s| && IsDigit(s[i]) then DigitRun(s, i + 1) else i
  }

  function Pow10(n: nat): (p: nat)
    ensures p > 0
  {
    if n == 0 then 1 else 10 * Pow10(n - 1)
  }

  /** The value of the decimal literal `whole.frac`. */
  function Decimal(whole: string, frac: string): (q: Rat)
    requires AllDigits(whole) && AllDigits(frac)
    ensures Value(q) == (DigitsValue(whole) * Pow10(|frac|) + DigitsValue(frac)) as real / Pow10(|frac|) as real
  {
    Normalize(DigitsValue(whole) * Pow10(|frac|) + DigitsValue(frac), Pow10(|frac|))
  }

  predicate IsOctalDigit(c: char) { '0' <= c <= '7' }

  /** A legacy octal literal: a zero followed by one or more octal digits
      (`010` is eight).  A leading zero followed by a run that holds an 8 or a
      9 is an ordinary decimal literal (`019` is nineteen). */
  predicate LegacyOctal(a: string)
  {
    |a| >= 2 && a[0] == '0' && forall k :: 1 <= k < |a| ==> IsOctalDigit(a[k])
  }

  /** The number a string of octal digits denotes. */
  function OctalValue(s: string): nat
    requires forall k :: 0 <= k < |s| ==> IsOctalDigit(s[k])
  {
    if s == [] then 0
    else
      assert IsOctalDigit(s[|s| - 1]);
      OctalValue(s[..|s| - 1]) * 8 + (s[|s| - 1] as int - '0' as int)
  }

  /** The value of a literal made of digits alone: octal after a leading zero
      when every later digit is octal, decimal otherwise. */
  function Lit(a: string): (q: Rat)
    requires AllDigits(a)
    ensures q.den == 1
    ensures !LegacyOctal(a) ==> Value(q) == DigitsValue(a) as real
  {
    if LegacyOctal(a) then FromInt(OctalValue(a[1..])) else FromInt(DigitsValue(a))
  }

  /** A numeric literal: digits with an optional fraction part (`12`, `12.5`,
      `12.`), or a fraction part alone (`.5`).  A legacy octal literal has no
      fraction part, so the `.` after one is left for the caller, which
      refuses it. */
  function ParseNumber(s: string, i: nat): (r: Option<Parsed>)
    requires i <= |s|
    ensures r.Some? ==> i < r.value.next <= |s|
  {
    var j := DigitRun(s, i);
    if j < |s| && s[j] == '.' && !LegacyOctal(s[i..j]) then
      var k := DigitRun(s, j + 1);
      if j == i && k == j + 1 then None
      else Some(Parsed(Decimal(s[i..j], s[j + 1..k]), k))
    else if j == i then None
    else Some(Parsed(Lit(s[i..j]), j))
  }

  // Each parse function reads from position i and consumes at least one
  // character on success; the decreases pairs order the mutual recursion by
  // the characters left and then by grammar level.

  /** expr := term (('+' | '-') term)* */
  function ParseExpr(s: string, i: nat): (r: Option<Parsed>)
    requires i <= |s|
    ensures r.Some? ==> i < r.value.next <= |s|
    decreases |s| - i, 3
  {
    match ParseTerm(s, i)
    case None => None
    case Some(t) => ExprTail(s, t.next, t.v)
  }

  function ExprTail(s: string, i: nat, acc: Rat): (r: Option<Parsed>)
    requires i <= |s|
    ensures r.Some? ==> i <= r.value.next <= |s|
    decreases |s| - i, 3
  {
    if i < |s| && (s[i] == '+' || s[i] == '-') then
      match ParseTerm(s, i + 1)
      case None => None
      case Some(t) => ExprTail(s, t.next, if s[i] == '+' then Add(acc, t.v) else Sub(acc, t.v))
    else Some(Parsed(acc, i))
  }

  /** term := unary (('*' | '/') unary)* */
  function ParseTerm(s: string, i: nat): (r: Option<Parsed>)
    requires i <= |s|
    ensures r.Some? ==> i < r.value.next <= |s|
    decreases |s| - i, 2
  {
    match ParseUnary(s, i)
    case None => None
    case Some(u) => TermTail(s, u.next, u.v)
  }

  function TermTail(s: string, i: nat, acc: Rat): (r: Option<Parsed>)
    requires i <= |s|
    ensures r.Some? ==> i <= r.value.next <= |s|
    decreases |s| - i, 2
  {
    if i < |s| && (s[i] == '*' || s[i] == '/') then
      match ParseUnary(s, i + 1)
      case None => None
      case Some(u) =>
        if s[i] == '*' then TermTail(s, u.next, Mul(acc, u.v))
        else if u.v.num == 0 then None
        else TermTail(s, u.next, Div(acc, u.v))
    else Some(Parsed(acc, i))
  }

  /** unary := ('-' | '+') unary | primary */
  function ParseUnary(s: string, i: nat): (r: Option<Parsed>)
    requires i <= |s|
    ensures r.Some? ==> i < r.value.next <= |s|
    decreases |s| - i, 1
  {
    if i < |s| && s[i] == '-' then
      match ParseUnary(s, i + 1)
      case None => None
      case Some(u) => Some(Parsed(Neg(u.v), u.next))
    else if i < |s| && s[i] == '+' then
      ParseUnary(s, i + 1)
    else ParsePrimary(s, i)
  }

  /** primary := number | '(' expr ')' */
  function ParsePrimary(s: string, i: nat): (r: Option<Parsed>)
    requires i <= |s|
    ensures r.Some? ==> i < r.value.next <= |s|
    decreases |s| - i, 0
  {
    if i < |s| && s[i] == '(' then
      match ParseExpr(s, i + 1)
      case None => None
      case Some(e) =>
        if e.next < |s| && s[e.next] == ')' then Some(Parsed(e.v, e.next + 1)) else None
    else ParseNumber(s, i)
  }

  /** Whether two equal signs `--` or `++` stand side by side: an increment or
      decrement token, which no arithmetic expression admits. */
  predicate HasIncDec(e: string)
  {
    exists k :: 0 <= k < |e| - 1 && e[k] == e[k + 1] && (e[k] == '-' || e[k] == '+')
  }

  /** The program text `(e)` whose value the engine asks for. */
  function Wrap(e: string): string
  {
    "(" + e + ")"
  }

  /** Evaluates `e` as the body of `return (e)`: the whole parenthesised text
      must parse; `None` is the failure the engine reports as #ERROR!. */
  function Evaluate(e: string): (r: Option<Rat>)
    ensures r.Some? ==> forall k :: 0 <= k < |e| ==> IsExprChar(e[k])
    ensures r.Some? ==> !HasIncDec(e)
  {
    var s := Wrap(e);
    if HasIncDec(e) then None
    else
      match ParseExpr(s, 0)
      case Some(p) =>
        if p.next == |s| then
          ExprSound(s, 0);
          assert forall k :: 0 <= k < |e| ==> e[k] == s[k + 1];
          Some(p.v)
        else None
      case None => None
  }

  // What a successful parse consumed is made of expression characters only:
  // a letter, a space, a colon or any other character makes the parse stop.

  lemma NumberSound(s: string, i: nat)
    requires i <= |s|
    ensures var r := ParseNumber(s, i); r.Some? ==> ExprChars(s, i, r.value.next)
  {
  }

  lemma {:induction false} ExprSound(s: string, i: nat)
    requires i <= |s|
    ensures var r := ParseExpr(s, i); r.Some? ==> ExprChars(s, i, r.value.next)
    decreases |s| - i, 3
  {
    TermSound(s, i);
    var t := ParseTerm(s, i);
    if t.Some? {
      ExprTailSound(s, t.value.next, t.value.v);
    }
  }

  lemma {:induction false} ExprTailSound(s: string, i: nat, acc: Rat)
    requires i <= |s|
    ensures var r := ExprTail(s, i, acc); r.Some? ==> ExprChars(s, i, r.value.next)
    decreases |s| - i, 3
  {
    if i < |s| && (s[i] == '+' || s[i] == '-') {
      TermSound(s, i + 1);
      var t := ParseTerm(s, i + 1);
      if t.Some? {
        ExprTailSound(s, t.value.next, if s[i] == '+' then Add(acc, t.value.v) else Sub(acc, t.value.v));
      }
    }
  }

  lemma {:induction false} TermSound(s: string, i: nat)
    requires i <= |s|
    ensures var r := ParseTerm(s, i); r.Some? ==> ExprChars(s, i, r.value.next)
    decreases |s| - i, 2
  {
    UnarySound(s, i);
    var u := ParseUnary(s, i);
    if u.Some? {
      TermTailSound(s, u.value.next, u.value.v);
    }
  }

  lemma {:induction false} TermTailSound(s: string, i: nat, acc: Rat)
    requires i <= |s|
    ensures var r := TermTail(s, i, acc); r.Some? ==> ExprChars(s, i, r.value.next)
    decreases |s| - i, 2
  {
    if i < |s| && (s[i] == '*' || s[i] == '/') {
      UnarySound(s, i + 1);
      var u := ParseUnary(s, i + 1);
      if u.Some? {
        if s[i] == '*' {
          TermTailSound(s, u.value.next, Mul(acc, u.value.v));
        } else if u.value.v.num != 0 {
          TermTailSound(s, u.value.next, Div(acc, u.value.v));
        }
      }
    }
  }

  lemma {:induction false} UnarySound(s: string, i: nat)
    requires i <= |s|
    ensures var r := ParseUnary(s, i); r.Some? ==> ExprChars(s, i, r.value.next)
    decreases |s| - i, 1
  {
    if i < |s| && (s[i] == '-' || s[i] == '+') {
      UnarySound(s, i + 1);
    } else {
      PrimarySound(s, i);
    }
  }

  lemma {:induction false} PrimarySound(s: string, i: nat)
    requires i <= |s|
    ensures var r := ParsePrimary(s, i); r.Some? ==> ExprChars(s, i, r.value.next)
    decreases |s| - i, 0
  {
    if i < |s| && s[i] == '(' {
      ExprSound(s, i + 1);
    } else {
      NumberSound(s, i);
    }
  }
}
