/** What the evaluator computes: decimal literals, the precedence and
    associativity of the four operators, parentheses, unary minus, the
    substituted form of a number, and the inputs it refuses. */
module EvaluatorProperties {
  import opened Values
  import opened Evaluator

  // ---------------------------------------------------------------------------
  // Reference semantics
  // ---------------------------------------------------------------------------

  predicate IsAddOp(c: char) { c == '+' || c == '-' }
  predicate IsMulOp(c: char) { c == '*' || c == '/' }

  /** A run of digits: a literal the evaluator reads as a whole number. */
  predicate Numeral(a: string)
  {
    |a| > 0 && AllDigits(a)
  }

  /** The operator `op` applied to two exact values; a zero divisor fails. */
  function Apply(op: char, x: Option<Rat>, y: Option<Rat>): Option<Rat>
    requires IsAddOp(op) || IsMulOp(op)
  {
    if x.None? || y.None? then None
    else if op == '+' then Some(Add(x.value, y.value))
    else if op == '-' then Some(Sub(x.value, y.value))
    else if op == '*' then Some(Mul(x.value, y.value))
    else if y.value.num == 0 then None
    else Some(Div(x.value, y.value))
  }

  /** How `x op1 y op2 z` groups: a multiplicative operator after an additive
      one binds first; otherwise the operators apply from left to right. */
  function Grouped(x: Rat, op1: char, y: Rat, op2: char, z: Rat): Option<Rat>
    requires IsAddOp(op1) || IsMulOp(op1)
    requires IsAddOp(op2) || IsMulOp(op2)
  {
    if IsAddOp(op1) && IsMulOp(op2) then Apply(op1, Some(x), Apply(op2, Some(y), Some(z)))
    else Apply(op2, Apply(op1, Some(x), Some(y)), Some(z))
  }

  /** A parse outcome that matches the reference value `r` and stops at `j`;
      a reference failure matches a parse failure. */
  predicate Yields(p: Option<Parsed>, r: Option<Rat>, j: nat)
  {
    match r
    case None => p.None?
    case Some(v) => p == Some(Parsed(v, j))
  }

  // ---------------------------------------------------------------------------
  // Parser steps over an arbitrary text
  // ---------------------------------------------------------------------------

  lemma {:induction false} DigitRunEnds(s: string, i: nat, j: nat)
    requires i <= j <= |s|
    requires forall k :: i <= k < j ==> IsDigit(s[k])
    requires j == |s| || !IsDigit(s[j])
    ensures DigitRun(s, i) == j
    decreases j - i
  {
    if i < j {
      DigitRunEnds(s, i + 1, j);
    }
  }

  /** A run of digits at position i, followed by a character that cannot
      continue a literal, is read as the integer it denotes. */
  lemma NumberAt(s: string, i: nat, a: string)
    requires |a| > 0 && AllDigits(a)
    requires i + |a| < |s| && s[i..i + |a|] == a
    requires !IsDigit(s[i + |a|]) && s[i + |a|] != '.'
    ensures ParseUnary(s, i) == Some(Parsed(Lit(a), i + |a|))
  {
    var j := i + |a|;
    assert forall k :: i <= k < j ==> IsDigit(s[k]) by {
      forall k | i <= k < j
        ensures IsDigit(s[k])
      {
        assert s[k] == s[i..j][k - i];
      }
    }
    DigitRunEnds(s, i, j);
    assert ParseNumber(s, i) == Some(Parsed(Lit(a), j));
    assert s[i] == a[0];
  }

  /** One additive step `op y` of a sum. */
  lemma AddStep(s: string, acc: Rat, op: char, y: Rat, p: nat, q: nat)
    requires IsAddOp(op)
    requires p < q <= |s| && s[p] == op
    requires ParseTerm(s, p + 1) == Some(Parsed(y, q))
    ensures ExprTail(s, p, acc) == ExprTail(s, q, Apply(op, Some(acc), Some(y)).value)
  {
  }

  /** One multiplicative step `op y` of a product; a zero divisor fails. */
  lemma MulStep(s: string, acc: Rat, op: char, y: Rat, p: nat, q: nat)
    requires IsMulOp(op)
    requires p < q <= |s| && s[p] == op
    requires ParseUnary(s, p + 1) == Some(Parsed(y, q))
    ensures var r := Apply(op, Some(acc), Some(y));
            (r.None? ==> TermTail(s, p, acc).None?) &&
            (r.Some? ==> TermTail(s, p, acc) == TermTail(s, q, r.value))
  {
    if op == '*' {
      assert TermTail(s, p, acc) == TermTail(s, q, Mul(acc, y));
    } else if y.num == 0 {
      assert TermTail(s, p, acc).None?;
    } else {
      assert TermTail(s, p, acc) == TermTail(s, q, Div(acc, y));
    }
  }

  /** `x op y` followed by a closing parenthesis. */
  lemma Binary(s: string, i: nat, x: Rat, op: char, y: Rat, p1: nat, p2: nat)
    requires IsAddOp(op) || IsMulOp(op)
    requires i < p1 < p2 < |s| && s[p1] == op && s[p2] == ')'
    requires ParseUnary(s, i) == Some(Parsed(x, p1))
    requires ParseUnary(s, p1 + 1) == Some(Parsed(y, p2))
    ensures Yields(ParseExpr(s, i), Apply(op, Some(x), Some(y)), p2)
  {
    var r := Apply(op, Some(x), Some(y));
    if IsAddOp(op) {
      assert ParseTerm(s, i) == Some(Parsed(x, p1));
      assert ParseTerm(s, p1 + 1) == Some(Parsed(y, p2));
      AddStep(s, x, op, y, p1, p2);
      assert ExprTail(s, p2, r.value) == Some(Parsed(r.value, p2));
    } else {
      MulStep(s, x, op, y, p1, p2);
      assert ParseTerm(s, i) == TermTail(s, p1, x);
      if r.Some? {
        assert TermTail(s, p2, r.value) == Some(Parsed(r.value, p2));
        assert ExprTail(s, p2, r.value) == Some(Parsed(r.value, p2));
      }
    }
  }

  lemma AddAdd(s: string, i: nat, x: Rat, op1: char, y: Rat, op2: char, z: Rat, p1: nat, p2: nat, p3: nat)
    requires IsAddOp(op1) && IsAddOp(op2)
    requires i < p1 < p2 < p3 < |s| && s[p1] == op1 && s[p2] == op2 && s[p3] == ')'
    requires ParseUnary(s, i) == Some(Parsed(x, p1))
    requires ParseUnary(s, p1 + 1) == Some(Parsed(y, p2))
    requires ParseUnary(s, p2 + 1) == Some(Parsed(z, p3))
    ensures Yields(ParseExpr(s, i), Grouped(x, op1, y, op2, z), p3)
  {
    var xy := Apply(op1, Some(x), Some(y)).value;
    var r := Apply(op2, Some(xy), Some(z)).value;
    assert ParseTerm(s, i) == Some(Parsed(x, p1));
    assert ParseTerm(s, p1 + 1) == Some(Parsed(y, p2));
    assert ParseTerm(s, p2 + 1) == Some(Parsed(z, p3));
    AddStep(s, x, op1, y, p1, p2);
    AddStep(s, xy, op2, z, p2, p3);
    assert ExprTail(s, p3, r) == Some(Parsed(r, p3));
  }

  lemma AddMul(s: string, i: nat, x: Rat, op1: char, y: Rat, op2: char, z: Rat, p1: nat, p2: nat, p3: nat)
    requires IsAddOp(op1) && IsMulOp(op2)
    requires i < p1 < p2 < p3 < |s| && s[p1] == op1 && s[p2] == op2 && s[p3] == ')'
    requires ParseUnary(s, i) == Some(Parsed(x, p1))
    requires ParseUnary(s, p1 + 1) == Some(Parsed(y, p2))
    requires ParseUnary(s, p2 + 1) == Some(Parsed(z, p3))
    ensures Yields(ParseExpr(s, i), Grouped(x, op1, y, op2, z), p3)
  {
    assert ParseTerm(s, i) == Some(Parsed(x, p1));
    var yz := Apply(op2, Some(y), Some(z));
    MulStep(s, y, op2, z, p2, p3);
    assert ParseTerm(s, p1 + 1) == TermTail(s, p2, y);
    if yz.Some? {
      assert TermTail(s, p3, yz.value) == Some(Parsed(yz.value, p3));
      var r := Apply(op1, Some(x), yz).value;
      AddStep(s, x, op1, yz.value, p1, p3);
      assert ExprTail(s, p3, r) == Some(Parsed(r, p3));
    } else {
      assert ExprTail(s, p1, x).None?;
    }
  }

  lemma MulAdd(s: string, i: nat, x: Rat, op1: char, y: Rat, op2: char, z: Rat, p1: nat, p2: nat, p3: nat)
    requires IsMulOp(op1) && IsAddOp(op2)
    requires i < p1 < p2 < p3 < |s| && s[p1] == op1 && s[p2] == op2 && s[p3] == ')'
    requires ParseUnary(s, i) == Some(Parsed(x, p1))
    requires ParseUnary(s, p1 + 1) == Some(Parsed(y, p2))
    requires ParseUnary(s, p2 + 1) == Some(Parsed(z, p3))
    ensures Yields(ParseExpr(s, i), Grouped(x, op1, y, op2, z), p3)
  {
    var xy := Apply(op1, Some(x), Some(y));
    MulStep(s, x, op1, y, p1, p2);
    assert ParseTerm(s, i) == TermTail(s, p1, x);
    if xy.Some? {
      assert TermTail(s, p2, xy.value) == Some(Parsed(xy.value, p2));
      var r := Apply(op2, xy, Some(z)).value;
      assert ParseTerm(s, p2 + 1) == Some(Parsed(z, p3));
      AddStep(s, xy.value, op2, z, p2, p3);
      assert ExprTail(s, p3, r) == Some(Parsed(r, p3));
    }
  }

  lemma MulMul(s: string, i: nat, x: Rat, op1: char, y: Rat, op2: char, z: Rat, p1: nat, p2: nat, p3: nat)
    requires IsMulOp(op1) && IsMulOp(op2)
    requires i < p1 < p2 < p3 < |s| && s[p1] == op1 && s[p2] == op2 && s[p3] == ')'
    requires ParseUnary(s, i) == Some(Parsed(x, p1))
    requires ParseUnary(s, p1 + 1) == Some(Parsed(y, p2))
    requires ParseUnary(s, p2 + 1) == Some(Parsed(z, p3))
    ensures Yields(ParseExpr(s, i), Grouped(x, op1, y, op2, z), p3)
  {
    var xy := Apply(op1, Some(x), Some(y));
    MulStep(s, x, op1, y, p1, p2);
    assert ParseTerm(s, i) == TermTail(s, p1, x);
    if xy.Some? {
      var r := Apply(op2, xy, Some(z));
      MulStep(s, xy.value, op2, z, p2, p3);
      if r.Some? {
        assert TermTail(s, p3, r.value) == Some(Parsed(r.value, p3));
        assert ExprTail(s, p3, r.value) == Some(Parsed(r.value, p3));
      }
    }
  }

  /** `x op1 y op2 z` followed by a closing parenthesis. */
  lemma Ternary(s: string, i: nat, x: Rat, op1: char, y: Rat, op2: char, z: Rat, p1: nat, p2: nat, p3: nat)
    requires IsAddOp(op1) || IsMulOp(op1)
    requires IsAddOp(op2) || IsMulOp(op2)
    requires i < p1 < p2 < p3 < |s| && s[p1] == op1 && s[p2] == op2 && s[p3] == ')'
    requires ParseUnary(s, i) == Some(Parsed(x, p1))
    requires ParseUnary(s, p1 + 1) == Some(Parsed(y, p2))
    requires ParseUnary(s, p2 + 1) == Some(Parsed(z, p3))
    ensures Yields(ParseExpr(s, i), Grouped(x, op1, y, op2, z), p3)
  {
    if IsAddOp(op1) && IsAddOp(op2) {
      AddAdd(s, i, x, op1, y, op2, z, p1, p2, p3);
    } else if IsAddOp(op1) {
      AddMul(s, i, x, op1, y, op2, z, p1, p2, p3);
    } else if IsAddOp(op2) {
      MulAdd(s, i, x, op1, y, op2, z, p1, p2, p3);
    } else {
      MulMul(s, i, x, op1, y, op2, z, p1, p2, p3);
    }
  }

  // ---------------------------------------------------------------------------
  // Whole formula bodies
  // ---------------------------------------------------------------------------

  /** The parenthesised text of a whole body has the value of its inner
      expression, failure included. */
  lemma Wrapped(e: string, r: Option<Rat>)
    requires !HasIncDec(e)
    requires Yields(ParseExpr(Wrap(e), 1), r, |e| + 1)
    ensures Evaluate(e) == r
  {
    var s := Wrap(e);
    assert s[0] == '(' && s[|e| + 1] == ')';
    if r.Some? {
      var v := r.value;
      assert ParsePrimary(s, 0) == Some(Parsed(v, |s|));
      assert ParseUnary(s, 0) == Some(Parsed(v, |s|));
      assert TermTail(s, |s|, v) == Some(Parsed(v, |s|));
      assert ParseTerm(s, 0) == Some(Parsed(v, |s|));
      assert ExprTail(s, |s|, v) == Some(Parsed(v, |s|));
      assert ParseExpr(s, 0) == Some(Parsed(v, |s|));
    } else {
      assert ParsePrimary(s, 0).None?;
      assert ParseUnary(s, 0).None?;
      assert ParseTerm(s, 0).None?;
    }
  }

  /** `a op b` for two numerals is the operator applied to their values. */
  lemma OneOperator(a: string, op: char, b: string)
    requires Numeral(a) && Numeral(b)
    requires IsAddOp(op) || IsMulOp(op)
    ensures Evaluate(a + [op] + b) == Apply(op, Some(Lit(a)), Some(Lit(b)))
  {
    var e := a + [op] + b;
    var p1 := 1 + |a|;
    var p2 := p1 + 1 + |b|;
    assert !HasIncDec(e) by {
      assert forall k :: 0 <= k < |a| ==> e[k] == a[k];
      assert forall k :: |a| < k < |e| ==> e[k] == b[k - |a| - 1];
    }
    assert Yields(ParseExpr(Wrap(e), 1), Apply(op, Some(Lit(a)), Some(Lit(b))), p2) by {
      var s := Wrap(e);
      assert |s| == p2 + 1 && s[p1] == op && s[p2] == ')'
          && s[1..p1] == a && s[p1 + 1..p2] == b by {
        assert s == ['('] + a + [op] + b + [')'];
      }
      OneOperatorParse(s, a, op, b, p1, p2);
    }
    Wrapped(e, Apply(op, Some(Lit(a)), Some(Lit(b))));
  }

  lemma OneOperatorParse(s: string, a: string, op: char, b: string, p1: nat, p2: nat)
    requires |a| > 0 && AllDigits(a) && |b| > 0 && AllDigits(b)
    requires IsAddOp(op) || IsMulOp(op)
    requires p1 == 1 + |a| && p2 == p1 + 1 + |b| && |s| == p2 + 1
    requires s[p1] == op && s[p2] == ')' && s[1..p1] == a && s[p1 + 1..p2] == b
    ensures Yields(ParseExpr(s, 1), Apply(op, Some(Lit(a)), Some(Lit(b))), p2)
  {
    TwoNumbers(s, 1, a, op, b, p1, p2);
  }

  /** Precedence and left associativity: `a op1 b op2 c` for three numerals
      groups as `Grouped` says. */
  lemma TwoOperators(a: string, op1: char, b: string, op2: char, c: string)
    requires Numeral(a) && Numeral(b) && Numeral(c)
    requires IsAddOp(op1) || IsMulOp(op1)
    requires IsAddOp(op2) || IsMulOp(op2)
    ensures Evaluate(a + [op1] + b + [op2] + c) == Grouped(Lit(a), op1, Lit(b), op2, Lit(c))
  {
    var e := a + [op1] + b + [op2] + c;
    var p1 := 1 + |a|;
    var p2 := p1 + 1 + |b|;
    var p3 := p2 + 1 + |c|;
    var r := Grouped(Lit(a), op1, Lit(b), op2, Lit(c));
    Separated3(a, op1, b, op2, c);
    assert Yields(ParseExpr(Wrap(e), 1), r, p3) by {
      var s := Wrap(e);
      Layout3(a, op1, b, op2, c, s, p1, p2, p3);
      TwoOperatorsParse(s, a, op1, b, op2, c, p1, p2, p3);
    }
    Wrapped(e, r);
  }

  lemma TwoOperatorsParse(s: string, a: string, op1: char, b: string, op2: char, c: string, p1: nat, p2: nat, p3: nat)
    requires |a| > 0 && AllDigits(a) && |b| > 0 && AllDigits(b) && |c| > 0 && AllDigits(c)
    requires IsAddOp(op1) || IsMulOp(op1)
    requires IsAddOp(op2) || IsMulOp(op2)
    requires p1 == 1 + |a| && p2 == p1 + 1 + |b| && p3 == p2 + 1 + |c| && |s| == p3 + 1
    requires s[p1] == op1 && s[p2] == op2 && s[p3] == ')'
    requires s[1..p1] == a && s[p1 + 1..p2] == b && s[p2 + 1..p3] == c
    ensures Yields(ParseExpr(s, 1), Grouped(Lit(a), op1, Lit(b), op2, Lit(c)), p3)
  {
    ThreeNumbers(s, a, op1, b, op2, c, p1, p2, p3);
    Ternary(s, 1, Lit(a), op1, Lit(b), op2, Lit(c), p1, p2, p3);
  }

  /** The three numerals of `(a op1 b op2 c)` each parse as an operand. */
  lemma ThreeNumbers(s: string, a: string, op1: char, b: string, op2: char, c: string, p1: nat, p2: nat, p3: nat)
    requires |a| > 0 && AllDigits(a) && |b| > 0 && AllDigits(b) && |c| > 0 && AllDigits(c)
    requires IsAddOp(op1) || IsMulOp(op1)
    requires IsAddOp(op2) || IsMulOp(op2)
    requires p1 == 1 + |a| && p2 == p1 + 1 + |b| && p3 == p2 + 1 + |c| && |s| == p3 + 1
    requires s[p1] == op1 && s[p2] == op2 && s[p3] == ')'
    requires s[1..p1] == a && s[p1 + 1..p2] == b && s[p2 + 1..p3] == c
    ensures ParseUnary(s, 1) == Some(Parsed(Lit(a), p1))
    ensures ParseUnary(s, p1 + 1) == Some(Parsed(Lit(b), p2))
    ensures ParseUnary(s, p2 + 1) == Some(Parsed(Lit(c), p3))
  {
    FirstTwoNumbers(s, a, b, p1, p2);
    ClosingNumber(s, c, p2 + 1, p3);
  }

  /** A numeral followed by `)` parses as an operand. */
  lemma ClosingNumber(s: string, c: string, i: nat, j: nat)
    requires |c| > 0 && AllDigits(c)
    requires j == i + |c| && j < |s| && s[j] == ')' && s[i..j] == c
    ensures ParseUnary(s, i) == Some(Parsed(Lit(c), j))
  {
    NumberAt(s, i, c);
  }

  /** The numerals `a` and `b` of `(a op1 b op2 c)` parse as operands. */
  lemma FirstTwoNumbers(s: string, a: string, b: string, p1: nat, p2: nat)
    requires |a| > 0 && AllDigits(a) && |b| > 0 && AllDigits(b)
    requires p1 == 1 + |a| && p2 == p1 + 1 + |b| && p2 < |s|
    requires !IsDigit(s[p1]) && s[p1] != '.' && !IsDigit(s[p2]) && s[p2] != '.'
    requires s[1..p1] == a && s[p1 + 1..p2] == b
    ensures ParseUnary(s, 1) == Some(Parsed(Lit(a), p1))
    ensures ParseUnary(s, p1 + 1) == Some(Parsed(Lit(b), p2))
  {
    NumberAt(s, 1, a);
    NumberAt(s, p1 + 1, b);
  }

  /** Where the numerals and operators of `(a op1 b op2 c)` stand. */
  lemma Layout3(a: string, op1: char, b: string, op2: char, c: string, s: string, p1: nat, p2: nat, p3: nat)
    requires s == Wrap(a + [op1] + b + [op2] + c)
    requires p1 == 1 + |a| && p2 == p1 + 1 + |b| && p3 == p2 + 1 + |c|
    ensures |s| == p3 + 1 && s[p1] == op1 && s[p2] == op2 && s[p3] == ')'
    ensures s[1..p1] == a && s[p1 + 1..p2] == b && s[p2 + 1..p3] == c
  {
    var head := ['('] + a + [op1];
    var tail := [op2] + c + [')'];
    assert s == head + b + tail;
    assert s[..p1 + 1] == head;
    assert s[p2..] == tail;
    assert s[1..p1] == head[1..p1];
    assert s[p2 + 1..p3] == tail[1..|tail| - 1];
  }

  /** Three numerals joined by two operators never hold `--` or `++`. */
  lemma Separated3(a: string, op1: char, b: string, op2: char, c: string)
    requires AllDigits(a) && AllDigits(b) && AllDigits(c) && |b| > 0 && |c| > 0
    ensures !HasIncDec(a + [op1] + b + [op2] + c)
  {
    var e := a + [op1] + b + [op2] + c;
    var i, j := |a|, |a| + 1 + |b|;
    assert forall k :: 0 <= k < |a| ==> e[k] == a[k];
    assert forall k :: i < k < j ==> e[k] == b[k - i - 1];
    assert forall k :: j < k < |e| ==> e[k] == c[k - j - 1];
  }

  /** Parentheses group first: `(a op1 b) op2 c`. */
  lemma GroupFirst(a: string, op1: char, b: string, op2: char, c: string)
    requires Numeral(a) && Numeral(b) && Numeral(c)
    requires IsAddOp(op1) || IsMulOp(op1)
    requires IsAddOp(op2) || IsMulOp(op2)
    ensures Evaluate("(" + a + [op1] + b + ")" + [op2] + c)
            == Apply(op2, Apply(op1, Some(Lit(a)), Some(Lit(b))), Some(Lit(c)))
  {
    var e := "(" + a + [op1] + b + ")" + [op2] + c;
    var p1 := 2 + |a|;
    var p2 := p1 + 1 + |b|;
    var p3 := p2 + 2 + |c|;
    var r := Apply(op2, Apply(op1, Some(Lit(a)), Some(Lit(b))), Some(Lit(c)));
    GroupSeparated(a, op1, b, op2, c);
    assert Yields(ParseExpr(Wrap(e), 1), r, p3) by {
      var s := Wrap(e);
      GroupLayout(a, op1, b, op2, c, s, p1, p2, p3);
      GroupFirstParse(s, a, op1, b, op2, c, p1, p2, p3);
    }
    Wrapped(e, r);
  }

  lemma GroupFirstParse(s: string, a: string, op1: char, b: string, op2: char, c: string, p1: nat, p2: nat, p3: nat)
    requires |a| > 0 && AllDigits(a) && |b| > 0 && AllDigits(b) && |c| > 0 && AllDigits(c)
    requires IsAddOp(op1) || IsMulOp(op1)
    requires IsAddOp(op2) || IsMulOp(op2)
    requires p1 == 2 + |a| && p2 == p1 + 1 + |b| && p3 == p2 + 2 + |c| && |s| == p3 + 1
    requires s[1] == '(' && s[p1] == op1 && s[p2] == ')' && s[p2 + 1] == op2 && s[p3] == ')'
    requires s[2..p1] == a && s[p1 + 1..p2] == b && s[p2 + 2..p3] == c
    ensures Yields(ParseExpr(s, 1), Apply(op2, Apply(op1, Some(Lit(a)), Some(Lit(b))), Some(Lit(c))), p3)
  {
    var ab := Apply(op1, Some(Lit(a)), Some(Lit(b)));
    assert !IsDigit(s[p3]) && s[p3] != '.';
    NumberAt(s, p2 + 2, c);
    GroupInner(s, a, op1, b, p1, p2);
    if ab.Some? {
      Binary(s, 1, ab.value, op2, Lit(c), p2 + 1, p3);
    } else {
      assert ParseTerm(s, 1).None?;
    }
  }

  /** The group `(a op1 b)` standing at position 1. */
  lemma GroupInner(s: string, a: string, op1: char, b: string, p1: nat, p2: nat)
    requires |a| > 0 && AllDigits(a) && |b| > 0 && AllDigits(b)
    requires IsAddOp(op1) || IsMulOp(op1)
    requires p1 == 2 + |a| && p2 == p1 + 1 + |b| && p2 < |s|
    requires s[1] == '(' && s[p1] == op1 && s[p2] == ')'
    requires s[2..p1] == a && s[p1 + 1..p2] == b
    ensures Yields(ParseUnary(s, 1), Apply(op1, Some(Lit(a)), Some(Lit(b))), p2 + 1)
  {
    var ab := Apply(op1, Some(Lit(a)), Some(Lit(b)));
    assert Yields(ParseExpr(s, 2), ab, p2) by { TwoNumbers(s, 2, a, op1, b, p1, p2); }
    Parenthesised(s, 1, ab, p2);
  }

  /** `a op b` standing at position i, followed by `)`. */
  lemma TwoNumbers(s: string, i: nat, a: string, op: char, b: string, p1: nat, p2: nat)
    requires |a| > 0 && AllDigits(a) && |b| > 0 && AllDigits(b)
    requires IsAddOp(op) || IsMulOp(op)
    requires p1 == i + |a| && p2 == p1 + 1 + |b| && p2 < |s|
    requires s[p1] == op && s[p2] == ')' && s[i..p1] == a && s[p1 + 1..p2] == b
    ensures Yields(ParseExpr(s, i), Apply(op, Some(Lit(a)), Some(Lit(b))), p2)
  {
    assert !IsDigit(s[p1]) && s[p1] != '.' && !IsDigit(s[p2]) && s[p2] != '.';
    NumberAt(s, i, a);
    NumberAt(s, p1 + 1, b);
    Binary(s, i, Lit(a), op, Lit(b), p1, p2);
  }

  /** A parenthesised expression is an operand with the expression's value. */
  lemma Parenthesised(s: string, i: nat, r: Option<Rat>, j: nat)
    requires i < j < |s| && s[i] == '(' && s[j] == ')'
    requires Yields(ParseExpr(s, i + 1), r, j)
    ensures Yields(ParseUnary(s, i), r, j + 1)
  {
  }

  /** Where the numerals and operators of `((a op1 b) op2 c)` stand. */
  lemma GroupLayout(a: string, op1: char, b: string, op2: char, c: string, s: string, p1: nat, p2: nat, p3: nat)
    requires s == Wrap("(" + a + [op1] + b + ")" + [op2] + c)
    requires p1 == 2 + |a| && p2 == p1 + 1 + |b| && p3 == p2 + 2 + |c|
    ensures |s| == p3 + 1 && s[1] == '(' && s[p1] == op1 && s[p2] == ')' && s[p2 + 1] == op2 && s[p3] == ')'
    ensures s[2..p1] == a && s[p1 + 1..p2] == b && s[p2 + 2..p3] == c
  {
    var head := ['(', '('] + a + [op1];
    var tail := [')', op2] + c + [')'];
    assert s == head + b + tail;
    assert s[..p1 + 1] == head;
    assert s[p2..] == tail;
    assert s[2..p1] == head[2..p1];
    assert s[p2 + 2..p3] == tail[2..|tail| - 1];
  }

  lemma GroupSeparated(a: string, op1: char, b: string, op2: char, c: string)
    requires AllDigits(a) && AllDigits(b) && AllDigits(c) && |a| > 0 && |b| > 0 && |c| > 0
    ensures !HasIncDec("(" + a + [op1] + b + ")" + [op2] + c)
  {
    var e := "(" + a + [op1] + b + ")" + [op2] + c;
    var i, j := |a| + 1, |a| + 2 + |b|;
    assert forall k :: 0 < k < i ==> e[k] == a[k - 1];
    assert forall k :: i < k < j ==> e[k] == b[k - i - 1];
    assert forall k :: j + 1 < k < |e| ==> e[k] == c[k - j - 2];
  }

  /** A numeral alone is its value, octal or decimal as `Lit` reads it. */
  lemma SingleNumeral(a: string)
    requires Numeral(a)
    ensures Evaluate(a) == Some(Lit(a))
  {
    var s := Wrap(a);
    assert s[1..1 + |a|] == a && s[1 + |a|] == ')';
    NumberAt(s, 1, a);
    assert TermTail(s, 1 + |a|, Lit(a)) == Some(Parsed(Lit(a), 1 + |a|));
    assert ExprTail(s, 1 + |a|, Lit(a)) == Some(Parsed(Lit(a), 1 + |a|));
    assert !HasIncDec(a) by {
      assert forall k :: 0 <= k < |a| ==> IsDigit(a[k]);
    }
    Wrapped(a, Some(Lit(a)));
  }

  /** A minus sign before a numeral negates it. */
  lemma NegatedNumeral(a: string)
    requires Numeral(a)
    ensures Evaluate("-" + a) == Some(Neg(Lit(a)))
  {
    var e := "-" + a;
    var s := Wrap(e);
    var p := 2 + |a|;
    assert s[2..p] == a && s[p] == ')' && s[1] == '-' by {
      assert s == ['(', '-'] + a + [')'];
    }
    NumberAt(s, 2, a);
    var v := Neg(Lit(a));
    assert ParseUnary(s, 1) == Some(Parsed(v, p));
    assert TermTail(s, p, v) == Some(Parsed(v, p));
    assert ExprTail(s, p, v) == Some(Parsed(v, p));
    assert !HasIncDec(e) by {
      assert forall k :: 1 <= k < |e| ==> e[k] == a[k - 1];
    }
    Wrapped(e, Some(v));
  }

  /** A numeral followed by a dangling operator is refused. */
  lemma TrailingOperator(a: string, op: char)
    requires |a| > 0 && AllDigits(a)
    requires IsAddOp(op) || IsMulOp(op)
    ensures Evaluate(a + [op]).None?
  {
    var e := a + [op];
    var s := Wrap(e);
    var p := 1 + |a|;
    assert s[1..p] == a && s[p] == op && s[p + 1] == ')' && |s| == p + 2 by {
      assert s == ['('] + a + [op, ')'];
    }
    assert ParseExpr(s, 1).None? by { DanglingOperator(s, a, op, p); }
    Wrapped(e, None);
  }

  /** `a op)` at position 1: the operator has no right operand. */
  lemma DanglingOperator(s: string, a: string, op: char, p: nat)
    requires |a| > 0 && AllDigits(a)
    requires IsAddOp(op) || IsMulOp(op)
    requires p == 1 + |a| && |s| == p + 2
    requires s[1..p] == a && s[p] == op && s[p + 1] == ')'
    ensures ParseExpr(s, 1).None?
  {
    assert !IsDigit(s[p]) && s[p] != '.';
    NumberAt(s, 1, a);
    assert ParseUnary(s, p + 1).None?;
    if IsAddOp(op) {
      assert ParseTerm(s, 1) == Some(Parsed(Lit(a), p));
      assert ParseTerm(s, p + 1).None?;
    } else {
      assert TermTail(s, p, Lit(a)).None?;
    }
  }

  /** An empty body — a formula `=` or one whose only reference is to an unset
      cell — is refused. */
  lemma EmptyBody()
    ensures Evaluate("").None?
  {
    var s := Wrap("");
    assert s == "()";
    assert ParseUnary(s, 1).None?;
    assert ParseTerm(s, 1).None?;
    Wrapped("", None);
  }

  // ---------------------------------------------------------------------------
  // The substituted form of a number
  // ---------------------------------------------------------------------------

  /** What a number turns into when a formula refers to it reads back as the
      same number: substitution loses no value. */
  lemma NumberRoundTrip(q: Rat)
    ensures Evaluate(RatToString(q)) == Some(q)
  {
    var n := Abs(q.num);
    PlainDecimal(n);
    NatToStringRoundTrip(n);
    if q.den == 1 {
      if q.num < 0 {
        NegatedNumeral(NatToString(n));
      } else {
        SingleNumeral(NatToString(n));
      }
    } else {
      QuotientRoundTrip(q);
    }
  }

  /** The rendering of a natural number is never a legacy octal literal, so it
      reads back as the number. */
  lemma PlainDecimal(n: nat)
    ensures Lit(NatToString(n)) == FromInt(n)
  {
    NatToStringLeads(n);
    NatToStringRoundTrip(n);
  }

  lemma {:induction false} NatToStringLeads(n: nat)
    ensures var s := NatToString(n); |s| == 1 || s[0] != '0'
  {
    if n >= 10 {
      NatToStringLeads(n / 10);
    }
  }

  /** A quotient `(a/d)` or `-(a/d)` in lowest terms, with d > 1. */
  lemma QuotientRoundTrip(q: Rat)
    requires q.den != 1
    ensures Evaluate(RatToString(q)) == Some(q)
  {
    var neg := q.num < 0;
    var a, d := NatToString(Abs(q.num)), NatToString(q.den);
    assert RatToString(q) == (if neg then "-" else "") + "(" + a + "/" + d + ")";
    PlainDecimal(Abs(q.num));
    PlainDecimal(q.den);
    QuotientText(neg, a, d);
    LowestTerms(q);
  }

  /** Dividing the parts of a number in lowest terms gives that number back. */
  lemma LowestTerms(q: Rat)
    ensures Signed(q.num < 0, Div(FromInt(Abs(q.num)), FromInt(q.den))) == q
  {
    var n := Abs(q.num);
    assert Div(FromInt(n), FromInt(q.den)) == Normalize(n, q.den);
    assert Normalize(n, q.den) == Fraction(n, q.den) by {
      assert Gcd(n, q.den) == 1;
      assert n / 1 == n && q.den / 1 == q.den;
    }
  }

  /** `x`, or `-x` when `neg` holds. */
  function Signed(neg: bool, x: Rat): Rat
  {
    if neg then Neg(x) else x
  }

  /** The text `(a/d)` or `-(a/d)` for two runs of digits, d not zero. */
  lemma QuotientText(neg: bool, a: string, d: string)
    requires Numeral(a) && Numeral(d) && Lit(d).num != 0
    ensures Evaluate((if neg then "-" else "") + "(" + a + "/" + d + ")") == Some(Signed(neg, Div(Lit(a), Lit(d))))
  {
    var sign := if neg then "-" else "";
    var e := sign + "(" + a + "/" + d + ")";
    var r := Signed(neg, Div(Lit(a), Lit(d)));
    assert !HasIncDec(e) by { QuotientSeparated(sign, a, d); }
    assert Yields(ParseExpr(Wrap(e), 1), Some(r), |e| + 1) by { QuotientWrapped(neg, sign, a, d, e); }
    Wrapped(e, Some(r));
  }

  /** The parser reads `(sign(a/d))` from position 1 up to its last parenthesis. */
  lemma QuotientWrapped(neg: bool, sign: string, a: string, d: string, e: string)
    requires Numeral(a) && Numeral(d) && Lit(d).num != 0
    requires sign == (if neg then "-" else "") && e == sign + "(" + a + "/" + d + ")"
    ensures ParseExpr(Wrap(e), 1) == Some(Parsed(Signed(neg, Div(Lit(a), Lit(d))), |e| + 1))
  {
    var s := Wrap(e);
    var p := 1 + |sign|;
    var p1 := p + 1 + |a|;
    var p2 := p1 + 1 + |d|;
    assert |e| == p2;
    QuotientLayout(sign, a, d, s, p, p1, p2);
    QuotientParse(s, neg, a, d, p, p1, p2);
  }

  /** Where the parts of `(sign(a/d))` stand. */
  lemma QuotientLayout(sign: string, a: string, d: string, s: string, p: nat, p1: nat, p2: nat)
    requires s == Wrap(sign + "(" + a + "/" + d + ")")
    requires p == 1 + |sign| && p1 == p + 1 + |a| && p2 == p1 + 1 + |d|
    ensures |s| == p2 + 2 && s[p] == '(' && s[p1] == '/' && s[p2] == ')' && s[p2 + 1] == ')'
    ensures s[p + 1..p1] == a && s[p1 + 1..p2] == d && s[1..p] == sign
  {
    var head := ['('] + sign + ['('] + a;
    var tail := ['/'] + d + [')', ')'];
    assert s == head + tail;
    assert s[..p1] == head;
    assert s[p1..] == tail;
    assert s[p + 1..p1] == head[p + 1..];
    assert s[1..p] == head[1..p];
    assert s[p1 + 1..p2] == tail[1..1 + |d|];
  }

  lemma QuotientParse(s: string, neg: bool, a: string, d: string, p: nat, p1: nat, p2: nat)
    requires Numeral(a) && Numeral(d) && Lit(d).num != 0
    requires p == (if neg then 2 else 1) && p1 == p + 1 + |a| && p2 == p1 + 1 + |d| && |s| == p2 + 2
    requires s[p] == '(' && s[p1] == '/' && s[p2] == ')' && s[p2 + 1] == ')'
    requires neg ==> s[1] == '-'
    requires s[p + 1..p1] == a && s[p1 + 1..p2] == d
    ensures ParseExpr(s, 1) == Some(Parsed(Signed(neg, Div(Lit(a), Lit(d))), p2 + 1))
  {
    var x := Div(Lit(a), Lit(d));
    assert Yields(ParseExpr(s, p + 1), Some(x), p2) by {
      TwoNumbers(s, p + 1, a, '/', d, p1, p2);
    }
    Parenthesised(s, p, Some(x), p2);
    SignedOperand(s, neg, x, p, p2 + 1);
  }

  /** An operand at p, with a minus sign before it when `neg` holds, and a
      `)` after it, is a whole expression from position 1. */
  lemma SignedOperand(s: string, neg: bool, x: Rat, p: nat, j: nat)
    requires p == (if neg then 2 else 1) && p < j < |s| && s[j] == ')'
    requires neg ==> s[1] == '-'
    requires ParseUnary(s, p) == Some(Parsed(x, j))
    ensures ParseExpr(s, 1) == Some(Parsed(Signed(neg, x), j))
  {
    var v := Signed(neg, x);
    assert ParseUnary(s, 1) == Some(Parsed(v, j));
    assert TermTail(s, j, v) == Some(Parsed(v, j));
    assert ExprTail(s, j, v) == Some(Parsed(v, j));
  }

  lemma QuotientSeparated(sign: string, a: string, d: string)
    requires sign == "" || sign == "-"
    requires AllDigits(a) && AllDigits(d)
    ensures !HasIncDec(sign + "(" + a + "/" + d + ")")
  {
    var e := sign + "(" + a + "/" + d + ")";
    var i := 1 + |sign|;
    var j := i + |a|;
    assert e[|sign|] == '(';
    assert forall k :: i <= k < j ==> e[k] == a[k - i];
    assert forall k :: j < k < |e| - 1 ==> e[k] == d[k - j - 1];
  }

  // ---------------------------------------------------------------------------
  // The engine's own examples
  // ---------------------------------------------------------------------------

  /** `(10+20)*5` is 150. */
  lemma GroupedExample()
    ensures Evaluate("(10+20)*5") == Some(FromInt(150))
  {
    assert "(10+20)*5" == "(" + "10" + ['+'] + "20" + ")" + ['*'] + "5";
    GroupFirst("10", '+', "20", '*', "5");
    assert Lit("10") == FromInt(10) by {
      assert NatToString(10) == "10";
      PlainDecimal(10);
    }
    assert Lit("20") == FromInt(20) by {
      assert NatToString(20) == "20";
      PlainDecimal(20);
    }
    assert Lit("5") == FromInt(5) by {
      assert NatToString(5) == "5";
      PlainDecimal(5);
    }
    assert Apply('+', Some(FromInt(10)), Some(FromInt(20))) == Some(FromInt(30)) by {
      WholeArithmetic(10, 20);
    }
    assert Apply('*', Some(FromInt(30)), Some(FromInt(5))) == Some(FromInt(150)) by {
      WholeArithmetic(30, 5);
    }
  }

  /** `100/10` is the whole number 10. */
  lemma QuotientExample()
    ensures Evaluate("100/10") == Some(FromInt(10))
  {
    assert NatToString(100) == "100" && NatToString(10) == "10";
    PlainDecimal(100);
    PlainDecimal(10);
    OneOperator("100", '/', "10");
    assert "100/10" == "100" + ['/'] + "10";
    DivValue(FromInt(100), FromInt(10));
    WholeNumber(Div(FromInt(100), FromInt(10)), 10);
  }

  /** `30+20` is the whole number 50. */
  lemma SumExample()
    ensures Evaluate("30+20") == Some(FromInt(50))
  {
    assert NatToString(30) == "30" && NatToString(20) == "20";
    PlainDecimal(30);
    PlainDecimal(20);
    OneOperator("30", '+', "20");
    assert "30+20" == "30" + ['+'] + "20";
    WholeArithmetic(30, 20);
  }

  /** The legacy octal literal `010` is 8. */
  lemma OctalExample()
    ensures Evaluate("010") == Some(FromInt(8))
  {
    assert LegacyOctal("010") && "010"[1..] == "10";
    assert OctalValue("10") == 8;
    SingleNumeral("010");
  }
}
