/** The value model of the engine: exact rational numbers, the three kinds of
    computed value a cell can hold, the stored cell, identifier normalisation
    and the string forms that formula evaluation substitutes for references. */
module Values {

  datatype Option<T> = None | Some(value: T)

  // ---------------------------------------------------------------------------
  // Exact numbers
  // ---------------------------------------------------------------------------

  /** A fraction num/den.  The numbers (Rat) are the fractions in lowest
      terms with a positive denominator, so that each number has exactly one
      representation and a whole number has denominator 1. */
  datatype Fraction = Fraction(num: int, den: int)

  function Abs(n: int): nat
  {
    if n < 0 then -n else n
  }

  /** Euclid's algorithm. */
  function Gcd(a: nat, b: nat): nat
    decreases b
  {
    if b == 0 then a else Gcd(b, a % b)
  }

  type Rat = f: Fraction | f.den > 0 && Gcd(Abs(f.num), f.den) == 1 witness Fraction(0, 1)

  /** The exact value a rational stands for. */
  function Value(q: Rat): real
  {
    q.num as real / q.den as real
  }

  function FromInt(n: int): (q: Rat)
    ensures Value(q) == n as real
  {
    GcdOne(Abs(n));
    Fraction(n, 1)
  }

  /** The fraction n/d brought to lowest terms. */
  function Normalize(n: int, d: int): (q: Rat)
    requires d > 0
    ensures Value(q) == n as real / d as real
  {
    var g := Gcd(Abs(n), d);
    NormalizeFacts(n, d);
    SameQuotient(n, d, n / g, d / g, g);
    Fraction(n / g, d / g)
  }

  // ---------------------------------------------------------------------------
  // Lowest terms
  // ---------------------------------------------------------------------------

  lemma MulNonNeg(t: int, m: int)
    requires t >= 0 && m >= 0
    ensures t * m >= 0
  {
  }

  lemma MulAtLeast(t: int, m: int)
    requires t >= 1 && m > 0
    ensures t * m >= m
  {
    MulNonNeg(t - 1, m);
    assert t * m == (t - 1) * m + m;
  }

  lemma GcdOne(a: nat)
    ensures Gcd(a, 1) == 1
  {
    assert a % 1 == 0;
  }

  lemma {:induction false} GcdPositive(a: nat, b: nat)
    requires a > 0 || b > 0
    ensures Gcd(a, b) > 0
    decreases b
  {
    if b > 0 {
      GcdPositive(b, a % b);
    }
  }

  /** Division with remainder has one result. */
  lemma DivModUnique(x: int, m: int, q: int, r: int)
    requires m > 0 && x == q * m + r && 0 <= r < m
    ensures x / m == q && x % m == r
  {
    var q', r' := x / m, x % m;
    assert x == q' * m + r';
    assert (q - q') * m == r' - r;
    if q > q' {
      MulAtLeast(q - q', m);
    } else if q < q' {
      MulAtLeast(q' - q, m);
    }
  }

  lemma ModScale(a: nat, b: nat, k: nat)
    requires b > 0 && k > 0
    ensures (a * k) % (b * k) == (a % b) * k
  {
    var q, r := a / b, a % b;
    assert a == q * b + r;
    assert a * k == q * (b * k) + r * k by {
      assert (q * b + r) * k == q * b * k + r * k;
    }
    assert r * k < b * k by {
      MulAtLeast(b - r, k);
      assert (b - r) * k == b * k - r * k;
    }
    MulNonNeg(r, k);
    DivModUnique(a * k, b * k, q, r * k);
  }

  /** A common factor comes out of the greatest common divisor. */
  lemma {:induction false} GcdScale(a: nat, b: nat, k: nat)
    requires k > 0
    ensures Gcd(a * k, b * k) == Gcd(a, b) * k
    decreases b
  {
    if b > 0 {
      MulAtLeast(b, k);
      ModScale(a, b, k);
      GcdScale(b, a % b, k);
    }
  }

  /** The greatest common divisor divides both numbers. */
  lemma {:induction false} GcdDivides(a: nat, b: nat) returns (x: nat, y: nat)
    ensures a == x * Gcd(a, b) && b == y * Gcd(a, b)
    decreases b
  {
    if b == 0 {
      x, y := 1, 0;
    } else {
      var x', y' := GcdDivides(b, a % b);
      var g := Gcd(b, a % b);
      var t := a / b;
      assert a == t * b + a % b;
      assert t * b == (t * x') * g by {
        assert b == x' * g;
      }
      MulNonNeg(t, x');
      x, y := t * x' + y', x';
      assert a == (t * x') * g + y' * g;
      assert (t * x' + y') * g == (t * x') * g + y' * g;
    }
  }

  lemma OneFactor(t: int, g: int)
    requires g > 0 && t * g == g
    ensures t == 1
  {
    assert (t - 1) * g == 0;
  }

  lemma PositiveFactor(y: int, g: int)
    requires y >= 0 && g > 0 && y * g > 0
    ensures y > 0
  {
  }

  /** Dividing by the greatest common divisor leaves a fraction in lowest terms
      with the same parts up to that factor. */
  lemma NormalizeFacts(n: int, d: int)
    requires d > 0
    ensures var g := Gcd(Abs(n), d);
            g > 0 && n == (n / g) * g && d == (d / g) * g && d / g > 0 &&
            Gcd(Abs(n / g), d / g) == 1
  {
    var g := Gcd(Abs(n), d);
    GcdPositive(Abs(n), d);
    var x, y := GcdDivides(Abs(n), d);
    DivModUnique(d, g, y, 0);
    if n >= 0 {
      DivModUnique(n, g, x, 0);
    } else {
      DivModUnique(n, g, -(x as int), 0);
    }
    assert Abs(n / g) == x;
    GcdScale(x, y, g);
    OneFactor(Gcd(x, y), g);
    PositiveFactor(y, g);
  }

  /** n/d and a/b are the same quotient when n and d are a and b times g. */
  lemma SameQuotient(n: int, d: int, a: int, b: int, g: int)
    requires g > 0 && b > 0 && n == a * g && d == b * g
    ensures a as real / b as real == n as real / d as real
  {
    RealProduct(a, g);
    RealProduct(b, g);
    CancelFactor(a as real, b as real, g as real);
  }

  lemma CancelFactor(x: real, y: real, g: real)
    requires y > 0.0 && g > 0.0
    ensures (x * g) / (y * g) == x / y
  {
  }

  lemma RealProduct(x: int, y: int)
    ensures (x * y) as real == x as real * y as real
  {
  }

  lemma SumOfQuotients(x: real, y: real, a: real, b: real)
    requires a > 0.0 && b > 0.0
    ensures (x * b + y * a) / (a * b) == x / a + y / b
  {
    calc {
      x / a + y / b;
      (x * b) / (a * b) + (y * a) / (a * b);
      (x * b + y * a) / (a * b);
    }
  }

  lemma ProductOfQuotients(x: real, y: real, a: real, b: real)
    requires a > 0.0 && b > 0.0
    ensures (x * y) / (a * b) == (x / a) * (y / b)
  {
  }

  // ---------------------------------------------------------------------------
  // Arithmetic
  // ---------------------------------------------------------------------------

  // The arithmetic keeps its meaning in separate lemmas (NegValue and the
  // rest below), so that the parser's proofs, which only move these terms
  // around, do not carry real-number arithmetic with them.

  function Neg(a: Rat): Rat
  {
    Fraction(-a.num, a.den)
  }

  function Add(a: Rat, b: Rat): Rat
  {
    Normalize(a.num * b.den + b.num * a.den, a.den * b.den)
  }

  function Sub(a: Rat, b: Rat): Rat
  {
    Add(a, Neg(b))
  }

  function Mul(a: Rat, b: Rat): Rat
  {
    Normalize(a.num * b.num, a.den * b.den)
  }

  /** Division; only defined for a non-zero divisor. */
  function Div(a: Rat, b: Rat): Rat
    requires b.num != 0
  {
    var n := if b.num < 0 then -a.num * b.den else a.num * b.den;
    var d := if b.num < 0 then -b.num * a.den else b.num * a.den;
    Normalize(n, d)
  }

  lemma NegValue(a: Rat)
    ensures Value(Neg(a)) == -Value(a)
  {
  }

  lemma AddValue(a: Rat, b: Rat)
    ensures Value(Add(a, b)) == Value(a) + Value(b)
  {
    SumOfIntQuotients(a.num, a.den, b.num, b.den);
  }

  lemma SumOfIntQuotients(x: int, a: int, y: int, b: int)
    requires a > 0 && b > 0
    ensures (x * b + y * a) as real / (a * b) as real == x as real / a as real + y as real / b as real
  {
    RealProduct(x, b);
    RealProduct(y, a);
    RealProduct(a, b);
    SumOfQuotients(x as real, y as real, a as real, b as real);
  }

  lemma SubValue(a: Rat, b: Rat)
    ensures Value(Sub(a, b)) == Value(a) - Value(b)
  {
    AddValue(a, Neg(b));
    NegValue(b);
  }

  lemma MulValue(a: Rat, b: Rat)
    ensures Value(Mul(a, b)) == Value(a) * Value(b)
  {
    RealProduct(a.num, b.num);
    RealProduct(a.den, b.den);
    ProductOfQuotients(a.num as real, b.num as real, a.den as real, b.den as real);
  }

  lemma DivValue(a: Rat, b: Rat)
    requires b.num != 0
    ensures Value(Div(a, b)) * Value(b) == Value(a)
  {
    QuotientOfIntQuotients(a.num, a.den, b.num, b.den);
  }

  lemma QuotientOfIntQuotients(x: int, a: int, y: int, b: int)
    requires a > 0 && b > 0 && y != 0
    ensures var n := if y < 0 then -x * b else x * b;
            var d := if y < 0 then -y * a else y * a;
            d > 0 && (n as real / d as real) * (y as real / b as real) == x as real / a as real
  {
    if y < 0 {
      MulAtLeast(-y, a);
      RealProduct(-x, b);
      RealProduct(-y, a);
    } else {
      MulAtLeast(y, a);
      RealProduct(x, b);
      RealProduct(y, a);
    }
    DivideQuotients(x as real, y as real, a as real, b as real);
  }

  lemma DivideQuotients(x: real, y: real, a: real, b: real)
    requires a > 0.0 && b > 0.0 && y != 0.0
    ensures (x * b) / (y * a) * (y / b) == x / a
  {
  }

  /** Whole numbers add and multiply as integers do. */
  lemma WholeArithmetic(m: int, n: int)
    ensures Add(FromInt(m), FromInt(n)) == FromInt(m + n)
    ensures Mul(FromInt(m), FromInt(n)) == FromInt(m * n)
  {
    NormalizeWhole(m + n);
    NormalizeWhole(m * n);
  }

  lemma NormalizeWhole(n: int)
    ensures Normalize(n, 1) == FromInt(n)
  {
    GcdOne(Abs(n));
    assert n / 1 == n;
  }

  /** A number whose value is whole has denominator 1. */
  lemma WholeNumber(q: Rat, n: int)
    requires Value(q) == n as real
    ensures q == FromInt(n)
  {
    assert q.num == n * q.den by {
      assert q.num as real == n as real * q.den as real;
      RealProduct(n, q.den);
    }
    AbsProduct(n, q.den);
    GcdScale(Abs(n), 1, q.den);
    GcdOne(Abs(n));
  }

  lemma AbsProduct(a: int, b: int)
    requires b > 0
    ensures Abs(a * b) == Abs(a) * b
  {
    if a < 0 {
      assert -(a * b) == (-a) * b;
    }
  }

  // ---------------------------------------------------------------------------
  // Characters and decimal digits
  // ---------------------------------------------------------------------------

  predicate IsDigit(c: char) { '0' <= c <= '9' }

  /** The ASCII letters that the engine's reference pattern matches in either case. */
  predicate IsLetter(c: char) { 'A' <= c <= 'Z' || 'a' <= c <= 'z' }

  predicate AllDigits(s: string) { forall k :: 0 <= k < |s| ==> IsDigit(s[k]) }

  function DigitChar(d: nat): (c: char)
    requires d < 10
    ensures IsDigit(c) && c as int - '0' as int == d
  {
    ('0' as int + d) as char
  }

  /** The natural number a string of decimal digits denotes (leading zeros allowed). */
  function DigitsValue(s: string): nat
    requires AllDigits(s)
  {
    if s == [] then 0
    else DigitsValue(s[..|s| - 1]) * 10 + (s[|s| - 1] as int - '0' as int)
  }

  /** Decimal rendering of a natural number, without leading zeros. */
  function NatToString(n: nat): (s: string)
    ensures |s| > 0 && AllDigits(s)
  {
    if n < 10 then [DigitChar(n)] else NatToString(n / 10) + [DigitChar(n % 10)]
  }

  lemma {:induction false} NatToStringRoundTrip(n: nat)
    ensures DigitsValue(NatToString(n)) == n
  {
    if n >= 10 {
      var s := NatToString(n);
      assert s[..|s| - 1] == NatToString(n / 10);
      NatToStringRoundTrip(n / 10);
    }
  }

  /** Decimal rendering of an integer: a minus sign before a negative one. */
  function IntToString(n: int): (s: string)
  {
    if n < 0 then "-" + NatToString(-n) else NatToString(n)
  }

  /** The string a number becomes when it is substituted into a formula: a
      whole number as its decimal digits, any other as the parenthesised
      quotient of its lowest terms, with the sign of a negative one in front. */
  function RatToString(q: Rat): (s: string)
    ensures |s| > 0
    ensures q.den == 1 <==> s[|s| - 1] != ')'
  {
    if q.den == 1 then IntToString(q.num)
    else if q.num < 0 then "-(" + NatToString(-q.num) + "/" + NatToString(q.den) + ")"
    else "(" + NatToString(q.num) + "/" + NatToString(q.den) + ")"
  }

  // ---------------------------------------------------------------------------
  // Cell values and cells
  // ---------------------------------------------------------------------------

  /** What a cell computes to: a number, text (a literal input or the empty
      value of an unset cell), or an error carrying its message. */
  datatype CellValue = Num(q: Rat) | Text(text: string) | Err(msg: string)

  const ErrorMsg := "#ERROR!"
  const CircMsg := "#CIRC!"

  /** A stored cell: the raw input as written and the value computed from it. */
  datatype Cell = Cell(raw: string, value: CellValue)

  /** A raw input is a formula when it starts with '='. */
  predicate IsFormula(raw: string) { |raw| > 0 && raw[0] == '=' }

  /** The string form of a value: a number's rendering, text as it is, and an
      error as its name followed by its message. */
  function Show(v: CellValue): string
  {
    match v
    case Num(q) => RatToString(q)
    case Text(t) => t
    case Err(m) => "Error: " + m
  }

  // ---------------------------------------------------------------------------
  // Identifiers
  // ---------------------------------------------------------------------------

  function UpperChar(c: char): (u: char)
    ensures 'a' <= c <= 'z' ==> u as int == c as int - 32
    ensures !('a' <= c <= 'z') ==> u == c
  {
    if 'a' <= c <= 'z' then (c as int - 32) as char else c
  }

  /** Identifier normalisation: ASCII lower-case letters become upper case. */
  function Upper(s: string): (u: string)
    ensures |u| == |s|
    ensures forall k :: 0 <= k < |s| ==> u[k] == UpperChar(s[k])
  {
    if s == [] then [] else [UpperChar(s[0])] + Upper(s[1..])
  }

  lemma UpperIdempotent(s: string)
    ensures Upper(Upper(s)) == Upper(s)
  {
    assert forall k :: 0 <= k < |s| ==> UpperChar(UpperChar(s[k])) == UpperChar(s[k]);
  }

  /** What `get` returns for an identifier: the stored value under the
      normalised identifier, or empty text for a cell never set. */
  function Read(cells: map<string, Cell>, id: string): (v: CellValue)
  {
    var key := Upper(id);
    if key in cells then cells[key].value else Text("")
  }

  lemma ReadIgnoresCase(cells: map<string, Cell>, id: string)
    ensures Read(cells, id) == Read(cells, Upper(id))
  {
    UpperIdempotent(id);
  }

  lemma ReadUnset(cells: map<string, Cell>, id: string)
    requires Upper(id) !in cells
    ensures Read(cells, id) == Text("")
  {
  }
}
