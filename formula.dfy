/** Formula evaluation as `parseFormula` performs it.  The body after `=` is
    cut into tokens: letters followed by digits, digits '.' digits, digits,
    one of the six operator and parenthesis characters, or letters, matched
    case-insensitively, leftmost first, with the alternatives tried in that
    order and every character no alternative matches skipped.  Every
    reference token is replaced by the string form of the referenced cell's
    value, the pieces are joined without separators and the result is
    handed to the evaluator.  The reference scan of `updateDependents`, the
    pattern `[A-Z]+\d+` alone, is here too. */
module Formula {
  import opened Values
  import opened Evaluator
  import EvaluatorProperties

  datatype Token =
    | Ref(name: string)      // letters followed by digits: a cell reference
    | Word(text: string)     // letters not followed by a digit
    | Number(text: string)   // digits, or digits '.' digits
    | Symbol(c: char)        // one of + - * / ( )

  predicate IsSymbol(c: char)
  {
    c == '+' || c == '-' || c == '*' || c == '/' || c == '(' || c == ')'
  }

  /** The end of the run of letters that starts at position i. */
  function LetterRun(s: string, i: nat): (j: nat)
    requires i <= |s|
    ensures i <= j <= |s|
    ensures forall k :: i <= k < j ==> IsLetter(s[k])
    ensures j == |s| || !IsLetter(s[j])
    decreases |s| - i
  {
    if i < |s| && IsLetter(s[i]) then LetterRun(s, i + 1) else i
  }

  /** The tokens of s from position i on. */
  function Tokenize(s: string, i: nat): (ts: seq<Token>)
    requires i <= |s|
    decreases |s| - i
  {
    if i == |s| then []
    else if IsLetter(s[i]) then
      var j := LetterRun(s, i);
      var k := DigitRun(s, j);
      if k > j then [Ref(s[i..k])] + Tokenize(s, k)
      else [Word(s[i..j])] + Tokenize(s, j)
    else if IsDigit(s[i]) then
      var j := DigitRun(s, i);
      if j + 1 < |s| && s[j] == '.' && IsDigit(s[j + 1]) then
        var k := DigitRun(s, j + 1);
        [Number(s[i..k])] + Tokenize(s, k)
      else [Number(s[i..j])] + Tokenize(s, j)
    else if IsSymbol(s[i]) then [Symbol(s[i])] + Tokenize(s, i + 1)
    else Tokenize(s, i + 1)
  }

  /** The matches of `[A-Z]+\d+` (case-insensitive) in s from position i on,
      in order and with repetitions. */
  function ScanRefs(s: string, i: nat): (rs: seq<string>)
    requires i <= |s|
    decreases |s| - i
  {
    if i == |s| then []
    else if IsLetter(s[i]) && DigitRun(s, LetterRun(s, i)) > LetterRun(s, i) then
      [s[i..DigitRun(s, LetterRun(s, i))]] + ScanRefs(s, DigitRun(s, LetterRun(s, i)))
    else ScanRefs(s, i + 1)
  }

  /** Every reference token the tokenizer produces names a cell. */
  lemma {:induction false} TokenNames(s: string, i: nat)
    requires i <= |s|
    ensures forall k :: 0 <= k < |Tokenize(s, i)| && Tokenize(s, i)[k].Ref? ==> IsRefName(Tokenize(s, i)[k].name)
    decreases |s| - i
  {
    if i < |s| {
      var ts := Tokenize(s, i);
      var n := Advance(s, i);
      TokenNames(s, n);
      var rest := Tokenize(s, n);
      if IsLetter(s[i]) && DigitRun(s, LetterRun(s, i)) > LetterRun(s, i) {
        MatchIsRef(s, i);
        assert ts == [Ref(s[i..n])] + rest;
      } else if IsLetter(s[i]) || IsDigit(s[i]) || IsSymbol(s[i]) {
        assert ts == [ts[0]] + rest && !ts[0].Ref?;
      } else {
        assert ts == rest;
      }
    }
  }

  /** Every match of the reference scan names a cell. */
  lemma {:induction false} ScanNames(s: string, i: nat)
    requires i <= |s|
    ensures forall k :: 0 <= k < |ScanRefs(s, i)| ==> IsRefName(ScanRefs(s, i)[k])
    decreases |s| - i
  {
    if i < |s| {
      if IsLetter(s[i]) && DigitRun(s, LetterRun(s, i)) > LetterRun(s, i) {
        MatchIsRef(s, i);
        ScanNames(s, DigitRun(s, LetterRun(s, i)));
      } else {
        ScanNames(s, i + 1);
      }
    }
  }

  /** A match starting at a letter, taken up to the end of the digits that
      follow the letters, is a reference name. */
  lemma MatchIsRef(s: string, i: nat)
    requires i < |s| && IsLetter(s[i])
    requires DigitRun(s, LetterRun(s, i)) > LetterRun(s, i)
    ensures IsRefName(s[i..DigitRun(s, LetterRun(s, i))])
  {
    var j := LetterRun(s, i);
    var k := DigitRun(s, j);
    var t := s[i..k];
    LetterRunEnds(t, 0, j - i);
    EvaluatorProperties.DigitRunEnds(t, j - i, k - i);
  }

  /** The leading `=` of a formula starts no match, so the scan of the whole
      raw input in `updateDependents` finds the references of the body that
      `parseFormula` substitutes. */
  lemma FormulaRefs(raw: string)
    requires |raw| > 0 && raw[0] == '='
    ensures ScanRefs(raw, 0) == ScanRefs(raw[1..], 0)
  {
    TailShifted(raw);
    ShiftRefs(raw, raw[1..], 0);
    ScanSkip(raw, 0);
  }

  lemma TailShifted(s: string)
    requires |s| > 0
    ensures Shifted(s, s[1..])
  {
  }

  /** `s` is one character followed by `t`. */
  predicate Shifted(s: string, t: string)
  {
    |s| == |t| + 1 && forall m :: 0 <= m < |t| ==> s[m + 1] == t[m]
  }

  /** Scanning `s` from position i + 1 is scanning `t` from i. */
  lemma {:induction false} ShiftRefs(s: string, t: string, i: nat)
    requires Shifted(s, t) && i <= |t|
    ensures ScanRefs(s, i + 1) == ScanRefs(t, i)
    decreases |t| - i
  {
    if i < |t| {
      var j := LetterRun(t, i);
      var k := DigitRun(t, j);
      if IsLetter(t[i]) && k > j {
        ShiftRefs(s, t, k);
        ShiftLetters(s, t, i);
        ShiftDigits(s, t, j);
        ShiftSlice(s, t, i, k);
        ShiftMatch(s, t, i, j, k);
      } else {
        ShiftRefs(s, t, i + 1);
        ShiftSkip(s, t, i);
      }
    }
  }

  /** The scan of `s` finds at i + 1 the match the scan of `t` finds at
      i, and both resume at corresponding places. */
  lemma ShiftMatch(s: string, t: string, i: nat, j: nat, k: nat)
    requires i < |t| && k + 1 <= |s| && i < j < k <= |t|
    requires IsLetter(t[i]) && j == LetterRun(t, i) && k == DigitRun(t, j)
    requires s[i + 1] == t[i] && LetterRun(s, i + 1) == j + 1 && DigitRun(s, j + 1) == k + 1
    requires s[i + 1..k + 1] == t[i..k]
    requires ScanRefs(s, k + 1) == ScanRefs(t, k)
    ensures ScanRefs(s, i + 1) == ScanRefs(t, i)
  {
    ScanMatch(s, i + 1, k + 1);
    ScanMatch(t, i, k);
  }

  /** Corresponding slices of `s` and `t` are equal. */
  lemma ShiftSlice(s: string, t: string, i: nat, k: nat)
    requires Shifted(s, t) && i <= k <= |t|
    ensures s[i + 1..k + 1] == t[i..k]
  {
    forall m | 0 <= m < k - i
      ensures s[i + 1..k + 1][m] == t[i..k][m]
    {
      assert s[i + 1 + m] == t[i + m];
    }
  }

  /** Both scans skip corresponding characters that start no match. */
  lemma ShiftSkip(s: string, t: string, i: nat)
    requires Shifted(s, t) && i < |t|
    requires !(IsLetter(t[i]) && DigitRun(t, LetterRun(t, i)) > LetterRun(t, i))
    requires ScanRefs(s, i + 2) == ScanRefs(t, i + 1)
    ensures ScanRefs(s, i + 1) == ScanRefs(t, i)
  {
    assert s[i + 1] == t[i];
    ShiftLetters(s, t, i);
    ShiftDigits(s, t, LetterRun(t, i));
    ScanSkip(s, i + 1);
    ScanSkip(t, i);
  }

  lemma {:induction false} ShiftLetters(s: string, t: string, i: nat)
    requires Shifted(s, t) && i <= |t|
    ensures LetterRun(s, i + 1) == LetterRun(t, i) + 1
    decreases |t| - i
  {
    if i < |t| {
      assert s[i + 1] == t[i];
      if IsLetter(t[i]) {
        ShiftLetters(s, t, i + 1);
      }
    }
  }

  lemma {:induction false} ShiftDigits(s: string, t: string, i: nat)
    requires Shifted(s, t) && i <= |t|
    ensures DigitRun(s, i + 1) == DigitRun(t, i) + 1
    decreases |t| - i
  {
    if i < |t| {
      assert s[i + 1] == t[i];
      if IsDigit(t[i]) {
        ShiftDigits(s, t, i + 1);
      }
    }
  }

  /** The scan at a letter that starts a match. */
  lemma ScanMatch(s: string, i: nat, k: nat)
    requires i < |s| && IsLetter(s[i]) && k == DigitRun(s, LetterRun(s, i)) && k > LetterRun(s, i)
    ensures ScanRefs(s, i) == [s[i..k]] + ScanRefs(s, k)
  {
  }

  /** The scan at a character that starts no match. */
  lemma ScanSkip(s: string, i: nat)
    requires i < |s| && !(IsLetter(s[i]) && DigitRun(s, LetterRun(s, i)) > LetterRun(s, i))
    ensures ScanRefs(s, i) == ScanRefs(s, i + 1)
  {
  }

  /** The names of the reference tokens, in order. */
  function Refs(ts: seq<Token>): seq<string>
  {
    if ts == [] then []
    else if ts[0].Ref? then [ts[0].name] + Refs(ts[1..])
    else Refs(ts[1..])
  }

  /** The text a token contributes: a reference is replaced by the string
      form of the value `get` returns for it. */
  function TokenText(cells: map<string, Cell>, t: Token): string
  {
    match t
    case Ref(n) => Show(Read(cells, n))
    case Word(w) => w
    case Number(d) => d
    case Symbol(c) => [c]
  }

  /** The tokens' texts joined without separators. */
  function Substituted(cells: map<string, Cell>, ts: seq<Token>): string
  {
    if ts == [] then [] else TokenText(cells, ts[0]) + Substituted(cells, ts[1..])
  }

  /** The expression text parseFormula hands to the evaluator. */
  function Expression(cells: map<string, Cell>, body: string): string
  {
    Substituted(cells, Tokenize(body, 0))
  }

  /** The value of the formula body `body` against `cells`: the evaluator's
      number, or the #ERROR! error when it fails. */
  function Resolve(cells: map<string, Cell>, body: string): (v: CellValue)
    ensures v.Num? || v == Err(ErrorMsg)
    ensures v.Num? <==> Evaluate(Expression(cells, body)).Some?
  {
    match Evaluate(Expression(cells, body))
    case Some(q) => Num(q)
    case None => Err(ErrorMsg)
  }

  // ---------------------------------------------------------------------------
  // The two scans agree on references
  // ---------------------------------------------------------------------------

  /** Between positions i and j no reference can start. */
  lemma {:induction false} SkipNoLetters(s: string, i: nat, j: nat)
    requires i <= j <= |s|
    requires forall k :: i <= k < j ==> !IsLetter(s[k])
    ensures ScanRefs(s, i) == ScanRefs(s, j)
    decreases j - i
  {
    if i < j {
      SkipNoLetters(s, i + 1, j);
    }
  }

  /** Inside a run of letters that no digit follows, no reference starts. */
  lemma {:induction false} SkipWord(s: string, i: nat, j: nat)
    requires i <= j <= |s|
    requires forall k :: i <= k < j ==> IsLetter(s[k])
    requires j == |s| || !IsLetter(s[j])
    requires DigitRun(s, j) == j
    ensures ScanRefs(s, i) == ScanRefs(s, j)
    decreases j - i
  {
    if i < j {
      assert LetterRun(s, i) == j by { LetterRunEnds(s, i, j); }
      SkipWord(s, i + 1, j);
    }
  }

  lemma {:induction false} LetterRunEnds(s: string, i: nat, j: nat)
    requires i <= j <= |s|
    requires forall k :: i <= k < j ==> IsLetter(s[k])
    requires j == |s| || !IsLetter(s[j])
    ensures LetterRun(s, i) == j
    decreases j - i
  {
    if i < j {
      LetterRunEnds(s, i + 1, j);
    }
  }

  /** The references parseFormula substitutes are exactly the matches
      updateDependents records, in the same order. */
  lemma {:induction false} TokenRefsAgree(s: string, i: nat)
    requires i <= |s|
    ensures Refs(Tokenize(s, i)) == ScanRefs(s, i)
    decreases |s| - i
  {
    if i < |s| {
      ScanStep(s, i);
      TokenRefsAgree(s, Advance(s, i));
    }
  }

  /** Where both scans resume after the character at position i: after a
      reference or a word, after a number, or at the next character. */
  function Advance(s: string, i: nat): (j: nat)
    requires i < |s|
    ensures i < j <= |s|
  {
    if IsLetter(s[i]) then
      var j := LetterRun(s, i);
      var k := DigitRun(s, j);
      if k > j then k else j
    else if IsDigit(s[i]) then
      var j := DigitRun(s, i);
      if j + 1 < |s| && s[j] == '.' && IsDigit(s[j + 1]) then DigitRun(s, j + 1) else j
    else i + 1
  }

  /** The reference both scans find at position i, if any. */
  function FoundAt(s: string, i: nat): seq<string>
    requires i < |s|
  {
    if IsLetter(s[i]) && DigitRun(s, LetterRun(s, i)) > LetterRun(s, i) then
      [s[i..DigitRun(s, LetterRun(s, i))]]
    else []
  }

  /** One step of both scans finds the same reference, if any, and resumes
      at the same place. */
  lemma ScanStep(s: string, i: nat)
    requires i < |s|
    ensures Refs(Tokenize(s, i)) == FoundAt(s, i) + Refs(Tokenize(s, Advance(s, i)))
    ensures ScanRefs(s, i) == FoundAt(s, i) + ScanRefs(s, Advance(s, i))
  {
    if IsLetter(s[i]) {
      LetterStep(s, i);
    } else if IsDigit(s[i]) {
      NumberStep(s, i);
    } else {
      OtherStep(s, i);
    }
  }

  /** ScanStep at a digit. */
  lemma NumberStep(s: string, i: nat)
    requires i < |s| && IsDigit(s[i])
    ensures Refs(Tokenize(s, i)) == Refs(Tokenize(s, Advance(s, i)))
    ensures ScanRefs(s, i) == ScanRefs(s, Advance(s, i))
  {
    DigitStep(s, i);
    SkipNoLetters(s, i, Advance(s, i));
  }

  /** Both scans at a letter: a reference is the same match in both, and a
      word without digits is no reference for either. */
  lemma LetterStep(s: string, i: nat)
    requires i < |s| && IsLetter(s[i])
    ensures var j := LetterRun(s, i);
            var k := DigitRun(s, j);
            var next := if k > j then k else j;
            var found := if k > j then [s[i..k]] else [];
            Refs(Tokenize(s, i)) == found + Refs(Tokenize(s, next)) &&
            ScanRefs(s, i) == found + ScanRefs(s, next)
  {
    var j := LetterRun(s, i);
    if DigitRun(s, j) == j {
      SkipWord(s, i, j);
    }
  }

  /** Any other character starts no reference for either scan. */
  lemma OtherStep(s: string, i: nat)
    requires i < |s| && !IsLetter(s[i]) && !IsDigit(s[i])
    ensures Refs(Tokenize(s, i)) == Refs(Tokenize(s, i + 1))
    ensures ScanRefs(s, i) == ScanRefs(s, i + 1)
  {
    if IsSymbol(s[i]) {
      var ts := Tokenize(s, i + 1);
      assert Tokenize(s, i) == [Symbol(s[i])] + ts;
      assert ([Symbol(s[i])] + ts)[1..] == ts;
    }
  }

  /** The tokenizer at a digit reads a number and no reference. */
  lemma DigitStep(s: string, i: nat)
    requires i < |s| && IsDigit(s[i])
    ensures var j := DigitRun(s, i);
            var k := if j + 1 < |s| && s[j] == '.' && IsDigit(s[j + 1]) then DigitRun(s, j + 1) else j;
            Refs(Tokenize(s, i)) == Refs(Tokenize(s, k)) &&
            forall m :: i <= m < k ==> !IsLetter(s[m])
  {
  }

  // ---------------------------------------------------------------------------
  // Evaluation reads only the referenced cells
  // ---------------------------------------------------------------------------

  lemma {:induction false} SubstitutedLocal(c1: map<string, Cell>, c2: map<string, Cell>, ts: seq<Token>)
    requires forall k :: 0 <= k < |Refs(ts)| ==> Read(c1, Refs(ts)[k]) == Read(c2, Refs(ts)[k])
    ensures Substituted(c1, ts) == Substituted(c2, ts)
  {
    if ts != [] {
      if ts[0].Ref? {
        assert Refs(ts) == [ts[0].name] + Refs(ts[1..]);
        assert Read(c1, ts[0].name) == Read(c2, ts[0].name) by {
          assert Refs(ts)[0] == ts[0].name;
        }
        assert forall k :: 0 <= k < |Refs(ts[1..])| ==> Refs(ts[1..])[k] == Refs(ts)[k + 1];
      } else {
        assert Refs(ts) == Refs(ts[1..]);
      }
      SubstitutedLocal(c1, c2, ts[1..]);
    }
  }

  /** A formula's value depends only on the values of the cells its raw
      input names: two sheets that agree on those give the same value. */
  lemma ResolveLocal(c1: map<string, Cell>, c2: map<string, Cell>, body: string)
    requires forall k :: 0 <= k < |ScanRefs(body, 0)| ==>
               Read(c1, ScanRefs(body, 0)[k]) == Read(c2, ScanRefs(body, 0)[k])
    ensures Resolve(c1, body) == Resolve(c2, body)
  {
    TokenRefsAgree(body, 0);
    SubstitutedLocal(c1, c2, Tokenize(body, 0));
  }

  // ---------------------------------------------------------------------------
  // A single reference
  // ---------------------------------------------------------------------------

  /** A reference as the patterns match it: letters, then digits. */
  predicate IsRefName(r: string)
  {
    0 < LetterRun(r, 0) < |r| && DigitRun(r, LetterRun(r, 0)) == |r|
  }

  lemma OneRef(cells: map<string, Cell>, r: string)
    requires IsRefName(r)
    ensures Tokenize(r, 0) == [Ref(r)]
    ensures Expression(cells, r) == Show(Read(cells, r))
  {
    assert r[0..|r|] == r;
    assert Tokenize(r, 0) == [Ref(r)] + Tokenize(r, |r|);
    assert Substituted(cells, [Ref(r)]) == Show(Read(cells, r)) + Substituted(cells, []);
  }

  /** A formula that is one reference to a number takes that number: the
      substituted form of a number reads back exactly. */
  lemma ReferenceToNumber(cells: map<string, Cell>, r: string, q: Rat)
    requires IsRefName(r) && Read(cells, r) == Num(q)
    ensures Resolve(cells, r) == Num(q)
  {
    OneRef(cells, r);
    EvaluatorProperties.NumberRoundTrip(q);
  }

  /** A formula that is one reference to an unset cell is an error: the
      empty text leaves nothing to evaluate. */
  lemma ReferenceToUnset(cells: map<string, Cell>, r: string)
    requires IsRefName(r) && Upper(r) !in cells
    ensures Resolve(cells, r) == Err(ErrorMsg)
  {
    OneRef(cells, r);
    EvaluatorProperties.EmptyBody();
  }

  /** A formula that is one reference to an error is an error: the error's
      string form is not arithmetic. */
  lemma ReferenceToError(cells: map<string, Cell>, r: string)
    requires IsRefName(r) && Read(cells, r).Err?
    ensures Resolve(cells, r) == Err(ErrorMsg)
  {
    OneRef(cells, r);
    var e := Expression(cells, r);
    assert e == "Error: " + Read(cells, r).msg;
    assert !IsExprChar(e[0]);
  }

  // ---------------------------------------------------------------------------
  // Bodies without references
  // ---------------------------------------------------------------------------

  /** Characters of an arithmetic body written without references. */
  predicate IsPlainChar(c: char)
  {
    IsDigit(c) || IsSymbol(c) || c == ' '
  }

  function WithoutSpaces(s: string): (r: string)
    ensures forall k :: 0 <= k < |r| ==> r[k] != ' '
  {
    if s == [] then []
    else if s[0] == ' ' then WithoutSpaces(s[1..])
    else [s[0]] + WithoutSpaces(s[1..])
  }

  /** Digits, operators, parentheses and spaces reach the evaluator as
      written, less the spaces. */
  lemma {:induction false} PlainBody(cells: map<string, Cell>, s: string, i: nat)
    requires i <= |s|
    requires forall k :: i <= k < |s| ==> IsPlainChar(s[k])
    ensures Substituted(cells, Tokenize(s, i)) == WithoutSpaces(s[i..])
    decreases |s| - i
  {
    if i < |s| {
      if IsDigit(s[i]) {
        var j := DigitRun(s, i);
        PlainDigits(cells, s, i);
        PlainBody(cells, s, j);
        DigitsKept(s, i, j);
      } else {
        PlainOther(cells, s, i);
        OtherKept(s, i);
        PlainBody(cells, s, i + 1);
      }
    }
  }

  /** A run of digits is one number token, passed on as written. */
  lemma PlainDigits(cells: map<string, Cell>, s: string, i: nat)
    requires i < |s| && IsDigit(s[i])
    requires forall k :: i <= k < |s| ==> IsPlainChar(s[k])
    ensures Substituted(cells, Tokenize(s, i)) == s[i..DigitRun(s, i)] + Substituted(cells, Tokenize(s, DigitRun(s, i)))
  {
    var j := DigitRun(s, i);
    assert j == |s| || s[j] != '.';
    assert Tokenize(s, i) == [Number(s[i..j])] + Tokenize(s, j);
    SubstitutedCons(cells, Number(s[i..j]), Tokenize(s, j));
  }

  /** An operator or parenthesis is passed on; a space is skipped. */
  lemma PlainOther(cells: map<string, Cell>, s: string, i: nat)
    requires i < |s| && IsPlainChar(s[i]) && !IsDigit(s[i])
    ensures Substituted(cells, Tokenize(s, i)) == (if s[i] == ' ' then [] else [s[i]]) + Substituted(cells, Tokenize(s, i + 1))
  {
    if s[i] != ' ' {
      assert Tokenize(s, i) == [Symbol(s[i])] + Tokenize(s, i + 1);
      SubstitutedCons(cells, Symbol(s[i]), Tokenize(s, i + 1));
    }
  }

  lemma OtherKept(s: string, i: nat)
    requires i < |s|
    ensures WithoutSpaces(s[i..]) == (if s[i] == ' ' then [] else [s[i]]) + WithoutSpaces(s[i + 1..])
  {
    assert s[i..][1..] == s[i + 1..];
  }

  lemma SubstitutedCons(cells: map<string, Cell>, t: Token, ts: seq<Token>)
    ensures Substituted(cells, [t] + ts) == TokenText(cells, t) + Substituted(cells, ts)
  {
    assert ([t] + ts)[1..] == ts;
  }

  lemma {:induction false} DigitsKept(s: string, i: nat, j: nat)
    requires i <= j <= |s|
    requires forall k :: i <= k < j ==> IsDigit(s[k])
    ensures WithoutSpaces(s[i..]) == s[i..j] + WithoutSpaces(s[j..])
    decreases j - i
  {
    if i < j {
      assert s[i..][1..] == s[i + 1..];
      DigitsKept(s, i + 1, j);
    }
  }

  lemma NoSpaces(s: string)
    requires forall k :: 0 <= k < |s| ==> s[k] != ' '
    ensures WithoutSpaces(s) == s
  {
  }

  /** `=(10+20)*5` gives 150. */
  lemma GroupedExample(cells: map<string, Cell>)
    ensures Resolve(cells, "(10+20)*5") == Num(FromInt(150))
  {
    var s := "(10+20)*5";
    assert Expression(cells, s) == s by {
      assert forall k :: 0 <= k < |s| ==> IsPlainChar(s[k]) && s[k] != ' ';
      PlainBody(cells, s, 0);
      NoSpaces(s);
      assert s[0..] == s;
    }
    EvaluatorProperties.GroupedExample();
  }

  /** `=100/10` gives 10. */
  lemma QuotientExample(cells: map<string, Cell>)
    ensures Resolve(cells, "100/10") == Num(FromInt(10))
  {
    var s := "100/10";
    assert Expression(cells, s) == s by {
      assert forall k :: 0 <= k < |s| ==> IsPlainChar(s[k]) && s[k] != ' ';
      PlainBody(cells, s, 0);
      NoSpaces(s);
      assert s[0..] == s;
    }
    EvaluatorProperties.QuotientExample();
  }

  /** A dangling operator, as in `=10 + `, is an error. */
  lemma TrailingOperatorBody(cells: map<string, Cell>)
    ensures Resolve(cells, "10 + ") == Err(ErrorMsg)
  {
    SpacedBody(cells);
    EvaluatorProperties.TrailingOperator("10", '+');
  }

  /** The text of `=10 + ` reaches the evaluator as `10+`. */
  lemma SpacedBody(cells: map<string, Cell>)
    ensures Expression(cells, "10 + ") == "10" + ['+']
  {
    var s := "10 + ";
    assert forall k :: 0 <= k < |s| ==> IsPlainChar(s[k]);
    PlainBody(cells, s, 0);
    assert s[0..] == s;
    SpacedText(s);
  }

  lemma SpacedText(s: string)
    requires s == "10 + "
    ensures WithoutSpaces(s) == "10" + ['+']
  {
    assert s[0..] == s && s[..2] == "10";
    DigitsKept(s, 0, 2);
    TrailingSpaces(s[2..]);
  }

  /** The spaces around the `+` of `=10 + ` are dropped. */
  lemma TrailingSpaces(t: string)
    requires t == [' ', '+', ' ']
    ensures WithoutSpaces(t) == ['+']
  {
    assert t[1..] == ['+', ' '] && t[2..] == [' '];
    assert WithoutSpaces([' ']) == [];
  }

  /** The empty formula `=` is an error. */
  lemma EmptyFormula(cells: map<string, Cell>)
    ensures Resolve(cells, "") == Err(ErrorMsg)
  {
    EvaluatorProperties.EmptyBody();
  }

  /** The tokens of `A1 + B1`: two references around the `+`, the spaces
      skipped; the reference scan of `=A1 + B1` finds the same two names. */
  lemma SumTokens()
    ensures Tokenize("A1 + B1", 0) == [Ref("A1"), Symbol('+'), Ref("B1")]
    ensures ScanRefs("=A1 + B1", 0) == ["A1", "B1"]
  {
    var s := "A1 + B1";
    assert LetterRun(s, 5) == 6 && DigitRun(s, 6) == 7 && s[5..7] == "B1";
    assert Tokenize(s, 4) == [Ref("B1")] by {
      assert Tokenize(s, 5) == [Ref("B1")] + Tokenize(s, 7);
    }
    assert Tokenize(s, 2) == [Symbol('+'), Ref("B1")] by {
      assert Tokenize(s, 3) == [Symbol('+')] + Tokenize(s, 4);
    }
    assert LetterRun(s, 0) == 1 && DigitRun(s, 1) == 2 && s[0..2] == "A1";
    assert Tokenize(s, 0) == [Ref("A1")] + Tokenize(s, 2);
    assert Refs(Tokenize(s, 0)) == ["A1", "B1"] by {
      var ts := Tokenize(s, 0);
      assert ts[1..] == [Symbol('+'), Ref("B1")] && ts[2..] == [Ref("B1")];
      assert Refs([Ref("B1")]) == ["B1"];
    }
    TokenRefsAgree(s, 0);
    assert "=A1 + B1"[1..] == s;
    FormulaRefs("=A1 + B1");
  }

  /** `=A1 + B1` with `30` in A1 and `20` in B1 is 50: the texts are put in
      place of the references and `30+20` is evaluated. */
  lemma SumExample(cells: map<string, Cell>)
    requires Read(cells, "A1") == Text("30") && Read(cells, "B1") == Text("20")
    ensures Resolve(cells, "A1 + B1") == Num(FromInt(50))
  {
    SumText(cells);
    EvaluatorProperties.SumExample();
  }

  /** The expression `=A1 + B1` hands to the evaluator when A1 holds `30`
      and B1 holds `20`. */
  lemma SumText(cells: map<string, Cell>)
    requires Read(cells, "A1") == Text("30") && Read(cells, "B1") == Text("20")
    ensures Expression(cells, "A1 + B1") == "30+20"
  {
    SumTokens();
    SubstitutedSum(cells, "A1", "B1");
    assert "30" + ['+'] + "20" == "30+20";
  }

  /** Two references joined by `+`: the two cells' texts around it. */
  lemma SubstitutedSum(cells: map<string, Cell>, a: string, b: string)
    ensures Substituted(cells, [Ref(a), Symbol('+'), Ref(b)]) == Show(Read(cells, a)) + ['+'] + Show(Read(cells, b))
  {
    var ts := [Ref(a), Symbol('+'), Ref(b)];
    assert [Ref(b)][1..] == [];
    assert Substituted(cells, [Ref(b)]) == Show(Read(cells, b));
    assert ts[1..][1..] == [Ref(b)];
    assert Substituted(cells, ts[1..]) == ['+'] + Show(Read(cells, b));
  }
}
