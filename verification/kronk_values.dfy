/** What KRONK texts are worth, said of the texts alone: arithmetic, precedence and comparison as they are written, and what a
    line of each kind does. */
module KronkValues {
  import opened Options
  import opened KronkSyntax
  import opened KronkProgram
  import opened Kronk

  /** What a text is worth when it is read as an expression from its start. */
  function ValueOf(t: string, vs: Variables): Option<int> { Worth(ParseExpr(t, 0), vs) }

  /** A text that stands for a tree as a term or a factor stands for it as a whole expression too. */
  lemma AnyLevel(e: Expr, level: Level)
    requires Named(e)
    ensures ParseExpr(Text(e, level), 0) == Ok(e, |Text(e, level)|)
  {
    var s := Text(e, level);
    assert s[0..|s|] == s;
    TextRead(s, 0, e, level);
    TextStarts(s, 0, e, level);
    hide Text;
    if level == InFactor { Lifted(s, 0, e, |s|, Whole); }
    if level == InTerm { FromTerm(s, 0, e, |s|); }
    assert ExprRest(s, e, |s|) == Ok(e, |s|);
  }

  lemma ValueIs(e: Expr, level: Level, vs: Variables)
    requires Named(e)
    ensures ValueOf(Text(e, level), vs) == Eval(e, vs)
  {
    AnyLevel(e, level);
  }

  /** Sums, differences, products and negations of texts that have values, without a parenthesis more than needed: products go
      before sums, and what stands further left goes first. */
  lemma Calculates(a: Expr, b: Expr, vs: Variables, x: int, y: int)
    requires Named(a) && Named(b) && ValueOf(Text(a, Whole), vs) == Some(x) && ValueOf(Text(b, Whole), vs) == Some(y)
    ensures ValueOf(Text(a, Whole) + "+" + Text(b, InTerm), vs) == Some(x + y)
    ensures ValueOf(Text(a, Whole) + "-" + Text(b, InTerm), vs) == Some(x - y)
    ensures ValueOf(Text(a, InTerm) + "*" + Text(b, InFactor), vs) == Some(x * y)
    ensures ValueOf("-" + Text(a, InFactor), vs) == Some(-x)
  {
    PairTexts(a, b);
    hide ValueOf, Text;
    ValueIs(a, Whole, vs);
    ValueIs(b, Whole, vs);
    ValueIs(Add(a, b), Whole, vs);
    ValueIs(Sub(a, b), Whole, vs);
    ValueIs(Mul(a, b), Whole, vs);
    ValueIs(Neg(a), Whole, vs);
  }

  lemma PairTexts(a: Expr, b: Expr)
    ensures Text(Add(a, b), Whole) == Text(a, Whole) + "+" + Text(b, InTerm) && Text(Sub(a, b), Whole) == Text(a, Whole) + "-" + Text(b, InTerm)
    ensures Text(Mul(a, b), Whole) == Text(a, InTerm) + "*" + Text(b, InFactor)
    ensures Text(Div(a, b), Whole) == Text(a, InTerm) + "/" + Text(b, InFactor)
    ensures Text(Neg(a), Whole) == "-" + Text(a, InFactor)
  {
  }

  /** A quotient is cut off towards zero, and there is none by zero. */
  lemma Divides(a: Expr, b: Expr, vs: Variables, x: int, y: int)
    requires Named(a) && Named(b) && ValueOf(Text(a, Whole), vs) == Some(x) && ValueOf(Text(b, Whole), vs) == Some(y)
    ensures var v := ValueOf(Text(a, InTerm) + "/" + Text(b, InFactor), vs);
      if y == 0 then v == None
      else v.Some? && var r := x - v.value * y;
        (if y > 0 then -y < r < y else y < r < -y) && (x >= 0 ==> r >= 0) && (x <= 0 ==> r <= 0)
  {
    ValueIs(a, Whole, vs);
    ValueIs(b, Whole, vs);
    ValueIs(Div(a, b), Whole, vs);
    hide ValueOf;
    if y != 0 { QuotientTruncates(x, y); }
  }

  /** Without a value on either side there is none. */
  lemma NothingToCalculate(a: Expr, b: Expr, vs: Variables)
    requires Named(a) && Named(b) && (ValueOf(Text(a, Whole), vs) == None || ValueOf(Text(b, Whole), vs) == None)
    ensures ValueOf(Text(a, Whole) + "+" + Text(b, InTerm), vs) == None
    ensures ValueOf(Text(a, Whole) + "-" + Text(b, InTerm), vs) == None
    ensures ValueOf(Text(a, InTerm) + "*" + Text(b, InFactor), vs) == None
    ensures ValueOf(Text(a, InTerm) + "/" + Text(b, InFactor), vs) == None
    ensures ValueOf(Text(a, Whole), vs) == None ==> ValueOf("-" + Text(a, InFactor), vs) == None
  {
    PairTexts(a, b);
    hide ValueOf, Text;
    ValueIs(a, Whole, vs);
    ValueIs(b, Whole, vs);
    ValueIs(Add(a, b), Whole, vs);
    ValueIs(Sub(a, b), Whole, vs);
    ValueIs(Mul(a, b), Whole, vs);
    ValueIs(Div(a, b), Whole, vs);
    ValueIs(Neg(a), Whole, vs);
  }

  /** How a tree is written does not change what it is worth. */
  lemma SameValue(e: Expr, vs: Variables, level: Level)
    requires Named(e)
    ensures ValueOf(Text(e, level), vs) == ValueOf(Text(e, Whole), vs)
  {
    ValueIs(e, level, vs);
    ValueIs(e, Whole, vs);
  }

  /** A letter stands for its variable, in either case. */
  lemma LetterValue(c: char, vs: Variables)
    ensures 'A' <= c <= 'Z' ==> ValueOf([c], vs) == Some(vs[c as int - 'A' as int])
    ensures 'a' <= c <= 'z' ==> ValueOf([c], vs) == Some(vs[c as int - 'a' as int])
  {
    if IsLetter(c) {
      assert ParseFactor([c], 0) == Ok(Var(VarIndex(c)), 1);
      Lifted([c], 0, Var(VarIndex(c)), 1, Whole);
      assert ExprRest([c], Var(VarIndex(c)), 1) == Ok(Var(VarIndex(c)), 1);
    }
  }

  predicate AllDigits(t: string) { forall i :: 0 <= i < |t| ==> '0' <= t[i] <= '9' }

  /** Digits are decimal. */
  lemma DigitsValue(t: string, c: char, vs: Variables)
    requires AllDigits(t) && '0' <= c <= '9'
    ensures ValueOf([c], vs) == Some(c as int - '0' as int)
    ensures t != [] ==> ValueOf(t, vs).Some? && ValueOf(t + [c], vs) == Some(10 * ValueOf(t, vs).value + (c as int - '0' as int))
  {
    NumberValue([c], vs);
    assert Digits([c], 0, 0) == Digits([c], 1, c as int - '0' as int);
    if t != [] {
      NumberValue(t, vs);
      NumberValue(t + [c], vs);
      DigitsAfter(t, c, 0, 0);
    }
  }

  lemma NumberValue(t: string, vs: Variables)
    requires AllDigits(t) && t != []
    ensures Digits(t, 0, 0).1 == |t| && ValueOf(t, vs) == Some(Digits(t, 0, 0).0)
  {
    DigitsToEnd(t, 0, 0);
    assert IsDigit(t[0]) && Skip(t, 0) == 0;
    var e := Num(Digits(t, 0, 0).0);
    assert ParseFactor(t, 0) == Ok(e, |t|);
    Lifted(t, 0, e, |t|, Whole);
    assert ExprRest(t, e, |t|) == Ok(e, |t|);
  }

  lemma {:induction false} DigitsToEnd(t: string, p: nat, acc: nat)
    requires AllDigits(t) && p <= |t|
    ensures Digits(t, p, acc).1 == |t|
    decreases |t| - p
  {
    if p < |t| { DigitsToEnd(t, p + 1, acc * 10 + Digit(t[p])); }
  }

  lemma {:induction false} DigitsAfter(t: string, c: char, p: nat, acc: nat)
    requires AllDigits(t) && IsDigit(c) && p <= |t|
    ensures Digits(t + [c], p, acc).0 == 10 * Digits(t, p, acc).0 + (c as int - '0' as int)
    decreases |t| - p
  {
    var u := t + [c];
    if p < |t| {
      assert u[p] == t[p];
      DigitsAfter(t, c, p + 1, acc * 10 + Digit(t[p]));
    } else {
      assert u[p] == c;
      assert Digits(u, p, acc) == Digits(u, p + 1, acc * 10 + Digit(c)) == (acc * 10 + Digit(c), p + 1);
    }
  }

  /** A space or a tab before an expression makes no difference. */
  lemma SpaceBefore(c: char, e: Expr, vs: Variables)
    requires Named(e) && (c == ' ' || c == '\t')
    ensures ValueOf([c] + Text(e, Whole), vs) == ValueOf(Text(e, Whole), vs)
  {
    var t := Text(e, Whole);
    var s := [c] + t;
    assert s[1..1 + |t|] == t;
    TextRead(s, 1, e, Whole);
    TextStarts(s, 1, e, Whole);
    ValueIs(e, Whole, vs);
    hide Text;
    assert Skip(s, 0) == 1;
    assert ExprRest(s, e, |s|) == Ok(e, |s|);
  }

  /** Where no digit, letter, minus or parenthesis stands there is no expression. */
  lemma NoExpression(c: char, t: string, vs: Variables)
    requires !('0' <= c <= '9' || 'A' <= c <= 'Z' || 'a' <= c <= 'z' || c in "-( \t")
    ensures ValueOf("", vs) == None && ValueOf([c] + t, vs) == None
  {
    assert ParseFactor("", 0) == Bad && ParseTerm("", 0) == Bad;
    var s := [c] + t;
    assert Skip(s, 0) == 0 && s[0] == c;
    assert ParseFactor(s, 0) == Bad && ParseTerm(s, 0) == Bad;
  }
}
