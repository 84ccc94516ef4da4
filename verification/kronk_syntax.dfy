/** Expressions of the KRONK language: the tree a text stands for, and what the tree is worth. The grammar
    is that of kernel/kronk.c:53-124; numbers are mathematical integers. */
module KronkSyntax {
  import opened Options

  datatype Expr =
    | Num(n: nat)
    | Var(index: nat)
    | Neg(e: Expr)
    | Add(a: Expr, b: Expr)
    | Sub(a: Expr, b: Expr)
    | Mul(a: Expr, b: Expr)
    | Div(a: Expr, b: Expr)

  const VARIABLES := 26

  type Variables = vs: seq<int> | |vs| == VARIABLES witness seq(26, _ => 0)

  /** Division as C does it: towards zero. */
  function Quotient(a: int, b: int): int
    requires b != 0
  {
    if a >= 0 then (if b > 0 then a / b else -(a / -b)) else (if b > 0 then -(-a / b) else -a / -b)
  }

  /** Division leaves a remainder smaller than the divisor, with the sign of the dividend. */
  lemma QuotientTruncates(a: int, b: int)
    requires b != 0
    ensures var r := a - Quotient(a, b) * b;
      && (if b > 0 then -b < r < b else b < r < -b) && (a >= 0 ==> r >= 0) && (a <= 0 ==> r <= 0)
  {
    var m, n := if a >= 0 then a else -a, if b > 0 then b else -b;
    var q := m / n;
    assert Quotient(a, b) == if (a >= 0) == (b > 0) then q else -q;
    hide Quotient;
    Divided(m, n);
    Signs(q, n);
  }

  lemma Divided(m: nat, n: nat)
    requires n > 0
    ensures 0 <= m - m / n * n < n
  {
  }

  lemma Signs(q: int, n: int)
    ensures -q * n == -(q * n) && q * -n == -(q * n) && -q * -n == q * n
  {
  }

  /** The value of a tree; none if it divides by zero. */
  function Eval(e: Expr, vs: Variables): Option<int> {
    match e
    case Num(n) => Some(n)
    case Var(i) => if i < VARIABLES then Some(vs[i]) else None
    case Neg(a) => (match Eval(a, vs) case Some(v) => Some(-v) case None => None)
    case Add(a, b) => Both(Eval(a, vs), Eval(b, vs), (x, y) => Some(x + y))
    case Sub(a, b) => Both(Eval(a, vs), Eval(b, vs), (x, y) => Some(x - y))
    case Mul(a, b) => Both(Eval(a, vs), Eval(b, vs), (x, y) => Some(x * y))
    case Div(a, b) => Both(Eval(a, vs), Eval(b, vs), (x, y) => if y == 0 then None else Some(Quotient(x, y)))
  }

  function Both(a: Option<int>, b: Option<int>, f: (int, int) -> Option<int>): Option<int> {
    if a.Some? && b.Some? then f(a.value, b.value) else None
  }

  // ---------------------------------------------------------------- characters

  /** The character at p; past the end, the terminating zero. */
  function CharAt(s: string, p: nat): char { if p < |s| then s[p] else '\0' }

  predicate IsSpace(c: char) { c == ' ' || c == '\t' }
  predicate IsDigit(c: char) { '0' <= c <= '9' }
  predicate IsUpper(c: char) { 'A' <= c <= 'Z' }
  predicate IsLower(c: char) { 'a' <= c <= 'z' }
  predicate IsLetter(c: char) { IsUpper(c) || IsLower(c) }

  function Digit(c: char): nat
    requires IsDigit(c)
  {
    c as int - '0' as int
  }

  function VarIndex(c: char): (i: nat)
    requires IsLetter(c)
    ensures i < VARIABLES
  {
    if IsLower(c) then c as int - 'a' as int else c as int - 'A' as int
  }

  /** The first position from p on that holds no space. */
  function Skip(s: string, p: nat): (q: nat)
    requires p <= |s|
    ensures p <= q <= |s| && !IsSpace(CharAt(s, q))
    decreases |s| - p
  {
    if IsSpace(CharAt(s, p)) then Skip(s, p + 1) else p
  }

  // ---------------------------------------------------------------- parsing

  /** A value read, and where reading stopped. */
  datatype Parsed<T> = Ok(tree: T, pos: nat) | Bad

  /** The digits from p on, continuing a number begun as acc. */
  function Digits(s: string, p: nat, acc: nat): (r: (nat, nat))
    requires p <= |s|
    ensures p <= r.1 <= |s| && (IsDigit(CharAt(s, p)) ==> p < r.1)
    decreases |s| - p
  {
    if p < |s| && IsDigit(s[p]) then Digits(s, p + 1, acc * 10 + Digit(s[p])) else (acc, p)
  }

  function ParseFactor(s: string, p: nat): (r: Parsed<Expr>)
    requires p <= |s|
    ensures r.Ok? ==> p < r.pos <= |s|
    decreases |s| - p, 0
  {
    var q := Skip(s, p);
    var c := CharAt(s, q);
    if q == |s| then Bad
    else if c == '(' then
      match ParseExpr(s, q + 1)
      case Bad => Bad
      case Ok(e, r) =>
        var t := Skip(s, r);
        Ok(e, if CharAt(s, t) == ')' && t < |s| then t + 1 else t)
    else if c == '-' then
      match ParseFactor(s, q + 1)
      case Bad => Bad
      case Ok(e, r) => Ok(Neg(e), r)
    else if IsDigit(c) then
      var d := Digits(s, q, 0);
      Ok(Num(d.0), d.1)
    else if IsLetter(c) then Ok(Var(VarIndex(c)), q + 1)
    else Bad
  }

  /** The products and quotients that follow e. */
  function TermRest(s: string, e: Expr, p: nat): (r: Parsed<Expr>)
    requires p <= |s|
    ensures r.Ok? ==> p <= r.pos <= |s|
    decreases |s| - p, 1
  {
    var q := Skip(s, p);
    if q < |s| && (s[q] == '*' || s[q] == '/') then
      match ParseFactor(s, q + 1)
      case Bad => Bad
      case Ok(b, r) => TermRest(s, if s[q] == '*' then Mul(e, b) else Div(e, b), r)
    else Ok(e, q)
  }

  function ParseTerm(s: string, p: nat): (r: Parsed<Expr>)
    requires p <= |s|
    ensures r.Ok? ==> p < r.pos <= |s|
    decreases |s| - p, 1
  {
    match ParseFactor(s, p)
    case Bad => Bad
    case Ok(e, r) => TermRest(s, e, r)
  }

  /** The sums and differences that follow e. */
  function ExprRest(s: string, e: Expr, p: nat): (r: Parsed<Expr>)
    requires p <= |s|
    ensures r.Ok? ==> p <= r.pos <= |s|
    decreases |s| - p, 2
  {
    var q := Skip(s, p);
    if q < |s| && (s[q] == '+' || s[q] == '-') then
      match ParseTerm(s, q + 1)
      case Bad => Bad
      case Ok(b, r) => ExprRest(s, if s[q] == '+' then Add(e, b) else Sub(e, b), r)
    else Ok(e, q)
  }

  function ParseExpr(s: string, p: nat): (r: Parsed<Expr>)
    requires p <= |s|
    ensures r.Ok? ==> p < r.pos <= |s|
    decreases |s| - p, 2
  {
    match ParseTerm(s, Skip(s, p))
    case Bad => Bad
    case Ok(e, r) => ExprRest(s, e, r)
  }

  // ---------------------------------------------------------------- printing

  function Decimal(n: nat): string
    decreases n
  {
    if n < 10 then [Numeral(n)] else Decimal(n / 10) + [Numeral(n % 10)]
  }

  function Numeral(d: nat): (c: char)
    requires d < 10
    ensures IsDigit(c) && Digit(c) == d
  {
    ('0' as int + d) as char
  }

  /** Where a text stands: as a whole expression, as a term of one, or as a factor of a term. */
  datatype Level = Whole | InTerm | InFactor

  /** A tree as text, with parentheses only where the text would otherwise be read as another tree. */
  function Text(e: Expr, level: Level): string {
    match e
    case Num(n) => Decimal(n)
    case Var(i) => if i < VARIABLES then [('A' as int + i) as char] else ""
    case Neg(a) => "-" + Text(a, InFactor)
    case Add(a, b) => Enclosed(level != Whole, Text(a, Whole) + "+" + Text(b, InTerm))
    case Sub(a, b) => Enclosed(level != Whole, Text(a, Whole) + "-" + Text(b, InTerm))
    case Mul(a, b) => Enclosed(level == InFactor, Text(a, InTerm) + "*" + Text(b, InFactor))
    case Div(a, b) => Enclosed(level == InFactor, Text(a, InTerm) + "/" + Text(b, InFactor))
  }

  function Enclosed(needed: bool, t: string): string { if needed then "(" + t + ")" else t }

  /** Every variable in the tree is one of A to Z. */
  predicate Named(e: Expr) {
    match e
    case Num(_) => true
    case Var(i) => i < VARIABLES
    case Neg(a) => Named(a)
    case Add(a, b) => Named(a) && Named(b)
    case Sub(a, b) => Named(a) && Named(b)
    case Mul(a, b) => Named(a) && Named(b)
    case Div(a, b) => Named(a) && Named(b)
  }

  /** The text t stands in s at p. */
  predicate Holds(s: string, p: nat, t: string) { p + |t| <= |s| && s[p..p + |t|] == t }

  lemma HoldsPart(s: string, p: nat, a: string, b: string)
    requires Holds(s, p, a + b)
    ensures Holds(s, p, a) && Holds(s, p + |a|, b)
  {
    assert s[p..p + |a|] == s[p..p + |a + b|][..|a|];
    assert s[p + |a|..p + |a| + |b|] == s[p..p + |a + b|][|a|..];
  }

  /** Tens to the power of the number of digits. */
  function Power(k: nat): (r: nat)
    ensures r > 0
  {
    if k == 0 then 1 else 10 * Power(k - 1)
  }

  lemma {:induction false} DigitsRead(s: string, p: nat, n: nat, acc: nat)
    requires Holds(s, p, Decimal(n))
    ensures p < |s| && IsDigit(s[p])
    ensures Digits(s, p, acc) == Digits(s, p + |Decimal(n)|, acc * Power(|Decimal(n)|) + n)
    decreases n
  {
    var t := Decimal(n);
    if n < 10 {
      assert s[p] == t[0];
    } else {
      HoldsPart(s, p, Decimal(n / 10), [Numeral(n % 10)]);
      DigitsRead(s, p, n / 10, acc);
      var q, m := p + |t| - 1, acc * Power(|t| - 1) + n / 10;
      assert s[q..q + 1] == [Numeral(n % 10)];
      assert s[q] == Numeral(n % 10);
      TenTimes(acc, Power(|t| - 1), n);
    }
  }

  lemma TenTimes(acc: nat, w: nat, n: nat)
    ensures (acc * w + n / 10) * 10 + n % 10 == acc * (10 * w) + n
  {
  }

  lemma NumberRead(s: string, p: nat, n: nat)
    requires Holds(s, p, Decimal(n)) && !IsDigit(CharAt(s, p + |Decimal(n)|))
    ensures Digits(s, p, 0) == (n, p + |Decimal(n)|) && p < |s| && IsDigit(s[p])
  {
    hide Decimal, Power, Digits;
    DigitsRead(s, p, n, 0);
    DigitsEnd(s, p + |Decimal(n)|, n);
  }

  lemma DigitsEnd(s: string, p: nat, acc: nat)
    requires p <= |s| && !IsDigit(CharAt(s, p))
    ensures Digits(s, p, acc) == (acc, p)
  {
  }

  /** What follows a text so that it is read no further. */
  predicate Stops(s: string, z: nat, level: Level) {
    && z <= |s| && !IsDigit(CharAt(s, z))
    && (level == Whole ==> CharAt(s, Skip(s, z)) != '*' && CharAt(s, Skip(s, z)) != '/')
  }

  /** What reading at a level comes to once a tree has been read. */
  predicate Reads(s: string, p: nat, e: Expr, z: nat, level: Level)
    requires p <= |s| && z <= |s|
  {
    match level
    case Whole => ParseExpr(s, p) == ExprRest(s, e, z)
    case InTerm => ParseTerm(s, p) == TermRest(s, e, z)
    case InFactor => ParseFactor(s, p) == Ok(e, z)
  }

  /** The text of a tree is read back as that tree wherever it stands, with no more parentheses than it needs. */
  lemma {:induction false} TextRead(s: string, p: nat, e: Expr, level: Level)
    requires Named(e) && Holds(s, p, Text(e, level)) && Stops(s, p + |Text(e, level)|, level)
    ensures Reads(s, p, e, p + |Text(e, level)|, level)
    decreases e, 2
  {
    hide ParseFactor, ParseTerm, ParseExpr, TermRest, ExprRest, Reads, Stops;
    match e
    case Num(n) => NumberFactor(s, p, n, level);
    case Var(i) => VariableFactor(s, p, i, level);
    case Neg(a) =>
      HoldsPart(s, p, "-", Text(a, InFactor));
      assert s[p] == '-';
      assert Stops(s, p + |Text(e, level)|, InFactor) by { AsFactor(s, p + |Text(e, level)|, level); }
      TextRead(s, p + 1, a, InFactor);
      NegatedFactor(s, p, a, p + |Text(e, level)|, level);
    case Add(a, b) => PairRead(s, p, a, b, '+', level);
    case Sub(a, b) => PairRead(s, p, a, b, '-', level);
    case Mul(a, b) => PairRead(s, p, a, b, '*', level);
    case Div(a, b) => PairRead(s, p, a, b, '/', level);
  }

  lemma AsFactor(s: string, z: nat, level: Level)
    requires Stops(s, z, level)
    ensures Stops(s, z, InFactor) && Stops(s, z, InTerm)
  {
  }

  /** A factor read where a term or an expression is read. */
  lemma Lifted(s: string, p: nat, e: Expr, z: nat, level: Level)
    requires z <= |s| && p <= |s| && ParseFactor(s, p) == Ok(e, z) && Skip(s, p) == p && Stops(s, z, level)
    ensures Reads(s, p, e, z, level)
  {
    if level == Whole { TermStops(s, e, z); }
  }

  lemma TermStops(s: string, e: Expr, z: nat)
    requires Stops(s, z, Whole)
    ensures TermRest(s, e, z) == Ok(e, Skip(s, z)) && ExprRest(s, e, Skip(s, z)) == ExprRest(s, e, z)
  {
    assert Skip(s, Skip(s, z)) == Skip(s, z);
  }

  lemma NumberFactor(s: string, p: nat, n: nat, level: Level)
    requires Holds(s, p, Decimal(n)) && Stops(s, p + |Decimal(n)|, level)
    ensures Reads(s, p, Num(n), p + |Decimal(n)|, level)
  {
    NumberRead(s, p, n);
    assert Skip(s, p) == p;
    Lifted(s, p, Num(n), p + |Decimal(n)|, level);
  }

  lemma VariableFactor(s: string, p: nat, i: nat, level: Level)
    requires i < VARIABLES && Holds(s, p, [('A' as int + i) as char]) && Stops(s, p + 1, level)
    ensures Reads(s, p, Var(i), p + 1, level)
  {
    assert s[p..p + 1][0] == s[p];
    assert Skip(s, p) == p;
    Lifted(s, p, Var(i), p + 1, level);
  }

  lemma NegatedFactor(s: string, p: nat, a: Expr, z: nat, level: Level)
    requires p < z <= |s| && s[p] == '-' && Reads(s, p + 1, a, z, InFactor) && Stops(s, z, level)
    ensures Reads(s, p, Neg(a), z, level)
  {
    assert Skip(s, p) == p;
    Lifted(s, p, Neg(a), z, level);
  }

  function Pair(a: Expr, op: char, b: Expr): Expr
    requires op in "+-*/"
  {
    if op == '+' then Add(a, b) else if op == '-' then Sub(a, b) else if op == '*' then Mul(a, b) else Div(a, b)
  }

  predicate IsSum(op: char) { op == '+' || op == '-' }

  /** The level at which a pair needs no parentheses, and that of its right side. */
  function LeftLevel(op: char): Level { if IsSum(op) then Whole else InTerm }
  function RightLevel(op: char): Level { if IsSum(op) then InTerm else InFactor }

  function Bare(a: Expr, op: char, b: Expr): string { Text(a, LeftLevel(op)) + [op] + Text(b, RightLevel(op)) }

  predicate IsBare(op: char, level: Level) { level == Whole || level == LeftLevel(op) }

  lemma PairText(a: Expr, b: Expr, op: char, level: Level)
    requires op in "+-*/"
    ensures Text(Pair(a, op, b), level) == Enclosed(!IsBare(op, level), Bare(a, op, b))
  {
  }

  lemma {:induction false} PairRead(s: string, p: nat, a: Expr, b: Expr, op: char, level: Level)
    requires op in "+-*/" && Named(a) && Named(b)
    requires Holds(s, p, Text(Pair(a, op, b), level)) && Stops(s, p + |Text(Pair(a, op, b), level)|, level)
    ensures Reads(s, p, Pair(a, op, b), p + |Text(Pair(a, op, b), level)|, level)
    decreases Pair(a, op, b), 1
  {
    PairText(a, b, op, level);
    hide Reads, Text, ParseFactor, ParseTerm, ParseExpr, TermRest, ExprRest, Bare, Pair, Named, Skip;
    var e, t := Pair(a, op, b), Bare(a, op, b);
    if IsBare(op, level) {
      BareRead(s, p, a, b, op, level);
    } else {
      var z := p + 1 + |t|;
      HoldsPart(s, p, "(" + t, ")");
      HoldsPart(s, p, "(", t);
      assert s[p..p + 1][0] == s[p] && s[z..z + 1][0] == s[z];
      ClosingStops(s, z);
      BareRead(s, p + 1, a, b, op, Whole);
      InParentheses(s, p, e, z, level);
    }
  }

  lemma ClosingStops(s: string, z: nat)
    requires z < |s| && s[z] == ')'
    ensures Stops(s, z, Whole)
  {
  }

  /** Two texts with an operator between them, at a level where they need no parentheses. */
  lemma {:induction false} BareRead(s: string, p: nat, a: Expr, b: Expr, op: char, level: Level)
    requires op in "+-*/" && Named(a) && Named(b) && IsBare(op, level)
    requires Holds(s, p, Bare(a, op, b)) && Stops(s, p + |Bare(a, op, b)|, level)
    ensures Reads(s, p, Pair(a, op, b), p + |Bare(a, op, b)|, level)
    decreases Pair(a, op, b), 0
  {
    hide Reads, Text, ParseFactor, ParseTerm, ParseExpr, TermRest, ExprRest, Named;
    var m, z := p + |Text(a, LeftLevel(op))|, p + |Bare(a, op, b)|;
    BareHolds(s, p, Text(a, LeftLevel(op)), op, Text(b, RightLevel(op)));
    OperatorStops(s, m);
    LevelStops(s, z, op, level);
    hide Holds, Stops, Skip, Pair;
    TextRead(s, p, a, LeftLevel(op));
    TextRead(s, m + 1, b, RightLevel(op));
    BarePair(s, p, a, b, op, m, z);
    if level != LeftLevel(op) {
      TextStarts(s, p, a, InTerm);
      FromTerm(s, p, Pair(a, op, b), z);
    }
  }

  lemma OperatorStops(s: string, m: nat)
    requires m < |s| && s[m] in "+-*/"
    ensures Stops(s, m, LeftLevel(s[m]))
  {
  }

  lemma LevelStops(s: string, z: nat, op: char, level: Level)
    requires Stops(s, z, level) && IsBare(op, level)
    ensures Stops(s, z, LeftLevel(op)) && Stops(s, z, RightLevel(op))
  {
  }

  lemma BareHolds(s: string, p: nat, ta: string, op: char, tb: string)
    requires Holds(s, p, ta + [op] + tb)
    ensures var m := p + |ta|; m < |s| && s[m] == op && Holds(s, p, ta) && Holds(s, m + 1, tb)
  {
    var m := p + |ta|;
    HoldsPart(s, p, ta + [op], tb);
    HoldsPart(s, p, ta, [op]);
    assert s[m..m + 1][0] == s[m];
  }
  lemma BarePair(s: string, q: nat, a: Expr, b: Expr, op: char, m: nat, z: nat)
    requires op in "+-*/" && q <= m < z <= |s| && s[m] == op && Stops(s, z, LeftLevel(op))
    requires Reads(s, q, a, m, LeftLevel(op)) && Reads(s, m + 1, b, z, RightLevel(op))
    ensures Reads(s, q, Pair(a, op, b), z, LeftLevel(op))
  {
    var e := Pair(a, op, b);
    assert Skip(s, m) == m;
    if IsSum(op) {
      TermStops(s, b, z);
      TermStops(s, e, z);
      assert e == if op == '+' then Add(a, b) else Sub(a, b);
      hide Pair, Stops, Skip, ParseFactor, TermRest;
    } else {
      assert e == if op == '*' then Mul(a, b) else Div(a, b);
      hide Pair, Stops, Skip, ParseExpr, ExprRest;
    }
  }

  lemma FromTerm(s: string, q: nat, e: Expr, z: nat)
    requires q <= |s| && z <= |s| && Skip(s, q) == q && Reads(s, q, e, z, InTerm) && Stops(s, z, Whole)
    ensures Reads(s, q, e, z, Whole)
  {
    TermStops(s, e, z);
  }

  /** An expression in parentheses. */
  lemma InParentheses(s: string, p: nat, e: Expr, z: nat, level: Level)
    requires p < z < |s| && s[p] == '(' && s[z] == ')' && Reads(s, p + 1, e, z, Whole) && Stops(s, z + 1, level)
    ensures Reads(s, p, e, z + 1, level)
  {
    assert Skip(s, p) == p && Skip(s, z) == z;
    assert ExprRest(s, e, z) == Ok(e, z);
    Lifted(s, p, e, z + 1, level);
  }

  /** What a text begins with. */
  predicate Opens(c: char) { IsDigit(c) || IsUpper(c) || c == '-' || c == '(' }

  /** No text begins with a space. */
  lemma {:induction false} TextStarts(s: string, p: nat, e: Expr, level: Level)
    requires Named(e) && Holds(s, p, Text(e, level))
    ensures p < |s| && Skip(s, p) == p && Opens(s[p])
    decreases e, 1
  {
    match e
    case Num(n) => DigitsRead(s, p, n, 0);
    case Var(_) => assert s[p] == Text(e, level)[0];
    case Neg(_) => assert s[p] == Text(e, level)[0];
    case Add(a, b) => PairStarts(s, p, a, '+', b, level);
    case Sub(a, b) => PairStarts(s, p, a, '-', b, level);
    case Mul(a, b) => PairStarts(s, p, a, '*', b, level);
    case Div(a, b) => PairStarts(s, p, a, '/', b, level);
  }

  lemma {:induction false} PairStarts(s: string, p: nat, a: Expr, op: char, b: Expr, level: Level)
    requires op in "+-*/" && Named(a) && Holds(s, p, Text(Pair(a, op, b), level))
    ensures p < |s| && Skip(s, p) == p && Opens(s[p])
    decreases Pair(a, op, b), 0
  {
    PairText(a, b, op, level);
    if IsBare(op, level) {
      BareHolds(s, p, Text(a, LeftLevel(op)), op, Text(b, RightLevel(op)));
      TextStarts(s, p, a, LeftLevel(op));
    } else {
      assert s[p] == ("(" + Bare(a, op, b) + ")")[0];
    }
  }

  /** Printing a tree and reading the text gives the tree, and reads all of it. */
  lemma ReadsBack(e: Expr)
    requires Named(e)
    ensures ParseExpr(Text(e, Whole), 0) == Ok(e, |Text(e, Whole)|)
  {
    var s := Text(e, Whole);
    assert s[0..|s|] == s;
    TextRead(s, 0, e, Whole);
    hide Text;
    assert ExprRest(s, e, |s|) == Ok(e, |s|);
  }
}
