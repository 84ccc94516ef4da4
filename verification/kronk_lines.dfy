/** What a line of a KRONK program does, said of its text: the statements of kernel/kronk.c:162-263 as they are typed in. */
module KronkLines {
  import opened Options
  import opened KronkSyntax
  import opened KronkProgram
  import opened KronkValues

  // ---------------------------------------------------------------- keywords

  /** Keywords are found in either case. */
  lemma {:induction false} StartsIs(s: string, p: nat, keyword: string)
    ensures StartsWith(s, p, keyword) <==> forall i :: 0 <= i < |keyword| ==> UpperChar(CharAt(s, p + i)) == keyword[i]
    decreases |keyword|
  {
    if keyword != [] {
      StartsIs(s, p + 1, keyword[1..]);
      assert forall i :: 0 <= i < |keyword| - 1 ==> keyword[1..][i] == keyword[i + 1] && p + 1 + i == p + (i + 1);
      assert forall i :: 0 < i < |keyword| ==> keyword[i] == keyword[1..][i - 1];
    }
  }

  /** A keyword of capitals is found exactly where its letters stand, each in either case. */
  lemma KeywordFound(s: string, p: nat, keyword: string)
    requires forall i :: 0 <= i < |keyword| ==> 'A' <= keyword[i] <= 'Z'
    ensures StartsWith(s, p, keyword) <==>
      forall i :: 0 <= i < |keyword| ==> CharAt(s, p + i) == keyword[i] || CharAt(s, p + i) as int == keyword[i] as int + 'a' as int - 'A' as int
  {
    StartsIs(s, p, keyword);
    forall i | 0 <= i < |keyword|
      ensures UpperChar(CharAt(s, p + i)) == keyword[i] <==>
        CharAt(s, p + i) == keyword[i] || CharAt(s, p + i) as int == keyword[i] as int + 'a' as int - 'A' as int
    {
      EitherCase(CharAt(s, p + i), keyword[i]);
    }
  }

  lemma EitherCase(c: char, k: char)
    requires 'A' <= k <= 'Z'
    ensures UpperChar(c) == k <==> c == k || c as int == k as int + 'a' as int - 'A' as int
  {
  }

  function KeywordText(k: Keyword): string {
    match k
    case KwRem => "REM" case KwEnd => "END" case KwLet => "LET" case KwKronk => "KRONK"
    case KwInput => "INPUT" case KwPrint => "PRINT" case KwGoto => "GOTO" case KwIf => "IF" case KwNone => ""
  }

  lemma Mismatch(s: string, p: nat, keyword: string, i: nat)
    requires i < |keyword| && UpperChar(CharAt(s, p + i)) != keyword[i]
    ensures !StartsWith(s, p, keyword)
  {
    StartsIs(s, p, keyword);
  }

  lemma HeldChar(s: string, p: nat, t: string, i: nat)
    requires Holds(s, p, t) && i < |t|
    ensures p + i < |s| && CharAt(s, p + i) == s[p + i] == t[i]
  {
    assert s[p + i] == s[p..p + |t|][i];
  }

  lemma {:induction false} HeldStarts(s: string, p: nat, t: string)
    requires Holds(s, p, t) && forall i :: 0 <= i < |t| ==> IsUpper(t[i])
    ensures StartsWith(s, p, t)
    decreases |t|
  {
    if t != [] {
      HeldChar(s, p, t, 0);
      assert t == [t[0]] + t[1..];
      HoldsPart(s, p, [t[0]], t[1..]);
      HeldStarts(s, p + 1, t[1..]);
    }
  }

  lemma KeywordRead(s: string, p: nat, k: Keyword)
    requires k != KwNone && Holds(s, p, KeywordText(k))
    ensures KeywordAt(s, p) == k && p < |s| && Skip(s, p) == p
  {
    HeldStarts(s, p, KeywordText(k));
    HeldChar(s, p, KeywordText(k), 0);
    hide StartsWith, Holds;
    NoOther(s, p, k);
  }

  lemma NoOther(s: string, p: nat, k: Keyword)
    requires k != KwNone && Holds(s, p, KeywordText(k))
    ensures forall other: Keyword :: other != k && other != KwNone && (k == KwInput ==> other != KwIf) ==> !StartsWith(s, p, KeywordText(other))
  {
    hide StartsWith, Holds;
    HeldChar(s, p, KeywordText(k), 0);
    HeldChar(s, p, KeywordText(k), 1);
    if k != KwRem { Mismatch(s, p, "REM", 0); }
    if k != KwEnd { Mismatch(s, p, "END", 0); }
    if k != KwLet { Mismatch(s, p, "LET", 0); }
    if k != KwKronk { Mismatch(s, p, "KRONK", 0); }
    if k != KwInput { Mismatch(s, p, "INPUT", if k == KwIf then 1 else 0); }
    if k != KwPrint { Mismatch(s, p, "PRINT", 0); }
    if k != KwGoto { Mismatch(s, p, "GOTO", 0); }
    if k != KwIf && k != KwInput { Mismatch(s, p, "IF", 0); }
  }

  /** An expression read where its text stands, up to what follows it. */
  lemma ExprHere(s: string, p: nat, e: Expr, z: nat)
    requires Named(e) && Holds(s, p, Text(e, Whole)) && z == p + |Text(e, Whole)| && Stops(s, z, Whole)
    requires CharAt(s, Skip(s, z)) != '+' && CharAt(s, Skip(s, z)) != '-'
    ensures ParseExpr(s, p) == Ok(e, Skip(s, z)) && p < |s| && Skip(s, p) == p && Opens(s[p])
  {
    TextRead(s, p, e, Whole);
    TextStarts(s, p, e, Whole);
    assert Skip(s, Skip(s, z)) == Skip(s, z);
  }

  // ---------------------------------------------------------------- LET, GOTO, END, REM, KRONK, INPUT

  lemma AtTheEnd(a: string, b: string)
    ensures Holds(a + b, 0, a) && Holds(a + b, |a|, b)
  {
    assert (a + b)[0..|a|] == a && (a + b)[|a|..|a| + |b|] == b;
  }

  lemma EndStops(s: string)
    ensures Stops(s, |s|, Whole) && CharAt(s, Skip(s, |s|)) == '\0'
  {
  }

  lemma AssignmentRead(s: string, c: char, e: Expr)
    requires 'A' <= c <= 'Z' && Named(e) && Holds(s, 0, "LET " + [c] + "=") && Holds(s, 6, Text(e, Whole)) && |s| == 6 + |Text(e, Whole)|
    ensures Assignment(s, 3) == Let(c as int - 'A' as int, e)
  {
    var t := "LET " + [c] + "=";
    HeldChar(s, 0, t, 3);
    HeldChar(s, 0, t, 4);
    HeldChar(s, 0, t, 5);
    EndStops(s);
    ExprHere(s, 6, e, |s|);
    hide Text, ParseExpr, Holds, Stops;
    assert Skip(s, 4) == 4 && Skip(s, 5) == 5;
    assert Skip(s, 3) == 4;
  }

  lemma LetParsed(c: char, e: Expr)
    requires 'A' <= c <= 'Z' && Named(e)
    ensures ParseLine("LET " + [c] + "=" + Text(e, Whole)) == Let(c as int - 'A' as int, e)
  {
    var t := "LET " + [c] + "=";
    var s := t + Text(e, Whole);
    hide Text, Holds, Assignment, Branch, InputAt, PrintAt, NumberAt;
    AtTheEnd(t, Text(e, Whole));
    assert t == "LET" + (" " + [c] + "=");
    HoldsPart(s, 0, "LET", " " + [c] + "=");
    KeywordRead(s, 0, KwLet);
    hide KeywordAt, Skip, Named;
    AssignmentRead(s, c, e);
  }

  /** LET gives the variable the value of the expression and changes no other; without a value it is an error. */
  lemma LetLine(c: char, e: Expr, m: Machine, numbers: seq<int>, keyboard: nat -> string)
    requires 'A' <= c <= 'Z' && Named(e)
    ensures Execute(ParseLine("LET " + [c] + "=" + Text(e, Whole)), m, numbers, keyboard) ==
      match ValueOf(Text(e, Whole), m.vs)
      case Some(v) => (Next, m.(vs := m.vs[c as int - 'A' as int := v]))
      case None => (Error, m)
  {
    LetParsed(c, e);
    ValueIs(e, Whole, m.vs);
    hide ParseLine, ValueOf, Eval, Text;
  }

  /** What a jump to a line comes to: to the first line of that number, or an error if there is none. */
  predicate JumpsTo(step: Step, numbers: seq<int>, n: int) {
    if n in numbers
    then step.Jump? && step.index < |numbers| && numbers[step.index] == n && n !in numbers[..step.index]
    else step == Error
  }

  lemma {:induction false} LineFound(numbers: seq<int>, n: int, i: nat)
    requires i <= |numbers| && n !in numbers[..i]
    ensures match LineIndex(numbers, n, i)
      case None => n !in numbers
      case Some(k) => k < |numbers| && numbers[k] == n && n !in numbers[..k]
    decreases |numbers| - i
  {
    if i == |numbers| { assert numbers[..i] == numbers; }
    else if numbers[i] != n {
      assert numbers[..i + 1] == numbers[..i] + [numbers[i]];
      LineFound(numbers, n, i + 1);
    }
  }

  lemma Jumps(numbers: seq<int>, n: int)
    ensures JumpsTo(JumpTo(numbers, n), numbers, n)
  {
    LineFound(numbers, n, 0);
  }

  /** A number read where its text stands, with nothing or no digit behind. */
  lemma IntHere(s: string, p: nat, n: int)
    requires Holds(s, p, IntText(n)) && !IsDigit(CharAt(s, p + |IntText(n)|))
    ensures NumberAt(s, p) == (n, p + |IntText(n)|) && p < |s| && Skip(s, p) == p && (IsDigit(s[p]) || s[p] == '-')
  {
    hide Decimal, Digits, Holds, NumberAt, Skip;
    if n < 0 {
      HoldsPart(s, p, "-", Decimal(-n));
      NegativeHere(s, p, -n);
    } else {
      PositiveHere(s, p, n);
    }
  }

  lemma PositiveHere(s: string, p: nat, n: nat)
    requires Holds(s, p, Decimal(n)) && !IsDigit(CharAt(s, p + |Decimal(n)|))
    ensures NumberAt(s, p) == (n, p + |Decimal(n)|) && p < |s| && Skip(s, p) == p && IsDigit(s[p])
  {
    hide Decimal, Holds;
    NumberRead(s, p, n);
    hide Digits;
  }

  lemma NegativeHere(s: string, p: nat, n: nat)
    requires Holds(s, p, "-") && Holds(s, p + 1, Decimal(n)) && !IsDigit(CharAt(s, p + 1 + |Decimal(n)|))
    ensures NumberAt(s, p).0 + n == 0 && NumberAt(s, p).1 == p + 1 + |Decimal(n)|
    ensures p < |s| && Skip(s, p) == p && s[p] == '-'
  {
    hide Decimal, Digits, Holds, NumberAt, Skip, CharAt;
    HeldChar(s, p, "-", 0);
    NumberRead(s, p + 1, n);
    NegativeAt(s, p, n, p + 1 + |Decimal(n)|);
  }

  lemma NegativeAt(s: string, p: nat, n: nat, z: nat)
    requires p < |s| && s[p] == '-' && Digits(s, p + 1, 0) == (n, z)
    ensures NumberAt(s, p).0 + n == 0 && NumberAt(s, p).1 == z && Skip(s, p) == p
  {
    hide Digits;
  }

  /** GOTO goes to the first line of that number. */
  lemma GotoLine(n: int, m: Machine, numbers: seq<int>, keyboard: nat -> string)
    ensures var (step, m') := Execute(ParseLine("GOTO " + IntText(n)), m, numbers, keyboard);
      m' == m && JumpsTo(step, numbers, n)
  {
    var s := "GOTO " + IntText(n);
    AtTheEnd("GOTO ", IntText(n));
    assert "GOTO " == "GOTO" + " ";
    HoldsPart(s, 0, "GOTO", " ");
    KeywordRead(s, 0, KwGoto);
    HeldChar(s, 4, " ", 0);
    IntHere(s, 5, n);
    Jumps(numbers, n);
    hide KeywordAt, IntText, NumberAt, Holds, JumpTo, JumpsTo;
    assert Skip(s, 4) == 5;
  }

  /** END stops, REM does nothing, and KRONK sets every variable to zero and says so. */
  lemma PlainLines(rest: string, m: Machine, numbers: seq<int>, keyboard: nat -> string)
    ensures Execute(ParseLine("END" + rest), m, numbers, keyboard) == (Stop, m)
    ensures Execute(ParseLine("REM" + rest), m, numbers, keyboard) == (Next, m)
    ensures var (step, m') := Execute(ParseLine("KRONK" + rest), m, numbers, keyboard);
      && step == Next && m'.typed == m.typed && (forall i :: 0 <= i < 26 ==> m'.vs[i] == 0)
      && m'.output == m.output + "KRONK! WRONG LEVER. EVERY VARIABLE IS NOW ZERO. YOU'RE WELCOME.\n"
  {
    AtTheEnd("END", rest);
    AtTheEnd("REM", rest);
    AtTheEnd("KRONK", rest);
    KeywordRead("END" + rest, 0, KwEnd);
    KeywordRead("REM" + rest, 0, KwRem);
    KeywordRead("KRONK" + rest, 0, KwKronk);
    hide KeywordAt, Skip, Holds;
  }

  /** A line that begins like none of these is an error, and so is an empty one. */
  lemma WrongLine(t: string, m: Machine, numbers: seq<int>, keyboard: nat -> string)
    requires t != [] ==> !IsSpace(t[0]) && UpperChar(t[0]) !in {'R', 'E', 'L', 'K', 'I', 'P', 'G'}
    ensures Execute(ParseLine(t), m, numbers, keyboard) == (Error, m)
  {
    hide StartsWith;
    assert Skip(t, 0) == 0;
    Mismatch(t, 0, "REM", 0);
    Mismatch(t, 0, "END", 0);
    Mismatch(t, 0, "LET", 0);
    Mismatch(t, 0, "KRONK", 0);
    Mismatch(t, 0, "INPUT", 0);
    Mismatch(t, 0, "PRINT", 0);
    Mismatch(t, 0, "GOTO", 0);
    Mismatch(t, 0, "IF", 0);
  }

  /** INPUT gives the variable the number typed in next, which shows after a prompt. */
  lemma InputLine(c: char, n: int, m: Machine, numbers: seq<int>, keyboard: nat -> string)
    requires 'A' <= c <= 'Z' && keyboard(m.typed) == IntText(n)
    ensures var (step, m') := Execute(ParseLine("INPUT " + [c]), m, numbers, keyboard);
      && step == Next && m'.vs == m.vs[c as int - 'A' as int := n] && m'.typed == m.typed + 1
      && m'.output == m.output + "? " + IntText(n) + "\n"
  {
    var s := "INPUT " + [c];
    AtTheEnd("INPUT ", [c]);
    assert "INPUT " == "INPUT" + " ";
    HoldsPart(s, 0, "INPUT", " ");
    KeywordRead(s, 0, KwInput);
    HeldChar(s, 5, " ", 0);
    HeldChar(s, 6, [c], 0);
    PrintedReadsBack(n);
    hide KeywordAt, IntText, NumberAt, Holds;
    assert Skip(s, 6) == 6;
    assert Skip(s, 5) == 6;
  }

  // ---------------------------------------------------------------- IF

  /** The six comparisons. */
  predicate Compares(x: int, relation: string, y: int) {
    || (relation == "<" && x < y) || (relation == "<=" && x <= y) || (relation == ">" && x > y) || (relation == ">=" && x >= y)
    || (relation == "=" && x == y) || (relation == "<>" && x != y)
  }

  const RELATIONS: set<string> := {"<", "<=", ">", ">=", "=", "<>"}

  /** A relation read where its text stands, before an expression. */
  lemma RelationHere(s: string, p: nat, relation: string, x: int, y: int)
    requires relation in RELATIONS && Holds(s, p, relation) && p + |relation| < |s| && Opens(s[p + |relation|])
    ensures RelationAt(s, p).Ok? && RelationAt(s, p).pos == p + |relation|
    ensures Compare(x, RelationAt(s, p).tree, y) == Compares(x, relation, y)
    ensures p < |s| && s[p] in "<>=" && Skip(s, p) == p
  {
    HeldChar(s, p, relation, 0);
    if |relation| == 2 { HeldChar(s, p, relation, 1); }
  }

  lemma ConditionRead(s: string, p: nat, a: Expr, relation: string, b: Expr, z: nat, vs: Variables, x: int, y: int)
    requires Named(a) && Named(b) && relation in RELATIONS && Holds(s, p, Text(a, Whole) + relation + Text(b, Whole))
    requires z == p + |Text(a, Whole) + relation + Text(b, Whole)| && z < |s| && s[z] == ' ' && CharAt(s, Skip(s, z)) == 'T'
    requires Eval(a, vs) == Some(x) && Eval(b, vs) == Some(y)
    ensures var r := ParseCondition(s, p); r.Ok? && r.pos == Skip(s, z) && r.tree.a == a && r.tree.b == b
    ensures Compare(x, ParseCondition(s, p).tree.relation, y) == Compares(x, relation, y)
    ensures Skip(s, p) == p
  {
    hide Text, Holds, Compare, Compares, RelationAt, ParseExpr, Skip, Eval, Stops, Named;
    var ta, tb := Text(a, Whole), Text(b, Whole);
    HoldsPart(s, p, ta + relation, tb);
    HoldsPart(s, p, ta, relation);
    var m := p + |ta|;
    TextStarts(s, m + |relation|, b, Whole);
    RelationHere(s, m, relation, x, y);
    RelationStops(s, m);
    SpaceStops(s, z);
    ExprHere(s, p, a, m);
    ExprHere(s, m + |relation|, b, z);
  }

  lemma SpaceStops(s: string, z: nat)
    requires z < |s| && s[z] == ' ' && CharAt(s, Skip(s, z)) == 'T'
    ensures Stops(s, z, Whole)
  {
  }

  lemma RelationStops(s: string, m: nat)
    requires m < |s| && s[m] in "<>="
    ensures Stops(s, m, Whole) && Skip(s, m) == m && CharAt(s, m) != '+' && CharAt(s, m) != '-'
  {
  }

  /** Where the parts of an IF line stand. */
  lemma IfParts(s: string, c: string, t: string)
    requires s == "IF " + c + " THEN " + t
    ensures Holds(s, 0, "IF") && Holds(s, 2, " ") && Holds(s, 3, c)
    ensures var z := 3 + |c|; Holds(s, z, " ") && Holds(s, z + 1, "THEN") && Holds(s, z + 5, " ") && Holds(s, z + 6, t)
    ensures |s| == 9 + |c| + |t|
  {
    AtTheEnd("IF " + c + " THEN ", t);
    HoldsPart(s, 0, "IF " + c, " THEN ");
    HoldsPart(s, 0, "IF ", c);
    assert "IF " == "IF" + " " && " THEN " == " " + "THEN" + " ";
    HoldsPart(s, 0, "IF", " ");
    HoldsPart(s, 3 + |c|, " " + "THEN", " ");
    HoldsPart(s, 3 + |c|, " ", "THEN");
  }

  lemma OneSpace(s: string, p: nat)
    requires Holds(s, p, " ") && p + 1 < |s| && !IsSpace(s[p + 1])
    ensures s[p] == ' ' && Skip(s, p) == p + 1
  {
    HeldChar(s, p, " ", 0);
    assert Skip(s, p + 1) == p + 1;
  }

  lemma TargetRead(s: string, p: nat, n: int)
    requires Holds(s, p, " ") && Holds(s, p + 1, IntText(n)) && |s| == p + 1 + |IntText(n)|
    ensures TargetAt(s, p) == n
  {
    IntHere(s, p + 1, n);
    OneSpace(s, p);
    Mismatch(s, p + 1, "GOTO", 0);
    hide NumberAt, StartsWith, Holds, IntText, Skip;
  }

  lemma BranchIs(s: string, c: Condition, q: nat, n: int)
    requires q + 4 <= |s| && 3 <= |s| && Skip(s, 2) == 3 && ParseCondition(s, 3) == Ok(c, q)
    requires Skip(s, q) == q && StartsWith(s, q, "THEN") && TargetAt(s, q + 4) == n
    ensures Branch(s, 2) == If(c.a, c.relation, c.b, n)
  {
    hide Skip, ParseCondition, StartsWith, TargetAt;
  }

  lemma BranchRead(s: string, a: Expr, relation: string, b: Expr, n: int, vs: Variables, x: int, y: int)
    requires Named(a) && Named(b) && relation in RELATIONS && Eval(a, vs) == Some(x) && Eval(b, vs) == Some(y)
    requires s == "IF " + (Text(a, Whole) + relation + Text(b, Whole)) + " THEN " + IntText(n)
    ensures |s| >= 2 && var st := Branch(s, 2); st.If? && st.a == a && st.b == b && st.target == n
    ensures Compare(x, Branch(s, 2).relation, y) == Compares(x, relation, y)
  {
    hide *;
    var c := Text(a, Whole) + relation + Text(b, Whole);
    var z := 3 + |c|;
    IfParts(s, c, IntText(n));
    ThenStarts(s, z + 1);
    OneSpace(s, z);
    TargetRead(s, z + 5, n);
    ConditionFirst(s, c, a, relation, b);
    OneSpace(s, 2);
    NotSkipped(s, z + 1);
    ConditionRead(s, 3, a, relation, b, z, vs, x, y);
    BranchIs(s, ParseCondition(s, 3).tree, z + 1, n);
  }

  lemma ThenStarts(s: string, p: nat)
    requires Holds(s, p, "THEN")
    ensures p + 4 <= |s| && s[p] == CharAt(s, p) == 'T' && !IsSpace(s[p]) && StartsWith(s, p, "THEN")
  {
    HeldChar(s, p, "THEN", 0);
    HeldStarts(s, p, "THEN");
  }

  lemma NotSkipped(s: string, p: nat)
    requires p < |s| && !IsSpace(s[p])
    ensures Skip(s, p) == p
  {
  }

  lemma ConditionFirst(s: string, c: string, a: Expr, relation: string, b: Expr)
    requires Named(a) && c == Text(a, Whole) + relation + Text(b, Whole) && Holds(s, 3, c)
    ensures 3 < |s| && !IsSpace(s[3])
  {
    assert c == Text(a, Whole) + (relation + Text(b, Whole));
    HoldsPart(s, 3, Text(a, Whole), relation + Text(b, Whole));
    TextStarts(s, 3, a, Whole);
  }

  lemma IfParsed(s: string, c: string, t: string)
    requires s == "IF " + c + " THEN " + t
    ensures |s| >= 2 && ParseLine(s) == Branch(s, 2)
  {
    hide KeywordAt, Holds, Skip, Branch, Assignment, InputAt, PrintAt, NumberAt;
    IfParts(s, c, t);
    KeywordRead(s, 0, KwIf);
  }

  /** IF goes to the line if the two values compare as it says, and on to the next line if they do not. */
  lemma IfLine(a: Expr, relation: string, b: Expr, n: int, x: int, y: int, m: Machine, numbers: seq<int>, keyboard: nat -> string)
    requires Named(a) && Named(b) && relation in RELATIONS
    requires ValueOf(Text(a, Whole), m.vs) == Some(x) && ValueOf(Text(b, Whole), m.vs) == Some(y)
    ensures var line := "IF " + (Text(a, Whole) + relation + Text(b, Whole)) + " THEN " + IntText(n);
      var (step, m') := Execute(ParseLine(line), m, numbers, keyboard);
      m' == m && if Compares(x, relation, y) then JumpsTo(step, numbers, n) else step == Next
  {
    ValueIs(a, Whole, m.vs);
    ValueIs(b, Whole, m.vs);
    var line := "IF " + (Text(a, Whole) + relation + Text(b, Whole)) + " THEN " + IntText(n);
    IfParsed(line, Text(a, Whole) + relation + Text(b, Whole), IntText(n));
    BranchRead(line, a, relation, b, n, m.vs, x, y);
    Jumps(numbers, n);
    hide ParseLine, Branch, Text, Eval, ValueOf, IntText, Compare, Compares, JumpTo, JumpsTo;
  }

  // ---------------------------------------------------------------- PRINT

  /** A quotation without quotation marks, or an expression. */
  predicate ProperItem(item: Piece) {
    match item
    case Quote(t) => forall i :: 0 <= i < |t| ==> t[i] != '"' && t[i] != '\0'
    case Value(e) => Named(e)
    case Gap => false
  }

  predicate ProperItems(items: seq<Piece>) { items != [] && forall i :: 0 <= i < |items| ==> ProperItem(items[i]) }

  function ItemText(item: Piece): string {
    match item case Quote(t) => "\"" + t + "\"" case Value(e) => Text(e, Whole) case Gap => ""
  }

  /** Items with commas between them. */
  function ItemsText(items: seq<Piece>): string {
    if items == [] then "" else if |items| == 1 then ItemText(items[0]) else ItemText(items[0]) + ("," + ItemsText(items[1..]))
  }

  /** What the items come to on the screen, with spaces between them; nothing if one of them has no value. */
  function Shown(items: seq<Piece>, vs: Variables): Option<string> {
    if items == [] then Some("")
    else
      match (ItemShown(items[0], vs), Shown(items[1..], vs))
      case (Some(t), Some(rest)) => Some(if |items| == 1 then t else t + " " + rest)
      case _ => None
  }

  function ItemShown(item: Piece, vs: Variables): Option<string> {
    match item
    case Quote(t) => Some(t)
    case Value(e) => (match ValueOf(Text(e, Whole), vs) case Some(v) => Some(IntText(v)) case None => None)
    case Gap => None
  }

  lemma {:induction false} QuoteEnds(s: string, p: nat, q: nat)
    requires p <= q < |s| && s[q] == '"' && forall i :: p <= i < q ==> s[i] != '"' && s[i] != '\0'
    ensures QuoteEnd(s, p) == q
    decreases q - p
  {
    if p < q { QuoteEnds(s, p + 1, q); }
  }

  lemma ItemRead(s: string, p: nat, item: Piece)
    requires ProperItem(item) && Holds(s, p, ItemText(item))
    requires var z := p + |ItemText(item)|; z == |s| || s[z] == ','
    ensures PieceAt(s, p) == Ok(item, p + |ItemText(item)|) && p < |s| && Skip(s, p) == p && CharAt(s, p) != '\0'
  {
    var z := p + |ItemText(item)|;
    match item
    case Quote(t) =>
      HoldsPart(s, p, "\"" + t, "\"");
      HoldsPart(s, p, "\"", t);
      HeldChar(s, p, "\"", 0);
      HeldChar(s, z - 1, "\"", 0);
      forall i | p + 1 <= i < z - 1 ensures s[i] != '"' && s[i] != '\0' { HeldChar(s, p + 1, t, i - (p + 1)); }
      QuoteEnds(s, p + 1, z - 1);
    case Value(e) =>
      CommaStops(s, z);
      ExprHere(s, p, e, z);
  }

  lemma CommaStops(s: string, z: nat)
    requires z <= |s| && (z == |s| || s[z] == ',')
    ensures Stops(s, z, Whole) && Skip(s, z) == z && CharAt(s, z) != '+' && CharAt(s, z) != '-'
  {
  }

  /** The items of a PRINT line are read as they are written. */
  lemma {:induction false} ItemsRead(s: string, p: nat, items: seq<Piece>, vs: Variables, before: string)
    requires ProperItems(items) && Holds(s, p, ItemsText(items)) && |s| == p + |ItemsText(items)|
    ensures p < |s| && Skip(s, p) == p
    ensures Pieces(s, p).Some? && Printed(Pieces(s, p).value, vs, before) ==
      match Shown(items, vs) case Some(t) => Some(before + t) case None => None
    decreases |items|
  {
    hide ItemText, Holds, PieceAt, ValueOf, IntText, Pieces, Printed, ItemShown, PieceText, Skip;
    var z := p + |ItemText(items[0])|;
    if |items| > 1 {
      HoldsPart(s, p, ItemText(items[0]), "," + ItemsText(items[1..]));
      HoldsPart(s, z, ",", ItemsText(items[1..]));
      HeldChar(s, z, ",", 0);
    }
    ItemRead(s, p, items[0]);
    CommaStops(s, z);
    ItemPrinted(items[0], vs);
    if |items| == 1 {
      LastItem(s, p, items[0], vs, before);
    } else {
      var t := match ItemShown(items[0], vs) case Some(t) => t case None => "";
      ItemsRead(s, z + 1, items[1..], vs, before + t + " ");
      ItemsGoOn(s, p, items[0], z, vs, before, t);
      if Shown(items[1..], vs).Some? { Adding(before, t, Shown(items[1..], vs).value); }
    }
  }

  lemma Adding(a: string, b: string, c: string)
    ensures a + b + " " + c == a + (b + " " + c)
  {
  }

  lemma LastItem(s: string, p: nat, item: Piece, vs: Variables, before: string)
    requires p < |s| && Skip(s, p) == p && CharAt(s, p) != '\0' && PieceAt(s, p) == Ok(item, |s|)
    ensures Pieces(s, p) == Some([item])
    ensures Printed([item], vs, before) == match PieceText(item, vs) case Some(t) => Some(before + t) case None => None
  {
    hide PieceAt, PieceText;
    assert Skip(s, |s|) == |s|;
    assert [item][1..] == [];
  }

  lemma ItemPrinted(item: Piece, vs: Variables)
    requires ProperItem(item)
    ensures PieceText(item, vs) == ItemShown(item, vs)
  {
    if item.Value? { ValueIs(item.e, Whole, vs); }
  }

  lemma ItemsGoOn(s: string, p: nat, item: Piece, z: nat, vs: Variables, before: string, t: string)
    requires p < z < |s| && Skip(s, p) == p && CharAt(s, p) != '\0' && PieceAt(s, p) == Ok(item, z) && s[z] == ',' && Skip(s, z) == z
    requires Pieces(s, z + 1).Some? && (PieceText(item, vs) == Some(t) || PieceText(item, vs) == None)
    ensures Pieces(s, p).Some?
    ensures Printed(Pieces(s, p).value, vs, before) ==
      if PieceText(item, vs).None? then None else Printed(Pieces(s, z + 1).value, vs, before + t + " ")
  {
    hide PieceAt, PieceText;
    var rest := Pieces(s, z + 1).value;
    var all := [item, Gap] + rest;
    assert Pieces(s, p) == Some(all);
    GapText(vs);
    assert all[1..] == [Gap] + rest;
    assert all[1..][1..] == rest;
    hide Pieces, Skip;
    if PieceText(item, vs).Some? {
      assert Printed(all, vs, before) == Printed(all[1..], vs, before + t);
      assert Printed(all[1..], vs, before + t) == Printed(rest, vs, before + t + " ");
    } else {
      assert Printed(all, vs, before) == None;
    }
  }

  lemma GapText(vs: Variables)
    ensures PieceText(Gap, vs) == Some(" ")
  {
  }

  /** PRINT shows quotations as they are and expressions as numbers, with a space for each comma and a new line at the end. */
  lemma PrintLine(items: seq<Piece>, m: Machine, numbers: seq<int>, keyboard: nat -> string)
    requires ProperItems(items)
    ensures Execute(ParseLine("PRINT " + ItemsText(items)), m, numbers, keyboard) ==
      match Shown(items, m.vs)
      case Some(t) => (Next, m.(output := m.output + t + "\n"))
      case None => (Error, m)
  {
    var s := "PRINT " + ItemsText(items);
    hide ItemsText, Pieces, Printed, Shown, Holds, KeywordAt, Assignment, Branch, InputAt, NumberAt;
    AtTheEnd("PRINT ", ItemsText(items));
    assert "PRINT " == "PRINT" + " ";
    HoldsPart(s, 0, "PRINT", " ");
    KeywordRead(s, 0, KwPrint);
    ItemsRead(s, 6, items, m.vs, m.output);
    HeldChar(s, 5, " ", 0);
    PiecesSkip(s, 5);
  }

  lemma PiecesSkip(s: string, p: nat)
    requires p + 1 < |s| && s[p] == ' ' && Skip(s, p + 1) == p + 1
    ensures Pieces(s, p) == Pieces(s, p + 1)
  {
    assert Skip(s, p) == p + 1;
  }

  // ---------------------------------------------------------------- whole programs

  /** A moment of a run: the line to be executed, by its place, and the machine. */
  datatype Point = Point(pc: nat, m: Machine)

  /** One line executed: on to the next, or to the line jumped to. */
  ghost predicate Follows(code: Code, keyboard: nat -> string, a: Point, b: Point) {
    && a.pc < |code.statements|
    && var (step, m) := Execute(code.statements[a.pc], a.m, code.numbers, keyboard);
      b.m == m && ((step == Next && b.pc == a.pc + 1) || step == Jump(b.pc))
  }

  ghost predicate Trail(code: Code, keyboard: nat -> string, points: seq<Point>) {
    points != [] && forall i :: 0 < i < |points| ==> Follows(code, keyboard, points[i - 1], points[i])
  }

  /** How a run ends after its last point: past the last line or at an END, at a line that is wrong, or for having gone on for
      too long. */
  ghost predicate EndsWith(code: Code, keyboard: nat -> string, last: Point, left: nat, outcome: Outcome)
    requires |code.numbers| == |code.statements|
  {
    match outcome
    case TooManySteps(m) => left == 0 && m == last.m
    case Finished(m) =>
      left > 0 && if last.pc >= |code.statements| then m == last.m
      else Execute(code.statements[last.pc], last.m, code.numbers, keyboard) == (Stop, m)
    case SyntaxError(line) =>
      && left > 0 && last.pc < |code.statements| && line == code.numbers[last.pc]
      && Execute(code.statements[last.pc], last.m, code.numbers, keyboard).0 == Error
  }

  /** A run is its lines executed one after the other, from the first, each where the one before has led. */
  lemma {:induction false} RunIsTrail(code: Code, m: Machine, pc: nat, steps: nat, limit: nat, keyboard: nat -> string)
      returns (points: seq<Point>)
    requires |code.numbers| == |code.statements| && steps <= limit
    ensures Trail(code, keyboard, points) && points[0] == Point(pc, m) && |points| <= limit + 2 - steps
    ensures EndsWith(code, keyboard, points[|points| - 1], limit + 2 - steps - |points|, Run(code, m, pc, steps, limit, keyboard))
    decreases limit - steps
  {
    hide Execute;
    points := [Point(pc, m)];
    if pc < |code.statements| {
      var (step, m') := Execute(code.statements[pc], m, code.numbers, keyboard);
      if step == Next || step.Jump? {
        var next := Point(if step == Next then pc + 1 else step.index, m');
        assert Follows(code, keyboard, points[0], next);
        if steps == limit {
          points := points + [next];
        } else {
          var rest := RunIsTrail(code, m', next.pc, steps + 1, limit, keyboard);
          points := points + rest;
          forall i | 0 < i < |points|
            ensures Follows(code, keyboard, points[i - 1], points[i])
          {
            if i > 1 { assert points[i] == rest[i - 1] && points[i - 1] == rest[i - 2]; }
          }
        }
      }
    }
  }
}
