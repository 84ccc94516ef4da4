/** The KRONK evaluator of kernel/kronk.c, which parses and evaluates in one pass over the text of a line,
    against parsing first and evaluating the tree afterwards. */
module Kronk {
  import opened Options
  import opened KronkSyntax
  import opened KronkProgram

  /** The value of a parsed expression, if it parsed and its value exists. */
  function Worth(r: Parsed<Expr>, vs: Variables): Option<int> {
    match r
    case Ok(e, _) => Eval(e, vs)
    case Bad => None
  }

  /** One pass agrees with two: the same value and the same place in the text; and when there is no value,
      the error flag is set. */
  ghost predicate Agrees(r: Parsed<Expr>, vs: Variables, v: int, pos: nat, before: bool, after: bool) {
    && (Worth(r, vs).Some? ==> v == Worth(r, vs).value && pos == r.pos && after == before)
    && (Worth(r, vs).None? ==> after)
    && (before ==> after)
  }

  /** Evaluating the printed text of any tree in one pass gives the tree's value and consumes the text; without a value,
      the error flag is set. */
  lemma EvaluatesText(e: Expr, vs: Variables, v: int, pos: nat, before: bool, after: bool)
    requires Named(e) && Agrees(ParseExpr(Text(e, Whole), 0), vs, v, pos, before, after)
    ensures Worth(ParseExpr(Text(e, Whole), 0), vs) == Eval(e, vs)
    ensures Eval(e, vs).Some? ==> v == Eval(e, vs).value && pos == |Text(e, Whole)| && after == before
    ensures Eval(e, vs).None? ==> after
  {
    ReadsBack(e);
  }

  /** Whatever follows an expression without a value, there is no value. */
  lemma {:induction false} NoTermAfter(s: string, e: Expr, p: nat, vs: Variables)
    requires p <= |s| && Eval(e, vs).None?
    ensures Worth(TermRest(s, e, p), vs).None?
    decreases |s| - p
  {
    var q := Skip(s, p);
    if q < |s| && (s[q] == '*' || s[q] == '/') {
      var b := ParseFactor(s, q + 1);
      if b.Ok? {
        var e' := if s[q] == '*' then Mul(e, b.tree) else Div(e, b.tree);
        NoTermAfter(s, e', b.pos, vs);
      }
    }
  }

  lemma {:induction false} NoExprAfter(s: string, e: Expr, p: nat, vs: Variables)
    requires p <= |s| && Eval(e, vs).None?
    ensures Worth(ExprRest(s, e, p), vs).None?
    decreases |s| - p
  {
    var q := Skip(s, p);
    if q < |s| && (s[q] == '+' || s[q] == '-') {
      var b := ParseTerm(s, q + 1);
      if b.Ok? {
        var e' := if s[q] == '+' then Add(e, b.tree) else Sub(e, b.tree);
        NoExprAfter(s, e', b.pos, vs);
      }
    }
  }

  /** The state of a loop over the operators of a term or an expression: the flag tells whether the whole has
      no value; while it may have one, what is read so far is e, worth v, and rest is what the whole comes to. */
  ghost predicate SoFar(whole: Parsed<Expr>, rest: Parsed<Expr>, e: Expr, vs: Variables, v: int, failed: bool, before: bool, now: bool) {
    && (before ==> now)
    && (failed ==> now && Worth(whole, vs).None?)
    && (!failed ==> now == before && Eval(e, vs) == Some(v) && whole == rest)
  }

  lemma TermStarts(s: string, p: nat, vs: Variables, v: int, pos: nat, before: bool, now: bool) returns (e: Expr, failed: bool)
    requires p <= |s| && pos <= |s| && Agrees(ParseFactor(s, p), vs, v, pos, before, now)
    ensures SoFar(ParseTerm(s, p), TermRest(s, e, pos), e, vs, v, failed, before, now)
  {
    var first := ParseFactor(s, p);
    failed := Worth(first, vs).None?;
    e := if first.Ok? then first.tree else Num(0);
    if first.Ok? && failed { NoTermAfter(s, e, first.pos, vs); }
  }

  lemma TermMore(s: string, whole: Parsed<Expr>, e: Expr, q: nat, vs: Variables, v: int, failed: bool, before: bool, now: bool,
                 rhs: int, pos: nat, after: bool) returns (e': Expr, failed': bool)
    requires q < |s| && pos <= |s| && (s[q] == '*' || s[q] == '/') && SoFar(whole, TermRest(s, e, q), e, vs, v, failed, before, now)
    requires Agrees(ParseFactor(s, q + 1), vs, rhs, pos, now, after)
    ensures s[q] == '/' && rhs == 0 ==> Worth(whole, vs).None?
    ensures !(s[q] == '/' && rhs == 0) ==>
      SoFar(whole, TermRest(s, e', pos), e', vs, if s[q] == '*' then v * rhs else Quotient(v, rhs), failed', before, after)
  {
    var next := ParseFactor(s, q + 1);
    assert Skip(s, q) == q;
    e', failed' := e, true;
    if next.Ok? {
      e' := if s[q] == '*' then Mul(e, next.tree) else Div(e, next.tree);
      if Eval(e', vs).None? { NoTermAfter(s, e', next.pos, vs); } else { failed' := failed; }
    }
  }

  lemma TermEnds(s: string, whole: Parsed<Expr>, e: Expr, q: nat, vs: Variables, v: int, failed: bool, before: bool, now: bool)
    requires q <= |s| && CharAt(s, q) != '*' && CharAt(s, q) != '/' && Skip(s, q) == q
    requires SoFar(whole, TermRest(s, e, q), e, vs, v, failed, before, now)
    ensures Agrees(whole, vs, v, q, before, now)
  {
  }

  lemma ExprStarts(s: string, p: nat, vs: Variables, v: int, pos: nat, before: bool, now: bool) returns (e: Expr, failed: bool)
    requires p <= |s| && pos <= |s| && Agrees(ParseTerm(s, Skip(s, p)), vs, v, pos, before, now)
    ensures SoFar(ParseExpr(s, p), ExprRest(s, e, pos), e, vs, v, failed, before, now)
  {
    var first := ParseTerm(s, Skip(s, p));
    failed := Worth(first, vs).None?;
    e := if first.Ok? then first.tree else Num(0);
    if first.Ok? && failed { NoExprAfter(s, e, first.pos, vs); }
  }

  lemma ExprMore(s: string, whole: Parsed<Expr>, e: Expr, q: nat, vs: Variables, v: int, failed: bool, before: bool, now: bool,
                 rhs: int, pos: nat, after: bool) returns (e': Expr, failed': bool)
    requires q < |s| && pos <= |s| && (s[q] == '+' || s[q] == '-') && SoFar(whole, ExprRest(s, e, q), e, vs, v, failed, before, now)
    requires Agrees(ParseTerm(s, q + 1), vs, rhs, pos, now, after)
    ensures SoFar(whole, ExprRest(s, e', pos), e', vs, if s[q] == '+' then v + rhs else v - rhs, failed', before, after)
  {
    var next := ParseTerm(s, q + 1);
    assert Skip(s, q) == q;
    e', failed' := e, true;
    if next.Ok? {
      e' := if s[q] == '+' then Add(e, next.tree) else Sub(e, next.tree);
      if Eval(e', vs).None? { NoExprAfter(s, e', next.pos, vs); } else { failed' := failed; }
    }
  }

  lemma ExprEnds(s: string, whole: Parsed<Expr>, e: Expr, q: nat, vs: Variables, v: int, failed: bool, before: bool, now: bool)
    requires q <= |s| && CharAt(s, q) != '+' && CharAt(s, q) != '-' && Skip(s, q) == q
    requires SoFar(whole, ExprRest(s, e, q), e, vs, v, failed, before, now)
    ensures Agrees(whole, vs, v, q, before, now)
  {
  }

  lemma NoValue(whole: Parsed<Expr>, vs: Variables, pos: nat, before: bool)
    requires Worth(whole, vs).None?
    ensures Agrees(whole, vs, 0, pos, before, true)
  {
  }

  /** Spaces before the next operator make no difference. */
  lemma SkipFirst(s: string, e: Expr, p: nat)
    requires p <= |s|
    ensures TermRest(s, e, Skip(s, p)) == TermRest(s, e, p) && ExprRest(s, e, Skip(s, p)) == ExprRest(s, e, p)
    ensures Skip(s, Skip(s, p)) == Skip(s, p)
  {
  }

  function CondWorth(r: Parsed<Condition>, vs: Variables): Option<bool> {
    match r
    case Bad => None
    case Ok(c, _) =>
      match (Eval(c.a, vs), Eval(c.b, vs))
      case (Some(x), Some(y)) => Some(Compare(x, c.relation, y))
      case _ => None
  }

  ghost predicate CondAgrees(r: Parsed<Condition>, vs: Variables, v: bool, pos: nat, before: bool, after: bool) {
    && (CondWorth(r, vs).Some? ==> v == CondWorth(r, vs).value && pos == r.pos && after == before)
    && (CondWorth(r, vs).None? ==> after)
    && (before ==> after)
  }

  datatype Line = Line(number: int, text: string)

  function Numbers(program: seq<Line>): (r: seq<int>)
    ensures |r| == |program| && forall i :: 0 <= i < |r| ==> r[i] == program[i].number
  {
    seq(|program|, i requires 0 <= i < |program| => program[i].number)
  }

  /** A program read once, before it runs. */
  function Compile(program: seq<Line>): (r: Code)
    ensures |r.numbers| == |r.statements| == |program|
    ensures forall i :: 0 <= i < |program| ==> r.statements[i] == ParseLine(program[i].text)
  {
    Code(Numbers(program), seq(|program|, i requires 0 <= i < |program| => ParseLine(program[i].text)))
  }

  const ADVANCE := -1
  const HALT := -2

  /** The result that stands for a step. */
  function ResultOf(step: Step): int {
    match step
    case Next => ADVANCE
    case Jump(i) => i
    case _ => HALT
  }

  /** A line did what its statement does: the same result and the same machine; or it failed, and the flag is set. */
  ghost predicate Did(r: (Step, Machine), result: int, m: Machine, error: bool) {
    if r.0.Error? then error && result >= HALT else !error && result == ResultOf(r.0) && m == r.1
  }

  class Interpreter {
    var text: string
    var pos: nat
    const variables: array<int>
    var hadError: bool
    var program: seq<Line>
    var output: string
    const keyboard: nat -> string   // the lines typed in
    var typed: nat
    var errorLine: int

    ghost predicate Valid()
      reads this
    {
      pos <= |text| && variables.Length == VARIABLES
    }

    ghost function State(): Machine
      reads this, variables
      requires variables.Length == VARIABLES
    {
      Machine(variables[..], output, typed)
    }

    constructor (program: seq<Line>, keyboard: nat -> string)
      ensures Valid() && this.program == program && this.keyboard == keyboard && !hadError && fresh(variables) && pos == 0
      ensures State() == Machine(Zeros(), "", 0) && errorLine == 0
    {
      text, pos, hadError, output, typed, errorLine := "", 0, false, "", 0, 0;
      this.program, this.keyboard := program, keyboard;
      variables := new int[VARIABLES](_ => 0);
      new;
      assert variables[..] == Zeros();
    }

    method SkipSpaces()
      requires Valid()
      modifies `pos
      ensures Valid() && pos == Skip(text, old(pos))
    {
      while IsSpace(CharAt(text, pos))
        invariant Valid() && Skip(text, pos) == Skip(text, old(pos))
        decreases |text| - pos
      {
        pos := pos + 1;
      }
    }

    method ParseNumber() returns (v: int)
      requires Valid()
      modifies `pos
      ensures Valid() && (v, pos) == NumberAt(text, old(pos))
    {
      var neg := false;
      if CharAt(text, pos) == '-' {
        neg := true;
        pos := pos + 1;
      }
      ghost var start := pos;
      var val: int := 0;
      while IsDigit(CharAt(text, pos))
        invariant Valid() && val >= 0 && Digits(text, pos, val) == Digits(text, start, 0)
        decreases |text| - pos
      {
        val := val * 10 + Digit(CharAt(text, pos));
        pos := pos + 1;
      }
      v := if neg then -val else val;
    }

    method Factor() returns (v: int)
      requires Valid()
      modifies `pos, `hadError
      ensures Valid() && pos >= old(pos)
      ensures Agrees(ParseFactor(text, old(pos)), variables[..], v, pos, old(hadError), hadError)
      decreases |text| - pos, 0
    {
      hide ParseExpr, Skip, Digits;
      SkipSpaces();
      var c := CharAt(text, pos);
      if c == '(' {
        pos := pos + 1;
        v := Expression();
        SkipSpaces();
        if CharAt(text, pos) == ')' { pos := pos + 1; }
      } else if c == '-' {
        pos := pos + 1;
        v := Factor();
        v := -v;
      } else if IsDigit(c) {
        v := ParseNumber();
      } else if IsLetter(c) {
        v := variables[VarIndex(c)];
        pos := pos + 1;
      } else {
        hadError := true;
        v := 0;
      }
    }

    method Term() returns (v: int)
      requires Valid()
      modifies `pos, `hadError
      ensures Valid() && pos >= old(pos)
      ensures Agrees(ParseTerm(text, old(pos)), variables[..], v, pos, old(hadError), hadError)
      decreases |text| - pos, 1
    {
      hide ParseFactor, ParseTerm, TermRest, Eval, Skip, Agrees, SoFar, Worth;
      ghost var vs, start, whole := variables[..], pos, ParseTerm(text, pos);
      v := Factor();
      ghost var e, failed := TermStarts(text, start, vs, v, pos, old(hadError), hadError);
      while true
        invariant Valid() && pos >= start && SoFar(whole, TermRest(text, e, pos), e, vs, v, failed, old(hadError), hadError)
        decreases |text| - pos
      {
        SkipFirst(text, e, pos);
        SkipSpaces();
        var c := CharAt(text, pos);
        if c != '*' && c != '/' {
          TermEnds(text, whole, e, pos, vs, v, failed, old(hadError), hadError);
          break;
        }
        ghost var q, now := pos, hadError;
        pos := pos + 1;
        var rhs := Factor();
        e, failed := TermMore(text, whole, e, q, vs, v, failed, old(hadError), now, rhs, pos, hadError);
        if c == '/' && rhs == 0 {
          hadError := true;
          NoValue(whole, vs, pos, old(hadError));
          return 0;
        }
        v := if c == '*' then v * rhs else Quotient(v, rhs);
      }
    }

    method Expression() returns (v: int)
      requires Valid()
      modifies `pos, `hadError
      ensures Valid() && pos >= old(pos)
      ensures Agrees(ParseExpr(text, old(pos)), variables[..], v, pos, old(hadError), hadError)
      decreases |text| - pos, 2
    {
      hide ParseTerm, ParseExpr, ExprRest, Eval, Skip, Agrees, SoFar, Worth;
      ghost var vs, start, whole := variables[..], pos, ParseExpr(text, pos);
      SkipSpaces();
      v := Term();
      ghost var e, failed := ExprStarts(text, start, vs, v, pos, old(hadError), hadError);
      while true
        invariant Valid() && pos >= start && SoFar(whole, ExprRest(text, e, pos), e, vs, v, failed, old(hadError), hadError)
        decreases |text| - pos
      {
        SkipFirst(text, e, pos);
        SkipSpaces();
        var c := CharAt(text, pos);
        if c != '+' && c != '-' {
          ExprEnds(text, whole, e, pos, vs, v, failed, old(hadError), hadError);
          break;
        }
        ghost var q, now := pos, hadError;
        pos := pos + 1;
        var rhs := Term();
        e, failed := ExprMore(text, whole, e, q, vs, v, failed, old(hadError), now, rhs, pos, hadError);
        v := if c == '+' then v + rhs else v - rhs;
      }
    }

    /** The relation of a condition. */
    method ParseRelation() returns (ok: bool, relation: Relation)
      requires Valid()
      modifies `pos
      ensures Valid() && pos >= old(pos)
      ensures ok ==> RelationAt(text, old(pos)) == Ok(relation, pos)
      ensures !ok ==> RelationAt(text, old(pos)) == Bad
    {
      var c, d := CharAt(text, pos), CharAt(text, pos + 1);
      ok, relation := true, Eq;
      if c == '<' && d == '=' {
        pos, relation := pos + 2, Le;
      } else if c == '>' && d == '=' {
        pos, relation := pos + 2, Ge;
      } else if c == '<' && d == '>' {
        pos, relation := pos + 2, Ne;
      } else if c == '<' {
        pos, relation := pos + 1, Lt;
      } else if c == '>' {
        pos, relation := pos + 1, Gt;
      } else if c == '=' {
        pos := pos + 1;
      } else {
        ok := false;
      }
    }

    /** parse_condition. */
    method ParseCond() returns (v: bool)
      requires Valid()
      modifies `pos, `hadError
      ensures Valid() && pos >= old(pos)
      ensures CondAgrees(ParseCondition(text, old(pos)), variables[..], v, pos, old(hadError), hadError)
    {
      hide ParseExpr, Eval, Skip, Agrees, CondAgrees, RelationAt, Compare, ParseCondition;
      ghost var start, e0 := pos, hadError;
      var lhs := Expression();
      ghost var p1, e1 := pos, hadError;
      SkipSpaces();
      var ok, relation := ParseRelation();
      if !ok {
        hadError := true;
        NoRelation(text, start, variables[..], lhs, p1, e0, e1, pos);
        return false;
      }
      ghost var p2 := pos;
      var rhs := Expression();
      v := Compare(lhs, relation, rhs);
      Compared(text, start, variables[..], lhs, p1, e0, e1, relation, p2, rhs, pos, hadError);
    }

    /** str_starts_with. */
    method AtKeyword(keyword: string) returns (yes: bool)
      requires Valid()
      ensures yes == StartsWith(text, pos, keyword)
    {
      var k := 0;
      while k < |keyword|
        invariant 0 <= k <= |keyword|
        invariant StartsWith(text, pos + k, keyword[k..]) == StartsWith(text, pos, keyword)
      {
        assert keyword[k..][1..] == keyword[k + 1..];
        if UpperChar(CharAt(text, pos + k)) != keyword[k] { return false; }
        k := k + 1;
      }
      return true;
    }

    /** find_line_index. */
    method FindLineIndex(number: int) returns (index: int)
      ensures LineIndex(Numbers(program), number, 0) == if index < 0 then None else Some(index)
      ensures index >= -1
    {
      for i := 0 to |program|
        invariant LineIndex(Numbers(program), number, i) == LineIndex(Numbers(program), number, 0)
      {
        if program[i].number == number { return i; }
      }
      return -1;
    }

    /** print_int, onto the end of what is printed. */
    method PrintInt(n: int)
      modifies `output
      ensures output == old(output) + IntText(n)
    {
      var u: nat := if n < 0 then -n else n;
      ghost var all := u;
      var buffer: string := "";
      if u == 0 { buffer := "0"; }
      while u > 0
        invariant if u == 0 then buffer == Decimal(all) else Decimal(all) == Decimal(u) + buffer
      {
        buffer := [Numeral(u % 10)] + buffer;
        u := u / 10;
      }
      if n < 0 { buffer := "-" + buffer; }
      output := output + buffer;
    }

    /** LET, after the keyword. */
    method ExecLet() returns (result: int)
      requires Valid() && !hadError
      modifies `pos, `hadError, variables
      ensures Valid()
      ensures Did(Execute(Assignment(text, old(pos)), old(State()), Numbers(program), keyboard), result, State(), hadError)
    {
      hide ParseExpr, Eval, Skip;
      SkipSpaces();
      var c := CharAt(text, pos);
      if !IsLetter(c) { hadError := true; return HALT; }
      pos := pos + 1;
      SkipSpaces();
      if CharAt(text, pos) != '=' { hadError := true; return HALT; }
      pos := pos + 1;
      ghost var vs := variables[..];
      var v := Expression();
      variables[VarIndex(c)] := v;
      assert variables[..] == vs[VarIndex(c) := v];
      return ADVANCE;
    }

    /** KRONK. */
    method ExecKronk() returns (result: int)
      requires Valid()
      modifies variables, `output
      ensures result == ADVANCE && State() == Execute(Wipe, old(State()), Numbers(program), keyboard).1
    {
      for i := 0 to VARIABLES
        invariant output == old(output) && forall j :: 0 <= j < i ==> variables[j] == 0
      {
        variables[i] := 0;
      }
      assert variables[..] == Zeros();
      output := output + WIPED;
      return ADVANCE;
    }

    /** The number typed, read by the same parser; what is typed shows after a prompt. */
    method ReadTyped() returns (v: int)
      requires Valid()
      modifies `typed, `output
      ensures v == Typed(keyboard(old(typed))) && typed == old(typed) + 1
      ensures output == old(output) + "? " + keyboard(old(typed)) + "\n"
    {
      output := output + "? " + keyboard(typed) + "\n";
      var reader := new Interpreter([], keyboard);
      reader.text := keyboard(typed);
      v := reader.ParseNumber();
      typed := typed + 1;
    }

    /** INPUT, after the keyword. */
    method ExecInput() returns (result: int)
      requires Valid() && !hadError
      modifies `pos, `hadError, `typed, `output, variables
      ensures Valid()
      ensures Did(Execute(InputAt(text, old(pos)), old(State()), Numbers(program), keyboard), result, State(), hadError)
    {
      hide Skip;
      SkipSpaces();
      var c := CharAt(text, pos);
      if !IsLetter(c) { hadError := true; return HALT; }
      ghost var vs := variables[..];
      var v := ReadTyped();
      variables[VarIndex(c)] := v;
      assert variables[..] == vs[VarIndex(c) := v];
      return ADVANCE;
    }

    /** A jump to the line with a number, as GOTO and THEN make it. */
    method JumpToLine(target: int, number: int) returns (result: int)
      requires Valid()
      modifies `hadError, `errorLine
      ensures Valid() && LineKept(old(errorLine), errorLine, number, hadError) && (old(hadError) ==> hadError) && result >= HALT
      ensures !old(hadError) ==> Did((JumpTo(Numbers(program), target), State()), result, State(), hadError)
    {
      var ti := FindLineIndex(target);
      if ti < 0 {
        hadError, errorLine := true, number;
        return HALT;
      }
      return ti;
    }

    /** One item of a PRINT statement: a quotation or an expression. */
    method PrintPiece()
      requires Valid() && CharAt(text, pos) != '\0'
      modifies `pos, `hadError, `output
      ensures Valid() && pos >= old(pos) && (old(hadError) ==> hadError)
      ensures PieceDone(PieceAt(text, old(pos)), variables[..], old(output), output, pos, old(hadError), hadError)
    {
      hide ParseExpr, Eval;
      if CharAt(text, pos) == '"' {
        pos := pos + 1;
        ghost var start := pos;
        while CharAt(text, pos) != '\0' && CharAt(text, pos) != '"'
          invariant hadError == old(hadError) && start <= pos <= |text| && QuoteEnd(text, pos) == QuoteEnd(text, start)
          invariant output == old(output) + text[start..pos]
          decreases |text| - pos
        {
          output := output + [CharAt(text, pos)];
          assert text[start..pos + 1] == text[start..pos] + [text[pos]];
          pos := pos + 1;
        }
        if CharAt(text, pos) == '"' { pos := pos + 1; }
      } else {
        var v := Expression();
        PrintInt(v);
      }
    }

    /** PRINT, after the keyword. */
    method ExecPrint() returns (result: int)
      requires Valid() && !hadError
      modifies `pos, `hadError, `output
      ensures Valid()
      ensures Did(Execute(PrintAt(text, old(pos)), old(State()), Numbers(program), keyboard), result, State(), hadError)
    {
      hide PieceAt, Pieces, Skip, PieceDone, Printing, Goal;
      ghost var vs, whole := variables[..], Pieces(text, pos);
      PrintStarts(whole, vs, output);
      var going := true;
      while going
        invariant Valid() && variables[..] == vs
        invariant Printing(whole, if going then Pieces(text, pos) else Some([]), vs, old(output), output, hadError)
        decreases going, |text| - pos
      {
        ghost var start := pos;
        SkipSpaces();
        if CharAt(text, pos) == '\0' {
          PrintEnds(text, start, whole, vs, old(output), output, hadError);
          going := false;
        } else {
          ghost var q, out, error := pos, output, hadError;
          PrintPiece();
          ghost var r, out1 := pos, output;
          SkipSpaces();
          going := CharAt(text, pos) == ',';
          if going {
            pos := pos + 1;
            output := output + " ";
          }
          PrintMore(text, start, whole, vs, old(output), out, error, r, out1, hadError);
        }
      }
      PrintDone(whole, vs, old(output), output, hadError);
      output := output + "\n";
      return ADVANCE;
    }

    /** GOTO, after the keyword. */
    method ExecGoto(number: int) returns (result: int)
      requires Valid() && !hadError
      modifies `pos, `hadError, `errorLine
      ensures Valid() && LineKept(old(errorLine), errorLine, number, hadError)
      ensures Did(Execute(Goto(NumberAt(text, Skip(text, old(pos))).0), old(State()), Numbers(program), keyboard), result, State(), hadError)
    {
      hide NumberAt, Skip;
      SkipSpaces();
      var target := ParseNumber();
      result := JumpToLine(target, number);
    }

    /** GOTO may follow THEN. */
    method SkipGoto()
      requires Valid()
      modifies `pos
      ensures Valid() && TargetAt(text, old(pos)) == NumberAt(text, pos).0
    {
      hide NumberAt, Skip, StartsWith;
      SkipSpaces();
      var goto := AtKeyword("GOTO");
      if goto {
        KeywordInside(text, pos, "GOTO");
        pos := pos + 4;
        SkipSpaces();
      }
    }

    /** IF, from THEN on. */
    method ExecThen(cond: bool, number: int) returns (result: int)
      requires Valid()
      modifies `pos, `hadError, `errorLine
      ensures Valid() && LineKept(old(errorLine), errorLine, number, hadError) && (old(hadError) ==> hadError) && result >= HALT
      ensures !old(hadError) ==> Did(ThenStep(text, old(pos), cond, Numbers(program), State()), result, State(), hadError)
    {
      hide NumberAt, Skip, StartsWith, LineIndex, TargetAt;
      SkipSpaces();
      var found := AtKeyword("THEN");
      if !found { hadError := true; return HALT; }
      KeywordInside(text, pos, "THEN");
      pos := pos + 4;
      SkipGoto();
      if !cond { return ADVANCE; }
      var target := ParseNumber();
      result := JumpToLine(target, number);
    }

    /** IF, after the keyword. */
    method ExecIf(number: int) returns (result: int)
      requires Valid() && !hadError
      modifies `pos, `hadError, `errorLine
      ensures Valid() && LineKept(old(errorLine), errorLine, number, hadError)
      ensures Did(Execute(Branch(text, old(pos)), old(State()), Numbers(program), keyboard), result, State(), hadError)
    {
      hide Skip, ParseCondition, CondAgrees, ThenStep, Did, Execute, Branch;
      ghost var p0 := pos;
      SkipSpaces();
      ghost var start := pos;
      var cond := ParseCond();
      ghost var p1, e1 := pos, hadError;
      result := ExecThen(cond, number);
      BranchDone(text, p0, State(), Numbers(program), keyboard, cond, p1, e1, result, hadError);
    }

    method FindKeyword() returns (keyword: Keyword)
      requires Valid()
      ensures keyword == KeywordAt(text, pos)
    {
      hide StartsWith;
      var here := AtKeyword("REM");
      if here { return KwRem; }
      here := AtKeyword("END");
      if here { return KwEnd; }
      here := AtKeyword("LET");
      if here { return KwLet; }
      here := AtKeyword("KRONK");
      if here { return KwKronk; }
      here := AtKeyword("INPUT");
      if here { return KwInput; }
      here := AtKeyword("PRINT");
      if here { return KwPrint; }
      here := AtKeyword("GOTO");
      if here { return KwGoto; }
      here := AtKeyword("IF");
      if here { return KwIf; }
      return KwNone;
    }

    /** exec_line. */
    method ExecLine(idx: nat) returns (result: int)
      requires Valid() && !hadError && idx < |program|
      modifies `text, `pos, `hadError, `output, `typed, `errorLine, variables
      ensures Valid() && LineKept(old(errorLine), errorLine, program[idx].number, hadError)
      ensures Did(Execute(ParseLine(program[idx].text), old(State()), Numbers(program), keyboard), result, State(), hadError)
    {
      hide Skip, Execute, Assignment, InputAt, PrintAt, Branch, NumberAt, Did, KeywordAt;
      text, pos := program[idx].text, 0;
      ghost var m := State();
      SkipSpaces();
      var keyword := FindKeyword();
      KeywordEnds(text, pos);
      StepDone(ParseLine(text), m, Numbers(program), keyboard);
      match keyword
      case KwRem => result := ADVANCE;
      case KwEnd => result := HALT;
      case KwLet => pos := pos + 3; result := ExecLet();
      case KwKronk => result := ExecKronk();
      case KwInput => pos := pos + 5; result := ExecInput();
      case KwPrint => pos := pos + 5; result := ExecPrint();
      case KwGoto => pos := pos + 4; result := ExecGoto(program[idx].number);
      case KwIf => pos := pos + 2; result := ExecIf(program[idx].number);
      case KwNone => hadError := true; result := HALT;
    }

    /** The run loop of kronk_run: what the program does is what the code read from it does. */
    method RunProgram(limit: nat) returns (outcome: Outcome)
      requires Valid() && !hadError && errorLine == 0
      modifies `text, `pos, `hadError, `output, `typed, `errorLine, variables
      ensures Valid() && outcome == Run(Compile(program), old(State()), 0, 0, limit, keyboard)
    {
      hide Execute, ParseLine;
      ghost var code, m0 := Compile(program), State();
      var pc: nat, steps: nat := 0, 0;
      while pc < |program|
        invariant Valid() && !hadError && errorLine == 0 && steps <= limit
        invariant Run(code, State(), pc, steps, limit, keyboard) == Run(code, m0, 0, 0, limit, keyboard)
        decreases limit + 1 - steps
      {
        var line := program[pc].number;
        var result := ExecLine(pc);
        if hadError { return SyntaxError(if errorLine != 0 then errorLine else line); }
        if result == HALT { break; }
        pc := if result == ADVANCE then pc + 1 else result;
        steps := steps + 1;
        if steps > limit { return TooManySteps(Machine(variables[..], output, typed)); }
      }
      return Finished(Machine(variables[..], output, typed));
    }
  }

  /** The line an error is blamed on: it is set, if at all, to the line being run. */
  ghost predicate LineKept(before: int, after: int, number: int, error: bool) {
    after == before || (error && after == number)
  }

  /** What follows a condition. */
  ghost function ThenStep(s: string, p: nat, cond: bool, numbers: seq<int>, m: Machine): (Step, Machine)
    requires p <= |s|
  {
    var r := Skip(s, p);
    if !(StartsWith(s, r, "THEN") && r + 4 <= |s|) then (Error, m)
    else if cond then (JumpTo(numbers, TargetAt(s, r + 4)), m)
    else (Next, m)
  }

  lemma BranchDone(s: string, p0: nat, m: Machine, numbers: seq<int>, keyboard: nat -> string, cond: bool, p1: nat, e1: bool, result: int, e2: bool)
    requires p0 <= |s| && p1 <= |s| && CondAgrees(ParseCondition(s, Skip(s, p0)), m.vs, cond, p1, false, e1)
    requires (e1 ==> e2) && result >= HALT && (!e1 ==> Did(ThenStep(s, p1, cond, numbers, m), result, m, e2))
    ensures Did(Execute(Branch(s, p0), m, numbers, keyboard), result, m, e2)
  {
    hide Skip, ParseCondition, StartsWith, TargetAt, Eval, Compare, JumpTo;
  }

  lemma KeywordInside(s: string, p: nat, keyword: string)
    requires p <= |s| && StartsWith(s, p, keyword) && forall i :: 0 <= i < |keyword| ==> IsUpper(keyword[i])
    ensures p + |keyword| <= |s|
  {
    StartsInside(s, p, keyword);
  }

  lemma StepDone(st: Statement, m: Machine, numbers: seq<int>, keyboard: nat -> string)
    ensures st == Rem ==> Did(Execute(st, m, numbers, keyboard), ADVANCE, m, false)
    ensures st == End ==> Did(Execute(st, m, numbers, keyboard), HALT, m, false)
    ensures st == Wrong ==> Did(Execute(st, m, numbers, keyboard), HALT, m, true)
    ensures st == Wipe ==> Did(Execute(st, m, numbers, keyboard), ADVANCE, Execute(st, m, numbers, keyboard).1, false)
  {
  }

  /** What printing one piece does. */
  ghost predicate PieceDone(r: Parsed<Piece>, vs: Variables, before: string, after: string, pos: nat, e0: bool, e1: bool) {
    if r.Ok? && PieceText(r.tree, vs).Some? then after == before + PieceText(r.tree, vs).value && pos == r.pos && e1 == e0 else e1
  }

  /** What the output comes to when pieces are printed. */
  function Goal(pieces: Option<seq<Piece>>, vs: Variables, before: string): Option<string> {
    match pieces case None => None case Some(w) => Printed(w, vs, before)
  }

  /** The state of the PRINT loop: the rest still comes to what the whole does, or the flag is set and the
      whole comes to nothing. */
  ghost predicate Printing(whole: Option<seq<Piece>>, rest: Option<seq<Piece>>, vs: Variables, before: string, now: string, error: bool) {
    if error then Goal(whole, vs, before).None? else Goal(whole, vs, before) == Goal(rest, vs, now)
  }

  lemma PrintStarts(whole: Option<seq<Piece>>, vs: Variables, before: string)
    ensures Printing(whole, whole, vs, before, before, false)
  {
  }

  lemma PrintEnds(s: string, p: nat, whole: Option<seq<Piece>>, vs: Variables, before: string, now: string, error: bool)
    requires p <= |s| && CharAt(s, Skip(s, p)) == '\0' && Printing(whole, Pieces(s, p), vs, before, now, error)
    ensures Printing(whole, Some([]), vs, before, now, error)
  {
  }

  lemma PrintedOne(piece: Piece, rest: seq<Piece>, vs: Variables, before: string)
    ensures Printed([piece] + rest, vs, before) ==
      match PieceText(piece, vs) case None => None case Some(t) => Printed(rest, vs, before + t)
  {
    assert ([piece] + rest)[1..] == rest;
  }

  lemma PrintMore(s: string, p: nat, whole: Option<seq<Piece>>, vs: Variables, before: string, out: string, e0: bool, r: nat, out1: string, e1: bool)
    requires p <= |s| && r <= |s| && CharAt(s, Skip(s, p)) != '\0' && (e0 ==> e1)
    requires Printing(whole, Pieces(s, p), vs, before, out, e0) && PieceDone(PieceAt(s, Skip(s, p)), vs, out, out1, r, e0, e1)
    ensures var t := Skip(s, r);
      if CharAt(s, t) == ',' then Printing(whole, Pieces(s, t + 1), vs, before, out1 + " ", e1)
      else Printing(whole, Some([]), vs, before, out1, e1)
  {
    hide ParseExpr, PieceAt, Skip;
    var piece := PieceAt(s, Skip(s, p));
    if !e0 && piece.Ok? {
      var t := Skip(s, piece.pos);
      if CharAt(s, t) == ',' {
        var rest := Pieces(s, t + 1);
        if rest.Some? {
          assert [piece.tree, Gap] + rest.value == [piece.tree] + ([Gap] + rest.value);
          PrintedOne(piece.tree, [Gap] + rest.value, vs, out);
          PrintedOne(Gap, rest.value, vs, out1);
        }
      } else {
        assert [piece.tree] == [piece.tree] + [];
        PrintedOne(piece.tree, [], vs, out);
      }
    }
  }

  lemma PrintDone(whole: Option<seq<Piece>>, vs: Variables, before: string, now: string, error: bool)
    requires Printing(whole, Some([]), vs, before, now, error)
    ensures Goal(whole, vs, before) == if error then None else Some(now)
    ensures whole.Some? ==> Goal(whole, vs, before) == Printed(whole.value, vs, before)
    ensures whole.None? ==> error
  {
  }

  lemma NoRelation(s: string, start: nat, vs: Variables, lhs: int, p1: nat, e0: bool, e1: bool, pos: nat)
    requires start <= |s| && p1 <= |s| && Agrees(ParseExpr(s, start), vs, lhs, p1, e0, e1) && RelationAt(s, Skip(s, p1)).Bad?
    ensures CondAgrees(ParseCondition(s, start), vs, false, pos, e0, true)
  {
  }

  lemma Compared(s: string, start: nat, vs: Variables, lhs: int, p1: nat, e0: bool, e1: bool, relation: Relation, p2: nat,
                 rhs: int, p3: nat, e2: bool)
    requires start <= |s| && p1 <= |s| && p2 <= |s| && Agrees(ParseExpr(s, start), vs, lhs, p1, e0, e1)
    requires RelationAt(s, Skip(s, p1)) == Ok(relation, p2) && Agrees(ParseExpr(s, p2), vs, rhs, p3, e1, e2)
    ensures CondAgrees(ParseCondition(s, start), vs, Compare(lhs, relation, rhs), p3, e0, e2)
  {
    hide Compare, RelationAt;
  }
}
