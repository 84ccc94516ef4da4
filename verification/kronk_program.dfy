/** KRONK programs as values: what each line says, and what running a program does. Statements are those of
    kernel/kronk.c:162-263, and a run is the loop of kernel/kronk.c:325-348. */
module KronkProgram {
  import opened Options
  import opened KronkSyntax

  datatype Relation = Le | Ge | Ne | Lt | Gt | Eq

  /** A piece of a PRINT statement. */
  datatype Piece = Quote(text: string) | Value(e: Expr) | Gap

  datatype Statement =
    | Rem
    | End
    | Let(index: nat, e: Expr)
    | Wipe
    | Input(index: nat)
    | Print(pieces: seq<Piece>)
    | Goto(target: int)
    | If(a: Expr, relation: Relation, b: Expr, target: int)
    | Wrong

  // ---------------------------------------------------------------- reading a line

  function UpperChar(c: char): char { if IsLower(c) then (c as int - 'a' as int + 'A' as int) as char else c }

  /** Whether a keyword stands at p, in either case. */
  predicate StartsWith(s: string, p: nat, keyword: string)
    decreases |keyword|
  {
    keyword == [] || (UpperChar(CharAt(s, p)) == keyword[0] && StartsWith(s, p + 1, keyword[1..]))
  }

  function Signed(negative: bool, n: int): int { if negative then -n else n }

  /** A number as parse_number reads it, with an optional sign. */
  function NumberAt(s: string, p: nat): (r: (int, nat))
    requires p <= |s|
    ensures p <= r.1 <= |s|
  {
    var negative := CharAt(s, p) == '-' && p < |s|;
    var d := Digits(s, if negative then p + 1 else p, 0);
    (Signed(negative, d.0), d.1)
  }

  /** A relation at p and the position after it. */
  function RelationAt(s: string, p: nat): (r: Parsed<Relation>)
    requires p <= |s|
    ensures r.Ok? ==> p < r.pos <= |s|
  {
    var c, d := CharAt(s, p), CharAt(s, p + 1);
    if p >= |s| then Bad
    else if c == '<' && d == '=' && p + 1 < |s| then Ok(Le, p + 2)
    else if c == '>' && d == '=' && p + 1 < |s| then Ok(Ge, p + 2)
    else if c == '<' && d == '>' && p + 1 < |s| then Ok(Ne, p + 2)
    else if c == '<' then Ok(Lt, p + 1)
    else if c == '>' then Ok(Gt, p + 1)
    else if c == '=' then Ok(Eq, p + 1)
    else Bad
  }

  datatype Condition = Condition(a: Expr, relation: Relation, b: Expr)

  function ParseCondition(s: string, p: nat): (r: Parsed<Condition>)
    requires p <= |s|
    ensures r.Ok? ==> p <= r.pos <= |s|
  {
    match ParseExpr(s, p)
    case Bad => Bad
    case Ok(a, q) =>
      match RelationAt(s, Skip(s, q))
      case Bad => Bad
      case Ok(relation, t) =>
        match ParseExpr(s, t)
        case Bad => Bad
        case Ok(b, u) => Ok(Condition(a, relation, b), u)
  }

  /** The end of a quotation: the closing quote or the end of the text. */
  function QuoteEnd(s: string, p: nat): (q: nat)
    requires p <= |s|
    ensures p <= q <= |s|
    decreases |s| - p
  {
    if p < |s| && s[p] != '\0' && s[p] != '"' then QuoteEnd(s, p + 1) else p
  }

  /** One piece at p and the position after it. */
  function PieceAt(s: string, p: nat): (r: Parsed<Piece>)
    requires p <= |s|
    ensures r.Ok? ==> p < r.pos <= |s|
  {
    if p < |s| && s[p] == '"' then
      var q := QuoteEnd(s, p + 1);
      Ok(Quote(s[p + 1..q]), if q < |s| && s[q] == '"' then q + 1 else q)
    else
      match ParseExpr(s, p)
      case Bad => Bad
      case Ok(e, q) => Ok(Value(e), q)
  }

  function Pieces(s: string, p: nat): Option<seq<Piece>>
    requires p <= |s|
    decreases |s| - p
  {
    var q := Skip(s, p);
    if CharAt(s, q) == '\0' then Some([])
    else
      match PieceAt(s, q)
      case Bad => None
      case Ok(piece, r) =>
        var t := Skip(s, r);
        if t < |s| && s[t] == ',' then
          match Pieces(s, t + 1)
          case None => None
          case Some(rest) => Some([piece, Gap] + rest)
        else Some([piece])
  }

  function Assignment(s: string, p: nat): Statement
    requires p <= |s|
  {
    var q := Skip(s, p);
    if !IsLetter(CharAt(s, q)) then Wrong
    else
      var r := Skip(s, q + 1);
      if CharAt(s, r) != '=' then Wrong
      else
        match ParseExpr(s, r + 1)
        case Bad => Wrong
        case Ok(e, _) => Let(VarIndex(CharAt(s, q)), e)
  }

  /** The target after THEN, with or without GOTO. */
  function TargetAt(s: string, p: nat): int
    requires p <= |s|
  {
    var q := Skip(s, p);
    var r := if StartsWith(s, q, "GOTO") && q + 4 <= |s| then Skip(s, q + 4) else q;
    NumberAt(s, r).0
  }

  function Branch(s: string, p: nat): Statement
    requires p <= |s|
  {
    match ParseCondition(s, Skip(s, p))
    case Bad => Wrong
    case Ok(c, q) =>
      var r := Skip(s, q);
      if StartsWith(s, r, "THEN") && r + 4 <= |s| then If(c.a, c.relation, c.b, TargetAt(s, r + 4)) else Wrong
  }

  datatype Keyword = KwRem | KwEnd | KwLet | KwKronk | KwInput | KwPrint | KwGoto | KwIf | KwNone

  /** The first of the keywords, in the order they are tried, that stands at p. */
  function KeywordAt(s: string, p: nat): Keyword {
    if StartsWith(s, p, "REM") then KwRem
    else if StartsWith(s, p, "END") then KwEnd
    else if StartsWith(s, p, "LET") then KwLet
    else if StartsWith(s, p, "KRONK") then KwKronk
    else if StartsWith(s, p, "INPUT") then KwInput
    else if StartsWith(s, p, "PRINT") then KwPrint
    else if StartsWith(s, p, "GOTO") then KwGoto
    else if StartsWith(s, p, "IF") then KwIf
    else KwNone
  }

  function InputAt(s: string, p: nat): Statement
    requires p <= |s|
  {
    var q := Skip(s, p);
    if IsLetter(CharAt(s, q)) then Input(VarIndex(CharAt(s, q))) else Wrong
  }

  function PrintAt(s: string, p: nat): Statement
    requires p <= |s|
  {
    match Pieces(s, p) case None => Wrong case Some(pieces) => Print(pieces)
  }

  /** What a line says. */
  function ParseLine(s: string): Statement {
    var p := Skip(s, 0);
    KeywordEnds(s, p);
    match KeywordAt(s, p)
    case KwRem => Rem
    case KwEnd => End
    case KwLet => Assignment(s, p + 3)
    case KwKronk => Wipe
    case KwInput => InputAt(s, p + 5)
    case KwPrint => PrintAt(s, p + 5)
    case KwGoto => Goto(NumberAt(s, Skip(s, p + 4)).0)
    case KwIf => Branch(s, p + 2)
    case KwNone => Wrong
  }

  lemma KeywordEnds(s: string, p: nat)
    requires p <= |s|
    ensures KeywordAt(s, p) == KwLet ==> p + 3 <= |s|
    ensures KeywordAt(s, p) == KwInput || KeywordAt(s, p) == KwPrint ==> p + 5 <= |s|
    ensures KeywordAt(s, p) == KwGoto ==> p + 4 <= |s|
    ensures KeywordAt(s, p) == KwIf ==> p + 2 <= |s|
  {
    hide StartsWith;
    if StartsWith(s, p, "LET") { StartsInside(s, p, "LET"); }
    if StartsWith(s, p, "INPUT") { StartsInside(s, p, "INPUT"); }
    if StartsWith(s, p, "PRINT") { StartsInside(s, p, "PRINT"); }
    if StartsWith(s, p, "GOTO") { StartsInside(s, p, "GOTO"); }
    if StartsWith(s, p, "IF") { StartsInside(s, p, "IF"); }
  }

  /** A keyword that stands at p ends inside the text. */
  lemma {:induction false} StartsInside(s: string, p: nat, keyword: string)
    requires StartsWith(s, p, keyword) && p <= |s| && forall c <- keyword :: IsUpper(c)
    ensures p + |keyword| <= |s|
    decreases |keyword|
  {
    if keyword != [] {
      assert keyword[0] in keyword && IsUpper(keyword[0]);
      assert UpperChar('\0') == '\0';
      assert forall c <- keyword[1..] :: c in keyword;
      StartsInside(s, p + 1, keyword[1..]);
    }
  }

  // ---------------------------------------------------------------- doing what a line says

  /** The variables, what has been printed, and how many lines have been typed in. */
  datatype Machine = Machine(vs: Variables, output: string, typed: nat)

  datatype Step = Next | Jump(index: nat) | Stop | Error

  function Zeros(): (vs: Variables)
    ensures forall i :: 0 <= i < VARIABLES ==> vs[i] == 0
  {
    seq(VARIABLES, _ => 0)
  }

  function Compare(a: int, relation: Relation, b: int): bool {
    match relation
    case Le => a <= b
    case Ge => a >= b
    case Ne => a != b
    case Lt => a < b
    case Gt => a > b
    case Eq => a == b
  }

  /** A number as it is printed. */
  function IntText(n: int): string { if n < 0 then "-" + Decimal(-n) else Decimal(n) }

  function PieceText(piece: Piece, vs: Variables): Option<string> {
    match piece
    case Quote(text) => Some(text)
    case Gap => Some(" ")
    case Value(e) => (match Eval(e, vs) case Some(v) => Some(IntText(v)) case None => None)
  }

  /** The pieces printed after what is there, unless one has no value. */
  function Printed(pieces: seq<Piece>, vs: Variables, before: string): Option<string> {
    if pieces == [] then Some(before)
    else
      match PieceText(pieces[0], vs)
      case None => None
      case Some(t) => Printed(pieces[1..], vs, before + t)
  }

  /** The first line with a number. */
  function LineIndex(numbers: seq<int>, target: int, i: nat): Option<nat>
    decreases |numbers| - i
  {
    if i >= |numbers| then None else if numbers[i] == target then Some(i) else LineIndex(numbers, target, i + 1)
  }

  function JumpTo(numbers: seq<int>, target: int): Step {
    match LineIndex(numbers, target, 0)
    case None => Error
    case Some(i) => Jump(i)
  }

  function Typed(text: string): int { NumberAt(text, 0).0 }

  function Execute(st: Statement, m: Machine, numbers: seq<int>, keyboard: nat -> string): (Step, Machine) {
    match st
    case Rem => (Next, m)
    case End => (Stop, m)
    case Let(i, e) =>
      (match Eval(e, m.vs) case None => (Error, m) case Some(v) => (Next, if i < VARIABLES then m.(vs := m.vs[i := v]) else m))
    case Wipe => (Next, m.(vs := Zeros(), output := m.output + WIPED))
    case Input(i) =>
      (Next, m.(vs := if i < VARIABLES then m.vs[i := Typed(keyboard(m.typed))] else m.vs, typed := m.typed + 1,
                output := m.output + "? " + keyboard(m.typed) + "\n"))
    case Print(pieces) =>
      (match Printed(pieces, m.vs, m.output) case None => (Error, m) case Some(t) => (Next, m.(output := t + "\n")))
    case Goto(target) => (JumpTo(numbers, target), m)
    case If(a, relation, b, target) =>
      (match (Eval(a, m.vs), Eval(b, m.vs))
       case (Some(x), Some(y)) => if Compare(x, relation, y) then (JumpTo(numbers, target), m) else (Next, m)
       case _ => (Error, m))
    case Wrong => (Error, m)
  }

  const WIPED := "KRONK! WRONG LEVER. EVERY VARIABLE IS NOW ZERO. YOU'RE WELCOME.\n"

  // ---------------------------------------------------------------- running a program

  datatype Code = Code(numbers: seq<int>, statements: seq<Statement>)

  datatype Outcome = Finished(m: Machine) | SyntaxError(line: int) | TooManySteps(m: Machine)

  function Run(code: Code, m: Machine, pc: nat, steps: nat, limit: nat, keyboard: nat -> string): Outcome
    requires |code.numbers| == |code.statements|
    decreases limit + 1 - steps
  {
    if pc >= |code.statements| || steps > limit then Finished(m)
    else
      var (step, m') := Execute(code.statements[pc], m, code.numbers, keyboard);
      match step
      case Error => SyntaxError(code.numbers[pc])
      case Stop => Finished(m')
      case Next => if steps + 1 > limit then TooManySteps(m') else Run(code, m', pc + 1, steps + 1, limit, keyboard)
      case Jump(i) => if steps + 1 > limit then TooManySteps(m') else Run(code, m', i, steps + 1, limit, keyboard)
  }

  // ---------------------------------------------------------------- printing numbers and reading them

  lemma DigitsOfDecimal(n: nat, before: string)
    ensures var s := before + Decimal(n); Digits(s, |before|, 0) == (n, |s|)
    ensures var s := before + Decimal(n); |before| < |s| && IsDigit(s[|before|])
  {
    var s := before + Decimal(n);
    assert s[|before|..|before| + |Decimal(n)|] == Decimal(n);
    NumberRead(s, |before|, n);
  }

  /** Every number printed is read back as itself. */
  lemma PrintedReadsBack(n: int)
    ensures Typed(IntText(n)) == n && NumberAt(IntText(n), 0).1 == |IntText(n)|
  {
    if n < 0 { DigitsOfDecimal(-n, "-"); } else { DigitsOfDecimal(n, ""); assert "" + Decimal(n) == Decimal(n); }
  }

  lemma {:induction false} DecimalLength(n: nat, k: nat)
    requires k > 0 && n < Power(k)
    ensures |Decimal(n)| <= k
    decreases k
  {
    if n >= 10 { DecimalLength(n / 10, k - 1); }
  }

  /** Any 32-bit number fits the eleven characters of the buffer. */
  lemma PrintedFits(n: int)
    requires -0x8000_0000 <= n < 0x8000_0000
    ensures |IntText(n)| <= 11
  {
    assert Power(10) == 10000000000;
    DecimalLength(if n < 0 then -n else n, 10);
  }
}
