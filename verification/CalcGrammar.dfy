/** The language of the shell's calculator, as a grammar with values, independent of the parser.

    A derivation records the blanks and literals it is written with, so its text is a function of it.
    The value of a hex literal depends on whether it ends the text, because parse_num reads on. */
module CalcGrammar {
  import opened Common
  import opened Numbers

  datatype Factor =
    | Literal(ws: string, text: string)
    | Sign(ws: string, minus: bool, operand: Factor)
    | Paren(ws: string, inner: Expr, ws2: string)

  datatype Term =
    | One(f: Factor)
    | TermOp(left: Term, ws: string, op: char, right: Factor)

  datatype Expr =
    | Single(t: Term)
    | ExprOp(left: Expr, ws: string, op: char, right: Term)

  // ---------- well-formed derivations and their text ----------

  predicate IsLiteral(t: string) {
    || (HasHexPrefix(t) && AllHexDigits(t[2..]))
    || (t != "" && AllDigits(t))
  }

  predicate IsTermOp(c: char) {
    c == '*' || c == '/' || c == '%'
  }

  predicate IsExprOp(c: char) {
    c == '+' || c == '-'
  }

  predicate OkFactor(f: Factor) {
    match f
    case Literal(ws, text) => Blanks(ws) && IsLiteral(text)
    case Sign(ws, _, g) => Blanks(ws) && OkFactor(g)
    case Paren(ws, e, ws2) => Blanks(ws) && OkExpr(e) && Blanks(ws2)
  }

  predicate OkTerm(t: Term) {
    match t
    case One(f) => OkFactor(f)
    case TermOp(l, ws, op, r) => OkTerm(l) && Blanks(ws) && IsTermOp(op) && OkFactor(r)
  }

  predicate OkExpr(e: Expr) {
    match e
    case Single(t) => OkTerm(t)
    case ExprOp(l, ws, op, r) => OkExpr(l) && Blanks(ws) && IsExprOp(op) && OkTerm(r)
  }

  function FactorText(f: Factor): string {
    match f
    case Literal(ws, text) => ws + text
    case Sign(ws, minus, g) => ws + (if minus then "-" else "+") + FactorText(g)
    case Paren(ws, e, ws2) => ws + "(" + ExprText(e) + ws2 + ")"
  }

  function TermText(t: Term): string {
    match t
    case One(f) => FactorText(f)
    case TermOp(l, ws, op, r) => TermText(l) + ws + [op] + FactorText(r)
  }

  function ExprText(e: Expr): string {
    match e
    case Single(t) => TermText(t)
    case ExprOp(l, ws, op, r) => ExprText(l) + ws + [op] + TermText(r)
  }

  // ---------- 64-bit arithmetic ----------

  const INT64_MIN: int := -0x8000_0000_0000_0000
  const INT64_MAX: int := 0x7fff_ffff_ffff_ffff

  type Int64 = x: int | INT64_MIN <= x <= INT64_MAX

  // The 64-bit value congruent to x; C leaves a signed result out of range undefined.
  function Wrap(x: int): Int64 {
    var r := x % WORD_LIMIT;
    if r > INT64_MAX then r - WORD_LIMIT else r
  }

  // Division and remainder truncate toward zero (section 6.5.5 of ISO/IEC 9899:1999).
  function Quotient(a: int, b: int): int
    requires b != 0
  {
    if (a >= 0) == (b > 0) then Abs(a) / Abs(b) else -(Abs(a) / Abs(b))
  }

  function Remainder(a: int, b: int): int
    requires b != 0
  {
    a - Quotient(a, b) * b
  }

  function Abs(a: int): nat {
    if a < 0 then -a else a
  }

  // A value, a zero divisor, or a division that never completes: INT64_MIN by -1 has a quotient that
  // does not fit, for '%' as well as for '/', so the processor raises the divide exception, whose
  // handler returns to the same instruction.
  datatype Result<+T> = Value(value: T) | ZeroDivisor | Trap

  predicate Traps(a: int, b: int) {
    a == INT64_MIN && b == -1
  }

  // What a binary operator gives over the integers.
  function Apply(op: char, a: int, b: int): Result<int> {
    if op == '+' then Value(a + b)
    else if op == '-' then Value(a - b)
    else if op == '*' then Value(a * b)
    else if b == 0 then ZeroDivisor
    else if Traps(a, b) then Trap
    else if op == '/' then Value(Quotient(a, b))
    else Value(Remainder(a, b))
  }

  // ---------- values ----------

  function LiteralValue(text: string, last: bool): nat
    requires IsLiteral(text)
  {
    if HasHexPrefix(text) then (if last then HexValue(text[2..]) else 16 * HexValue(text[2..]))
    else DecValue(text)
  }

  function Wrapped(x: Result<int>): Result<Int64> {
    match x
    case Value(v) => Value(Wrap(v))
    case ZeroDivisor => ZeroDivisor
    case Trap => Trap
  }

  function Negated(x: Result<int>): Result<int> {
    match x
    case Value(v) => Value(-v)
    case _ => x
  }

  // Both operands are evaluated, the left one first, before the operator is applied.
  function Combine(op: char, a: Result<int>, b: Result<int>): Result<int> {
    if !a.Value? then a
    else if !b.Value? then b
    else Apply(op, a.value, b.value)
  }

  // The left-associative 64-bit value; last says that nothing follows the text.
  function FactorValue(f: Factor, last: bool): Result<Int64>
    requires OkFactor(f)
  {
    match f
    case Literal(_, text) => Value(Wrap(LiteralValue(text, last)))
    case Sign(_, minus, g) => if minus then Wrapped(Negated(FactorValue(g, last))) else FactorValue(g, last)
    case Paren(_, e, _) => ExprValue(e, false)
  }

  function TermValue(t: Term, last: bool): Result<Int64>
    requires OkTerm(t)
  {
    match t
    case One(f) => FactorValue(f, last)
    case TermOp(l, _, op, r) => Wrapped(Combine(op, TermValue(l, false), FactorValue(r, last)))
  }

  function ExprValue(e: Expr, last: bool): Result<Int64>
    requires OkExpr(e)
  {
    match e
    case Single(t) => TermValue(t, last)
    case ExprOp(l, _, op, r) => Wrapped(Combine(op, ExprValue(l, false), TermValue(r, last)))
  }

  // s is a derivation followed by blanks, and its value is v.
  ghost predicate Denotes(s: string, e: Expr, trail: string, v: Int64) {
    OkExpr(e) && Blanks(trail) && s == ExprText(e) + trail && ExprValue(e, trail == "") == Value(v)
  }

  // ---------- syntax trees ----------

  datatype Ast = Num(n: nat) | Neg(a: Ast) | Bin(op: char, l: Ast, r: Ast)

  predicate OkAst(a: Ast) {
    match a
    case Num(_) => true
    case Neg(b) => OkAst(b)
    case Bin(op, l, r) => (IsTermOp(op) || IsExprOp(op)) && OkAst(l) && OkAst(r)
  }

  // The value over the integers.
  function IntValue(a: Ast): Result<int> {
    match a
    case Num(n) => Value(n)
    case Neg(b) => Negated(IntValue(b))
    case Bin(op, l, r) => Combine(op, IntValue(l), IntValue(r))
  }

  // Every number and intermediate result that exists fits in 64 bits.
  predicate NoOverflow(a: Ast) {
    && (IntValue(a).Value? ==> INT64_MIN <= IntValue(a).value <= INT64_MAX)
    && match a
       case Num(_) => true
       case Neg(b) => NoOverflow(b)
       case Bin(_, l, r) => NoOverflow(l) && NoOverflow(r)
  }

  // The tree a derivation stands for, with every literal at its face value.
  function FaceValue(text: string): nat
    requires IsLiteral(text)
  {
    LiteralValue(text, true)
  }

  function FactorAst(f: Factor): Ast
    requires OkFactor(f)
  {
    match f
    case Literal(_, text) => Num(FaceValue(text))
    case Sign(_, minus, g) => if minus then Neg(FactorAst(g)) else FactorAst(g)
    case Paren(_, e, _) => ExprAst(e)
  }

  function TermAst(t: Term): Ast
    requires OkTerm(t)
  {
    match t
    case One(f) => FactorAst(f)
    case TermOp(l, _, op, r) => Bin(op, TermAst(l), FactorAst(r))
  }

  function ExprAst(e: Expr): Ast
    requires OkExpr(e)
  {
    match e
    case Single(t) => TermAst(t)
    case ExprOp(l, _, op, r) => Bin(op, ExprAst(l), TermAst(r))
  }

  // A hex literal other than zero occurs, if at all, only at the very end of the text.
  predicate FactorHexLast(f: Factor, last: bool) {
    match f
    case Literal(_, text) => HasHexPrefix(text) && AllHexDigits(text[2..]) && HexValue(text[2..]) != 0 ==> last
    case Sign(_, _, g) => FactorHexLast(g, last)
    case Paren(_, e, _) => ExprHexLast(e, false)
  }

  predicate TermHexLast(t: Term, last: bool) {
    match t
    case One(f) => FactorHexLast(f, last)
    case TermOp(l, _, _, r) => TermHexLast(l, false) && FactorHexLast(r, last)
  }

  predicate ExprHexLast(e: Expr, last: bool) {
    match e
    case Single(t) => TermHexLast(t, last)
    case ExprOp(l, _, _, r) => ExprHexLast(l, false) && TermHexLast(r, last)
  }

  // A tree written out with parentheses only where the grammar needs them.
  function AsExpr(a: Ast): Expr
    requires OkAst(a)
    decreases a, 0
  {
    match a
    case Num(n) => Single(One(Literal("", DecDigits(n))))
    case Neg(b) => Single(One(Sign("", true, AsFactor(b))))
    case Bin(op, l, r) =>
      if IsExprOp(op) then ExprOp(AsExpr(l), "", op, AsTerm(r))
      else Single(TermOp(AsTerm(l), "", op, AsFactor(r)))
  }

  function AsFactor(a: Ast): Factor
    requires OkAst(a)
    decreases a, 1
  {
    match a
    case Num(n) => Literal("", DecDigits(n))
    case Neg(b) => Sign("", true, AsFactor(b))
    case Bin(_, _, _) => Paren("", AsExpr(a), "")
  }

  function AsTerm(a: Ast): Term
    requires OkAst(a)
    decreases a, 2
  {
    if a.Bin? && IsTermOp(a.op) then TermOp(AsTerm(a.l), "", a.op, AsFactor(a.r))
    else One(AsFactor(a))
  }

  function Print(a: Ast): string
    requires OkAst(a)
  {
    ExprText(AsExpr(a))
  }
}
