/** What the calculator's answers are as numbers: its operators on all operands, their order and the
    blanks around them, stated on texts and answers alone. */
module CalcArithmetic {
  import opened Common
  import opened Numbers
  import opened CalcGrammar
  import opened CalcParser
  import opened CalcTheorem

  // ---------- one operator ----------

  // A tree for any 64-bit number.
  function Number(a: Int64): (t: Ast)
    ensures OkAst(t)
  {
    if a == INT64_MIN then Bin('-', Neg(Num(INT64_MAX)), Num(1))
    else if a < 0 then Neg(Num(-a))
    else Num(a)
  }

  // The answer to a op b, written out and calculated.
  function Answer(op: char, a: Int64, b: Int64): Outcome
    requires IsTermOp(op) || IsExprOp(op)
  {
    Evaluate(Print(Bin(op, Number(a), Number(b))))
  }

  lemma NumberIs(a: Int64)
    ensures OkAst(Number(a)) && NoOverflow(Number(a)) && IntValue(Number(a)) == Value(a as int)
  {
    assert IntValue(Neg(Num(INT64_MAX))) == Value(-INT64_MAX);
  }

  lemma AnswerIs(op: char, a: Int64, b: Int64)
    requires IsTermOp(op) || IsExprOp(op)
    requires Apply(op, a, b).Value? ==> INT64_MIN <= Apply(op, a, b).value <= INT64_MAX
    ensures var v := Apply(op, a, b);
      if v.Value? then Answer(op, a, b) == Outcome(v.value, "", 0) else Stopped(Answer(op, a, b), v)
  {
    hide Evaluate, Print, Apply, Number;
    NumberIs(a);
    NumberIs(b);
    var t := Bin(op, Number(a), Number(b));
    assert IntValue(t) == Apply(op, a, b);
    PrintThenCalculate(t);
  }

  // Sums, differences and products that fit in 64 bits are the integer ones.
  lemma RingOperators(a: Int64, b: Int64)
    ensures INT64_MIN <= a + b <= INT64_MAX ==> Answer('+', a, b) == Outcome(a + b, "", 0)
    ensures INT64_MIN <= a - b <= INT64_MAX ==> Answer('-', a, b) == Outcome(a - b, "", 0)
    ensures INT64_MIN <= a * b <= INT64_MAX ==> Answer('*', a, b) == Outcome(a * b, "", 0)
  {
    hide Answer;
    if INT64_MIN <= a + b <= INT64_MAX {
      AnswerIs('+', a, b);
    }
    if INT64_MIN <= a - b <= INT64_MAX {
      AnswerIs('-', a, b);
    }
    if INT64_MIN <= a * b <= INT64_MAX {
      AnswerIs('*', a, b);
    }
  }

  // q and r are the quotient and the remainder of a by b, truncated toward zero: they make up a, the
  // remainder is smaller than the divisor, and it has the sign of a. Nothing else has these properties.
  predicate Truncated(a: int, b: int, q: int, r: int) {
    && a == q * b + r
    && (if b > 0 then -b < r < b else b < r < -b)
    && (a >= 0 ==> r >= 0) && (a <= 0 ==> r <= 0)
  }

  lemma TruncatedUnique(a: int, b: int, q: int, r: int, q': int, r': int)
    requires b != 0 && Truncated(a, b, q, r) && Truncated(a, b, q', r')
    ensures q == q' && r == r'
  {
    var d := q - q';
    assert d * b == r' - r;
    var m := if b > 0 then b else -b;
    assert d * m == (if b > 0 then r' - r else r - r') && -d * m == (if b > 0 then r - r' else r' - r);
    if d >= 1 {
      TimesAtLeast(d, m);
    } else if d <= -1 {
      TimesAtLeast(-d, m);
    }
  }

  // Quotient and remainder are the truncated ones whenever there is an answer; a zero divisor is an
  // error; and the most negative number by -1 has no answer.
  lemma Divisions(a: Int64, b: Int64)
    ensures var q, r := Answer('/', a, b), Answer('%', a, b);
      if b == 0 then q.err in {1, 2} && r.err in {1, 2}
      else if a == -0x8000_0000_0000_0000 && b == -1 then q.err == TRAP && r.err == TRAP
      else q.err == 0 && r.err == 0 && q.rest == "" && r.rest == "" && Truncated(a, b, q.v, r.v)
  {
    hide Answer, Quotient, Remainder;
    if b != 0 && !Traps(a, b) {
      QuotientTruncates(a, b);
      QuotientFits(a, b, Quotient(a, b), Remainder(a, b));
    }
    AnswerIs('/', a, b);
    AnswerIs('%', a, b);
  }

  lemma QuotientTruncates(a: int, b: int)
    requires b != 0
    ensures Truncated(a, b, Quotient(a, b), Remainder(a, b))
  {
    var x, y := Abs(a), Abs(b);
    var k, m := x / y, x % y;
    assert x == k * y + m;
    TruncatesWith(a, b, k, m);
  }

  lemma TruncatesWith(a: int, b: int, k: nat, m: nat)
    requires b != 0 && Abs(a) == k * Abs(b) + m && m < Abs(b)
    ensures var q := if (a >= 0) == (b > 0) then k else 0 - k; Truncated(a, b, q, a - q * b)
  {
    SignedProducts(k, Abs(b));
    if a == 0 {
      NoQuotient(k, Abs(b), m);
    }
  }

  lemma SignedProducts(k: nat, y: nat)
    ensures (0 - k) * y == 0 - k * y && k * (0 - y) == 0 - k * y && (0 - k) * (0 - y) == k * y
  {
  }

  lemma NoQuotient(k: nat, y: nat, m: nat)
    requires k * y + m == 0 && y > 0
    ensures k == 0 && m == 0
  {
    if k > 0 {
      TimesAtLeast(k, y);
    }
  }

  lemma QuotientFits(a: Int64, b: Int64, q: int, r: int)
    requires b != 0 && Truncated(a, b, q, r) && !Traps(a, b)
    ensures INT64_MIN <= q <= INT64_MAX && INT64_MIN <= r <= INT64_MAX
  {
    var n, m := (if q < 0 then 0 - q else q), (if b < 0 then 0 - b else 0 + b);
    assert n * m == (if (q < 0) == (b < 0) then q * b else -(q * b));
    if m == 1 {
      assert r == 0;
    } else {
      assert n * m >= 2 * n by {
        assert n * m == 2 * n + n * (m - 2);
        Products(n, m - 2);
      }
    }
  }

  lemma Products(a: nat, b: nat)
    ensures a * b >= 0
  {
  }

  // ---------- several operators, and what stands around them ----------

  function Literally(n: nat): Factor {
    Literal("", DecDigits(n))
  }

  // A number by itself, as a term and as an expression.
  lemma Alone(n: nat, last: bool)
    requires n <= INT64_MAX
    ensures var f := Literally(n);
      && OkFactor(f) && FactorText(f) == DecDigits(n) && FactorValue(f, last) == Value(n)
      && OkTerm(One(f)) && TermText(One(f)) == DecDigits(n) && TermValue(One(f), last) == Value(n)
      && OkExpr(Single(One(f))) && ExprText(Single(One(f))) == DecDigits(n) && ExprValue(Single(One(f)), last) == Value(n)
  {
    hide DecDigits;
    NumberLiteral(n);
    WrapSmall(n);
    var f := Literally(n);
    assert "" + DecDigits(n) == DecDigits(n);
    assert OkFactor(f) && FactorText(f) == DecDigits(n) && FactorValue(f, last) == Value(n);
    assert OkTerm(One(f)) && TermText(One(f)) == DecDigits(n) && TermValue(One(f), last) == Value(n);
  }

  lemma SumOf(l: Expr, op: char, t: Term, last: bool, x: Int64, y: Int64)
    requires OkExpr(l) && OkTerm(t) && IsExprOp(op)
    requires ExprValue(l, false) == Value(x as int) && TermValue(t, last) == Value(y as int)
    requires INT64_MIN <= (if op == '+' then x + y else x - y) <= INT64_MAX
    ensures var e := ExprOp(l, "", op, t);
      && OkExpr(e) && ExprText(e) == ExprText(l) + [op] + TermText(t)
      && ExprValue(e, last) == Value(if op == '+' then x + y else x - y)
  {
    hide OkTerm, TermText, TermValue;
    var left := ExprText(l);
    assert left + "" + [op] + TermText(t) == left + [op] + TermText(t);
    WrapSmall(if op == '+' then x + y else x - y);
  }

  lemma ProductOf(l: Term, f: Factor, last: bool, x: Int64, y: Int64)
    requires OkTerm(l) && OkFactor(f)
    requires TermValue(l, false) == Value(x as int) && FactorValue(f, last) == Value(y as int)
    requires INT64_MIN <= x * y <= INT64_MAX
    ensures var t := TermOp(l, "", '*', f);
      && OkTerm(t) && TermText(t) == TermText(l) + "*" + FactorText(f)
      && TermValue(t, last) == Value(x * y)
      && OkExpr(Single(t)) && ExprText(Single(t)) == TermText(t) && ExprValue(Single(t), last) == Value(x * y)
  {
    hide OkFactor, FactorText, FactorValue;
    var left, t := TermText(l), TermOp(l, "", '*', f);
    assert left + "" + ['*'] + FactorText(f) == left + "*" + FactorText(f);
    WrapSmall(x * y);
    assert OkTerm(t) && TermText(t) == left + "*" + FactorText(f) && TermValue(t, last) == Value(x * y);
  }

  // A text with this derivation gives this value.
  lemma Gives(e: Expr, s: string, x: Int64)
    requires OkExpr(e) && ExprText(e) == s && ExprValue(e, true) == Value(x as int)
    ensures Evaluate(s) == Outcome(x, "", 0)
  {
    Completeness(e, "");
    assert s + "" == s;
  }

  // Operators of one level apply from the left: a - b - c is (a - b) - c.
  lemma FromTheLeft(a: nat, b: nat, c: nat)
    requires a <= INT64_MAX && b <= INT64_MAX && c <= INT64_MAX && INT64_MIN <= a - b - c
    ensures Evaluate(DecDigits(a) + "-" + DecDigits(b) + "-" + DecDigits(c)) == Outcome(a - b - c, "", 0)
  {
    hide DecDigits, Evaluate, Literally, ExprText, TermText, FactorText, ExprValue, TermValue, FactorValue, OkExpr, OkTerm;
    Alone(a, false);
    Alone(b, false);
    Alone(c, true);
    var e1 := Single(One(Literally(a)));
    SumOf(e1, '-', One(Literally(b)), false, a, b);
    var e2 := ExprOp(e1, "", '-', One(Literally(b)));
    SumOf(e2, '-', One(Literally(c)), true, a - b, c);
    Gives(ExprOp(e2, "", '-', One(Literally(c))), DecDigits(a) + "-" + DecDigits(b) + "-" + DecDigits(c), a - b - c);
  }

  // Products come before sums: a + b * c is a + (b * c), and b * c + a is (b * c) + a.
  lemma ProductsFirst(a: nat, b: nat, c: nat)
    requires a + b * c <= INT64_MAX && b <= INT64_MAX && c <= INT64_MAX
    ensures Evaluate(DecDigits(a) + "+" + (DecDigits(b) + "*" + DecDigits(c))) == Outcome(a + b * c, "", 0)
    ensures Evaluate(DecDigits(b) + "*" + DecDigits(c) + "+" + DecDigits(a)) == Outcome(b * c + a, "", 0)
  {
    hide DecDigits, Evaluate, Literally, ExprText, TermText, FactorText, ExprValue, TermValue, FactorValue, OkExpr, OkTerm;
    Products(b, c);
    var t := TermOp(One(Literally(b)), "", '*', Literally(c));
    Alone(a, false);
    Alone(b, false);
    Alone(c, true);
    ProductOf(One(Literally(b)), Literally(c), true, b, c);
    var e1 := Single(One(Literally(a)));
    SumOf(e1, '+', t, true, a, b * c);
    Gives(ExprOp(e1, "", '+', t), DecDigits(a) + "+" + (DecDigits(b) + "*" + DecDigits(c)), a + b * c);
    Alone(c, false);
    Alone(a, true);
    ProductOf(One(Literally(b)), Literally(c), false, b, c);
    SumOf(Single(t), '+', One(Literally(a)), true, b * c, a);
    Gives(ExprOp(Single(t), "", '+', One(Literally(a))), DecDigits(b) + "*" + DecDigits(c) + "+" + DecDigits(a), b * c + a);
  }

  // Blanks and tabs around a number do not matter, a sign in front does what it says, and a line feed
  // is an error.
  lemma AroundNumbers(n: nat, s: string)
    requires n <= INT64_MAX
    ensures Evaluate(" \t" + DecDigits(n) + "\t ") == Outcome(n, "", 0)
    ensures Evaluate("+" + DecDigits(n)) == Outcome(n, "", 0)
    ensures Evaluate("-" + DecDigits(n)) == Outcome(0 - n, "", 0)
    ensures Evaluate("\n" + s).err in {1, 2}
  {
    Spaced(n);
    Signed(n, false);
    Signed(n, true);
    LineFeed(s);
  }

  lemma Spaced(n: nat)
    requires n <= INT64_MAX
    ensures Evaluate(" \t" + DecDigits(n) + "\t ") == Outcome(n, "", 0)
  {
    hide DecDigits, Evaluate;
    NumberLiteral(n);
    WrapSmall(n);
    var f := Literal(" \t", DecDigits(n));
    assert Blanks("\t ") && Blanks(" \t");
    assert OkFactor(f) && FactorText(f) == " \t" + DecDigits(n) && FactorValue(f, false) == Value(n);
    assert OkTerm(One(f)) && TermText(One(f)) == FactorText(f) && TermValue(One(f), false) == Value(n);
    Completeness(Single(One(f)), "\t ");
  }

  lemma Signed(n: nat, minus: bool)
    requires n <= INT64_MAX
    ensures Evaluate((if minus then "-" else "+") + DecDigits(n)) == Outcome(if minus then 0 - n else n, "", 0)
  {
    hide DecDigits, Evaluate, Literally;
    Alone(n, true);
    WrapSmall(0 - n);
    var f := Sign("", minus, Literally(n));
    assert FactorText(f) == (if minus then "-" else "+") + DecDigits(n);
    assert OkFactor(f) && FactorValue(f, true) == Value(if minus then 0 - n else n);
    assert OkTerm(One(f)) && TermText(One(f)) == FactorText(f) && TermValue(One(f), true) == FactorValue(f, true);
    Gives(Single(One(f)), FactorText(f), if minus then 0 - n else n);
  }

  lemma LineFeed(s: string)
    ensures Evaluate("\n" + s).err in {1, 2}
  {
    hide ParseParen, TermLoop, ExprLoop;
    var t := "\n" + s;
    StopsAtOnce(t);
    assert Skip(t) == t;
    assert ParseFactor(t) == Outcome(0, t, 1);
    assert ParseTerm(t) == Outcome(0, t, 1);
    assert ParseExpr(t) == Outcome(0, t, 1);
  }

  lemma StopsAtOnce(s: string)
    ensures TermLoop(0, s, 1) == Outcome(0, s, 1) && ExprLoop(0, s, 1) == Outcome(0, s, 1)
  {
  }

  // Overflow wraps: the answer is the 64-bit number congruent to the true one.
  lemma WrapCongruent(x: int)
    ensures -0x8000_0000_0000_0000 <= Wrap(x) <= 0x7fff_ffff_ffff_ffff
    ensures (Wrap(x) - x) % 0x1_0000_0000_0000_0000 == 0
  {
    var q, r := x / WORD_LIMIT, x % WORD_LIMIT;
    if r > INT64_MAX {
      assert Wrap(x) - x == (-q - 1) * WORD_LIMIT;
      DivModIs(Wrap(x) - x, -q - 1, 0);
    } else {
      assert Wrap(x) - x == (-q) * WORD_LIMIT;
      DivModIs(Wrap(x) - x, -q, 0);
    }
  }
}
