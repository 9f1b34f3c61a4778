/** The calculator accepts exactly the derivable texts that have a value, and returns it; it reports an
    error for a zero divisor, and never comes back from the one division that traps. */
module CalcTheorem {
  import opened Common
  import opened Numbers
  import opened CalcGrammar
  import opened CalcParser

  lemma SkipTwice(s: string)
    ensures Skip(Skip(s)) == Skip(s)
  {
  }

  // ---------- what may follow ----------

  // The text cannot continue a literal.
  predicate Stops(rest: string) {
    rest != "" ==> !IsHexDigit(rest[0]) && rest[0] != 'x' && rest[0] != 'X'
  }

  predicate NoTermOp(rest: string) {
    Skip(rest) != "" ==> !IsTermOp(Skip(rest)[0])
  }

  // The evaluation stopped short of the end, as v says: on an error, or at a division that traps.
  predicate Stopped(r: Outcome, v: Result<Int64>) {
    match v
    case Value(_) => false
    case ZeroDivisor => r.err == 1 || r.err == 2
    case Trap => r.err == TRAP
  }

  // ---------- completeness ----------

  lemma LiteralParses(text: string, rest: string)
    requires IsLiteral(text) && Stops(rest)
    ensures var s := text + rest;
      && s != "" && IsDigit(s[0]) && Skip(s) == s
      && LiteralLength(s) == |text|
      && ParsedValue(s) == LiteralValue(text, rest == "") % WORD_LIMIT
  {
    var s := text + rest;
    if HasHexPrefix(text) {
      assert s[2..] == text[2..] + rest;
      RunIs(s[2..], |text| - 2);
      assert s[2..][..|text| - 2] == text[2..];
    } else {
      RunIs(s, |text|);
      assert s[..|text|] == text;
    }
  }

  lemma LiteralFactorParses(ws: string, text: string, rest: string)
    requires Blanks(ws) && IsLiteral(text) && Stops(rest)
    ensures ParseFactor(ws + (text + rest)) == Outcome(Wrap(LiteralValue(text, rest == "")), rest, 0)
  {
    hide ParseParen, ParsedValue, LiteralValue, LiteralLength, Skip, IsLiteral;
    SkipBlanksBefore(ws, text + rest);
    LiteralParses(text, rest);
    assert (text + rest)[|text|..] == rest;
    WrapOfWord(LiteralValue(text, rest == ""));
  }

  lemma {:induction false} FactorParses(f: Factor, rest: string)
    requires OkFactor(f) && Stops(rest)
    ensures var r := ParseFactor(FactorText(f) + rest);
      var v := FactorValue(f, rest == "");
      if v.Value? then r == Outcome(v.value, rest, 0) else Stopped(r, v)
    decreases f, 0
  {
    hide ParseParen, ParsedValue, LiteralValue, LiteralLength, Skip, HexRun, DigitRun, ExprText, ExprValue, OkExpr;
    hide IsLiteral, Wrap, Blanks, Stops;
    match f
    case Literal(ws, text) =>
      assert FactorText(f) + rest == ws + (text + rest);
      LiteralFactorParses(ws, text, rest);
    case Sign(ws, minus, g) =>
      var c := if minus then '-' else '+';
      assert FactorText(f) + rest == ws + ([c] + (FactorText(g) + rest));
      AfterBlanks(ws, c, FactorText(g) + rest);
      FactorParses(g, rest);
    case Paren(ws, e, ws2) =>
      var body := ExprText(e) + (ws2 + ([')'] + rest));
      assert FactorText(f) + rest == ws + (['('] + body);
      AfterBlanks(ws, '(', body);
      ParenParses(e, ws2, rest);
  }

  lemma AfterBlanks(ws: string, c: char, body: string)
    requires Blanks(ws) && !IsBlank(c)
    ensures var t := Skip(ws + ([c] + body));
      t == [c] + body && t[0] == c && t[1..] == body
  {
    SkipBlanksBefore(ws, [c] + body);
  }

  lemma {:induction false} ParenParses(e: Expr, ws2: string, rest: string)
    requires OkExpr(e) && Blanks(ws2) && Stops(rest)
    ensures var r := ParseParen(['('] + (ExprText(e) + (ws2 + ([')'] + rest))));
      var v := ExprValue(e, false);
      if v.Value? then r == Outcome(v.value, rest, 0) else Stopped(r, v)
    decreases e, 1
  {
    var tail := ws2 + ([')'] + rest);
    assert (['('] + (ExprText(e) + tail))[1..] == ExprText(e) + tail;
    AfterBlanks(ws2, ')', rest);
    SkipTwice(tail);
    ExprParses(e, tail);
  }

  lemma {:induction false} TermParses(t: Term, rest: string)
    requires OkTerm(t) && Stops(rest)
    ensures var r := ParseTerm(TermText(t) + rest);
      var v := TermValue(t, rest == "");
      if v.Value? then r == TermLoop(v.value, rest, 0) else Stopped(r, v)
    decreases t, 0
  {
    hide ParseFactor, FactorText, FactorValue, OkFactor, Wrap, Quotient, Remainder;
    match t
    case One(f) => FactorParses(f, rest);
    case TermOp(l, ws, op, f) =>
      var more := [op] + (FactorText(f) + rest);
      assert TermText(t) + rest == TermText(l) + (ws + more);
      TermParses(l, ws + more);
      SkipBlanksBefore(ws, more);
      assert more[1..] == FactorText(f) + rest;
      FactorParses(f, rest);
  }

  // A term ends where no operator of a term follows, and an expression goes on from there.
  lemma TermEnds(v: Int64, rest: string)
    requires NoTermOp(rest)
    ensures TermLoop(v, rest, 0) == Outcome(v, Skip(rest), 0)
    ensures forall w :: ExprLoop(w, Skip(rest), 0) == ExprLoop(w, rest, 0)
  {
    SkipTwice(rest);
  }

  lemma {:induction false} ExprParses(e: Expr, rest: string)
    requires OkExpr(e) && Stops(rest) && NoTermOp(rest)
    ensures var r := ParseExpr(ExprText(e) + rest);
      var v := ExprValue(e, rest == "");
      if v.Value? then r == ExprLoop(v.value, rest, 0) else Stopped(r, v)
    decreases e, 0
  {
    hide TermLoop, ParseTerm, TermValue, TermText, OkTerm, Wrap;
    match e
    case Single(t) =>
      TermParses(t, rest);
      if TermValue(t, rest == "").Value? {
        TermEnds(TermValue(t, rest == "").value, rest);
      }
    case ExprOp(l, ws, op, t) =>
      var more := [op] + (TermText(t) + rest);
      assert ExprText(e) + rest == ExprText(l) + (ws + more);
      SkipBlanksBefore(ws, more);
      ExprParses(l, ws + more);
      assert more[1..] == TermText(t) + rest;
      TermParses(t, rest);
      if TermValue(t, rest == "").Value? {
        TermEnds(TermValue(t, rest == "").value, rest);
      }
  }

  // Every derivable text is evaluated: to its value, or to an error when a divisor is zero, or not to
  // the end when a division traps, whichever comes first.
  lemma Completeness(e: Expr, trail: string)
    requires OkExpr(e) && Blanks(trail)
    ensures var r := Evaluate(ExprText(e) + trail);
      var v := ExprValue(e, trail == "");
      if v.Value? then r == Outcome(v.value, "", 0) else Stopped(r, v)
  {
    SkipBlanksBefore(trail, "");
    assert trail + "" == trail;
    ExprParses(e, trail);
  }

  // ---------- soundness ----------

  lemma {:induction false} FactorFound(s: string) returns (f: Factor)
    requires ParseFactor(s).err == 0
    ensures var r := ParseFactor(s);
      OkFactor(f) && s == FactorText(f) + r.rest && FactorValue(f, r.rest == "") == Value(r.v)
    decreases |s|, 1
  {
    hide ParsedValue, LiteralLength, LiteralValue, ParseParen, Skip, Wrap, IsLiteral, ExprText, ExprValue, OkExpr;
    var r := ParseFactor(s);
    var t := Skip(s);
    var ws := SkippedAreBlanks(s);
    if t[0] == '+' || t[0] == '-' {
      var g := FactorFound(t[1..]);
      f := Sign(ws, t[0] == '-', g);
      assert t == [t[0]] + t[1..];
    } else if t[0] == '(' {
      f := ParenFound(t, ws);
    } else {
      f := LiteralFound(t, ws);
    }
  }

  lemma LiteralFound(t: string, ws: string) returns (f: Factor)
    requires t != "" && IsDigit(t[0]) && Blanks(ws)
    ensures var n := LiteralLength(t);
      && f == Literal(ws, t[..n]) && OkFactor(f) && ws + t == FactorText(f) + t[n..]
      && FactorValue(f, t[n..] == "") == Value(Wrap(ParsedValue(t)))
  {
    var n := LiteralLength(t);
    var text := t[..n];
    f := Literal(ws, text);
    assert t == text + t[n..];
    if HasHexPrefix(t) {
      assert text[2..] == t[2..][..n - 2];
    }
    WrapOfWord(LiteralValue(text, t[n..] == ""));
  }

  lemma WrapOfWord(n: nat)
    ensures Wrap(n % WORD_LIMIT) == Wrap(n)
  {
  }

  lemma {:induction false} ParenFound(t: string, ws: string) returns (f: Factor)
    requires t != "" && t[0] == '(' && ParseParen(t).err == 0 && Blanks(ws)
    ensures var r := ParseParen(t);
      OkFactor(f) && ws + t == FactorText(f) + r.rest && FactorValue(f, r.rest == "") == Value(r.v)
    decreases |t|, 0
  {
    hide ParseExpr, Skip, ExprValue, ExprText, OkExpr, Wrap;
    var r := ParseExpr(t[1..]);
    var e, ws1 := ExprFound(t[1..]);
    var ws2 := SkippedAreBlanks(r.rest);
    var u := Skip(r.rest);
    f := Paren(ws, e, ws1 + ws2);
    assert u == ")" + u[1..];
    assert t == "(" + t[1..];
    assert t[1..] == ExprText(e) + ws1 + (ws2 + u);
    assert ws1 + r.rest != "";
  }

  lemma {:induction false} TermFound(s: string) returns (t: Term, ws: string)
    requires ParseTerm(s).err == 0
    ensures var r := ParseTerm(s);
      && OkTerm(t) && Blanks(ws) && s == TermText(t) + ws + r.rest
      && TermValue(t, ws + r.rest == "") == Value(r.v)
    decreases |s|, 3
  {
    var r := ParseFactor(s);
    var f := FactorFound(s);
    t, ws := TermLoopFound(r.v, r.rest, One(f));
  }

  lemma {:induction false} TermLoopFound(v: Int64, s: string, t0: Term) returns (t: Term, ws: string)
    requires OkTerm(t0) && TermValue(t0, s == "") == Value(v) && TermLoop(v, s, 0).err == 0
    ensures var r := TermLoop(v, s, 0);
      && OkTerm(t) && Blanks(ws) && TermText(t0) + s == TermText(t) + ws + r.rest
      && TermValue(t, ws + r.rest == "") == Value(r.v)
    decreases |s|, 2
  {
    hide ParseFactor, Skip, Apply, FactorValue, Wrap;
    var u := Skip(s);
    ws := SkippedAreBlanks(s);
    if u == "" || !IsTermOp(u[0]) {
      t := t0;
    } else {
      var r := ParseFactor(u[1..]);
      var f := FactorFound(u[1..]);
      var t1 := TermOp(t0, ws, u[0], f);
      assert u == [u[0]] + u[1..];
      assert TermText(t0) + s == TermText(t1) + r.rest;
      t, ws := TermLoopFound(Wrap(Apply(u[0], v, r.v).value), r.rest, t1);
    }
  }

  lemma {:induction false} ExprFound(s: string) returns (e: Expr, ws: string)
    requires ParseExpr(s).err == 0
    ensures var r := ParseExpr(s);
      && OkExpr(e) && Blanks(ws) && s == ExprText(e) + ws + r.rest
      && ExprValue(e, ws + r.rest == "") == Value(r.v)
    decreases |s|, 5
  {
    var r := ParseTerm(s);
    var t, ws0 := TermFound(s);
    e, ws := ExprLoopFound(r.v, r.rest, Single(t), ws0);
  }

  lemma {:induction false} ExprLoopFound(v: Int64, s: string, e0: Expr, ws0: string) returns (e: Expr, ws: string)
    requires OkExpr(e0) && Blanks(ws0) && ExprValue(e0, ws0 + s == "") == Value(v) && ExprLoop(v, s, 0).err == 0
    ensures var r := ExprLoop(v, s, 0);
      && OkExpr(e) && Blanks(ws) && ExprText(e0) + ws0 + s == ExprText(e) + ws + r.rest
      && ExprValue(e, ws + r.rest == "") == Value(r.v)
    decreases |s|, 4
  {
    hide ParseTerm, Skip, Quotient, Remainder, TermValue, Wrap;
    var u := Skip(s);
    var ws1 := SkippedAreBlanks(s);
    ws := ws0 + ws1;
    assert ws0 + s == ws + u;
    if u == "" || !IsExprOp(u[0]) {
      e := e0;
    } else {
      var r := ParseTerm(u[1..]);
      var t, ws2 := TermFound(u[1..]);
      var e1 := ExprOp(e0, ws, u[0], t);
      Regroup(ExprText(e0), ws0, s, ws, u, TermText(t), ws2, r.rest);
      e, ws := ExprLoopFound(Wrap(Apply(u[0], v, r.v).value), r.rest, e1, ws2);
    }
  }

  lemma Regroup(left: string, ws0: string, s: string, ws: string, u: string, right: string, ws2: string, rest: string)
    requires ws0 + s == ws + u && u != "" && u[1..] == right + ws2 + rest
    ensures left + ws0 + s == left + ws + [u[0]] + right + ws2 + rest
  {
    assert u == [u[0]] + u[1..];
    assert left + ws0 + s == left + (ws0 + s);
  }

  // Whatever is accepted has a derivation with the returned value.
  lemma Soundness(s: string) returns (e: Expr, trail: string)
    requires Evaluate(s).err == 0
    ensures Denotes(s, e, trail, Evaluate(s).v)
  {
    var r := ParseExpr(s);
    var ws;
    e, ws := ExprFound(s);
    var more := SkippedAreBlanks(r.rest);
    trail := ws + more;
    assert ws + r.rest == trail + Skip(r.rest);
    assert s == ExprText(e) + (ws + r.rest);
  }

  // The calculator accepts s with value v exactly when s has a derivation with that value.
  lemma CalculatorCorrect(s: string, v: Int64)
    ensures Evaluate(s).err == 0 && Evaluate(s).v == v <==> exists e, trail :: Denotes(s, e, trail, v)
  {
    if Evaluate(s).err == 0 {
      var e, trail := Soundness(s);
    }
    forall e, trail | Denotes(s, e, trail, v) ensures Evaluate(s) == Outcome(v, "", 0) {
      Completeness(e, trail);
    }
  }

  // No text has two values: all its derivations agree, on errors and traps too.
  lemma Unambiguous(e: Expr, trail: string, e': Expr, trail': string)
    requires OkExpr(e) && Blanks(trail) && OkExpr(e') && Blanks(trail')
    requires ExprText(e) + trail == ExprText(e') + trail'
    ensures ExprValue(e, trail == "") == ExprValue(e', trail' == "")
  {
    Completeness(e, trail);
    Completeness(e', trail');
  }

  // ---------- printed trees ----------

  lemma {:induction false} PrintedExpr(a: Ast, last: bool)
    requires OkAst(a) && NoOverflow(a)
    ensures OkExpr(AsExpr(a)) && ExprValue(AsExpr(a), last) == IntValue(a)
    decreases a, 1
  {
    hide DecDigits, Apply;
    if a.Bin? && IsExprOp(a.op) {
      PrintedExpr(a.l, false);
      PrintedTerm(a.r, last);
      WrapExact(IntValue(a));
    } else if a.Bin? {
      PrintedTerm(a.l, false);
      PrintedFactor(a.r, last);
      WrapExact(IntValue(a));
    } else {
      PrintedLeaf(a, last);
      var f := AsFactor(a);
      assert AsExpr(a) == Single(One(f));
      assert OkTerm(One(f)) && TermValue(One(f), last) == FactorValue(f, last);
    }
  }

  lemma {:induction false} PrintedLeaf(a: Ast, last: bool)
    requires OkAst(a) && NoOverflow(a) && !a.Bin?
    ensures OkFactor(AsFactor(a)) && FactorValue(AsFactor(a), last) == IntValue(a)
    decreases a, 0
  {
    hide DecDigits, Apply;
    match a
    case Num(n) =>
      NumberLiteral(n);
      WrapSmall(n);
    case Neg(b) =>
      PrintedFactor(b, last);
      WrapExact(IntValue(a));
  }

  lemma {:induction false} PrintedFactor(a: Ast, last: bool)
    requires OkAst(a) && NoOverflow(a)
    ensures OkFactor(AsFactor(a)) && FactorValue(AsFactor(a), last) == IntValue(a)
    decreases a, 2
  {
    hide DecDigits, Apply;
    if a.Bin? {
      PrintedExpr(a, false);
    } else {
      PrintedLeaf(a, last);
    }
  }

  lemma {:induction false} PrintedTerm(a: Ast, last: bool)
    requires OkAst(a) && NoOverflow(a)
    ensures OkTerm(AsTerm(a)) && TermValue(AsTerm(a), last) == IntValue(a)
    decreases a, 3
  {
    hide Apply;
    if a.Bin? && IsTermOp(a.op) {
      PrintedTerm(a.l, false);
      PrintedFactor(a.r, last);
      WrapExact(IntValue(a));
    } else {
      PrintedFactor(a, last);
    }
  }

  lemma WrapSmall(x: int)
    requires INT64_MIN <= x <= INT64_MAX
    ensures Wrap(x) == x
  {
  }

  lemma NumberLiteral(n: nat)
    ensures IsLiteral(DecDigits(n)) && !HasHexPrefix(DecDigits(n)) && DecValue(DecDigits(n)) == n
  {
    DecDigitsValue(n);
  }

  lemma WrapExact(x: Result<int>)
    requires x.Value? ==> INT64_MIN <= x.value <= INT64_MAX
    ensures Wrapped(x) == x
  {
  }

  // Printing a syntax tree and calculating the text gives the tree's integer value; or an error, or no
  // answer at all, exactly when the first division that fails has a zero divisor, or traps.
  lemma PrintThenCalculate(a: Ast)
    requires OkAst(a) && NoOverflow(a)
    ensures var r := Evaluate(Print(a));
      if IntValue(a).Value? then r == Outcome(IntValue(a).value, "", 0) else Stopped(r, IntValue(a))
  {
    PrintedExpr(a, true);
    assert Print(a) + "" == Print(a);
    Completeness(AsExpr(a), "");
  }

  // The calculator applied to what itoa writes gives the number back.
  lemma CalculateDecText(n: int)
    requires -INT32_MAX <= n <= INT32_MAX
    ensures Evaluate(DecText(n)) == Outcome(n, "", 0)
  {
    var a := if n < 0 then Neg(Num(-n)) else Num(n);
    PrintThenCalculate(a);
    NumberText(if n < 0 then -n else n);
  }

  lemma NumberText(n: nat)
    ensures Print(Num(n)) == DecDigits(n) && Print(Neg(Num(n))) == "-" + DecDigits(n)
  {
    hide DecDigits;
    var l := Literal("", DecDigits(n));
    var m := Sign("", true, l);
    assert FactorText(l) == DecDigits(n);
    assert FactorText(m) == "-" + DecDigits(n);
    assert AsExpr(Num(n)) == Single(One(l));
    assert AsExpr(Neg(Num(n))) == Single(One(m)) by {
      assert AsFactor(Num(n)) == l;
    }
    assert ExprText(Single(One(l))) == TermText(One(l));
    assert ExprText(Single(One(m))) == TermText(One(m));
  }

  // ---------- the manual's arithmetic ----------

  lemma {:induction false} FactorFaceValue(f: Factor, last: bool)
    requires OkFactor(f) && NoOverflow(FactorAst(f)) && FactorHexLast(f, last)
    ensures FactorValue(f, last) == IntValue(FactorAst(f))
    decreases f
  {
    hide Apply, LiteralValue;
    match f
    case Literal(_, text) =>
      LastOnlyForHex(text, last);
      WrapSmall(FaceValue(text));
    case Sign(_, minus, g) =>
      FactorFaceValue(g, last);
      if minus {
        WrapExact(IntValue(FactorAst(f)));
      }
    case Paren(_, e, _) =>
      ExprFaceValue(e, false);
  }

  lemma LastOnlyForHex(text: string, last: bool)
    requires IsLiteral(text) && (HasHexPrefix(text) && HexValue(text[2..]) != 0 ==> last)
    ensures LiteralValue(text, last) == FaceValue(text)
  {
  }

  lemma {:induction false} TermFaceValue(t: Term, last: bool)
    requires OkTerm(t) && NoOverflow(TermAst(t)) && TermHexLast(t, last)
    ensures TermValue(t, last) == IntValue(TermAst(t))
    decreases t
  {
    hide Apply;
    match t
    case One(f) => FactorFaceValue(f, last);
    case TermOp(l, _, op, r) =>
      TermFaceValue(l, false);
      FactorFaceValue(r, last);
      WrapExact(IntValue(TermAst(t)));
  }

  lemma {:induction false} ExprFaceValue(e: Expr, last: bool)
    requires OkExpr(e) && NoOverflow(ExprAst(e)) && ExprHexLast(e, last)
    ensures ExprValue(e, last) == IntValue(ExprAst(e))
    decreases e
  {
    hide Apply;
    match e
    case Single(t) => TermFaceValue(t, last);
    case ExprOp(l, _, op, r) =>
      ExprFaceValue(l, false);
      TermFaceValue(r, last);
      WrapExact(IntValue(ExprAst(e)));
  }

  // On texts without overflow whose hex literals are zero or end the text, the calculator computes
  // integer arithmetic: the value of the tree, or what comes of its first division that fails.
  lemma CalculatesIntegers(e: Expr, trail: string)
    requires OkExpr(e) && Blanks(trail) && NoOverflow(ExprAst(e)) && ExprHexLast(e, trail == "")
    ensures var r := Evaluate(ExprText(e) + trail);
      var v := IntValue(ExprAst(e));
      if v.Value? then r == Outcome(v.value, "", 0) else Stopped(r, v)
  {
    ExprFaceValue(e, trail == "");
    Completeness(e, trail);
  }

  // What parse_num reads of a hex literal and the text behind it is the literal's face value if and
  // only if nothing is behind it, or the value is a multiple of 2^64; otherwise it is 16 times that.
  lemma HexLiteralExact(text: string, rest: string)
    requires IsLiteral(text) && HasHexPrefix(text) && (rest != "" ==> !IsHexDigit(rest[0]))
    ensures ParsedValue(text + rest) == FaceValue(text) % WORD_LIMIT <==> rest == "" || FaceValue(text) % WORD_LIMIT == 0
    ensures rest != "" ==> ParsedValue(text + rest) == 16 * FaceValue(text) % WORD_LIMIT
  {
    assert (text + rest)[2..] == text[2..] + rest;
    RunIs(text[2..] + rest, |text| - 2);
    assert (text[2..] + rest)[..|text| - 2] == text[2..];
    SixteenTimes(FaceValue(text));
  }

  lemma SixteenTimes(v: nat)
    ensures 16 * v % WORD_LIMIT == v % WORD_LIMIT <==> v % WORD_LIMIT == 0
  {
    var q, r := v / WORD_LIMIT, v % WORD_LIMIT;
    if r == 0 {
      DivModIs(16 * v, 16 * q, 0);
    } else if 16 * v % WORD_LIMIT == r {
      // 15 * 0x1111111111111111 is one less than 2^64.
      var k := 16 * v / WORD_LIMIT - q;
      assert 15 * v == k * WORD_LIMIT;
      DivModIs(v, v - 0x1111_1111_1111_1111 * k, 0);
    }
  }

  // The manual's example: 0x1000 + 0x200 comes out as 0x10200, not 0x1200.
  lemma ManualExample()
    ensures Evaluate("0x1000 + 0x200") == Outcome(0x10200, "", 0)
  {
    hide IsLiteral, FactorText, TermText, FactorValue, TermValue, Evaluate;
    var l := Literal("", "0x1000");
    var r := Literal(" ", "0x200");
    var e := ExprOp(Single(One(l)), " ", '+', One(r));
    ManualOperands();
    assert ExprText(Single(One(l))) == "0x1000";
    assert ExprText(e) + "" == "0x1000 + 0x200";
    assert ExprValue(Single(One(l)), false) == Value(0x10000);
    assert ExprValue(e, true) == Value(0x10200);
    Completeness(e, "");
  }

  lemma ManualOperands()
    ensures IsLiteral("0x1000") && TermText(One(Literal("", "0x1000"))) == "0x1000"
    ensures IsLiteral("0x200") && TermText(One(Literal(" ", "0x200"))) == " 0x200"
    ensures TermValue(One(Literal("", "0x1000")), false) == Value(0x10000)
    ensures TermValue(One(Literal(" ", "0x200")), true) == Value(0x200)
  {
    hide HexValue, Wrap;
    HexThousand();
    WrapSmall(0x10000);
    WrapSmall(0x200);
    assert LiteralValue("0x1000", false) == 0x10000;
    assert LiteralValue("0x200", true) == 0x200;
  }

  lemma HexThousand()
    ensures "0x1000"[2..] == "1000" && "0x200"[2..] == "200"
    ensures AllHexDigits("1000") && AllHexDigits("200")
    ensures HexValue("1000") == 0x1000 && HexValue("200") == 0x200
  {
    assert "1"[..0] == "" && "10"[..1] == "1" && "100"[..2] == "10" && "1000"[..3] == "100";
    assert "2"[..0] == "" && "20"[..1] == "2" && "200"[..2] == "20";
    assert HexValue("") == 0;
    assert HexValue("1") == 1 && HexValue("2") == 2;
    assert HexValue("10") == 0x10 && HexValue("20") == 0x20;
    assert HexValue("100") == 0x100;
  }
}
