/** The division that never completes: which calculations come to it. */
module CalcTraps {
  import opened Common
  import opened Numbers
  import opened CalcGrammar
  import opened CalcParser
  import opened CalcTheorem

  // A quotient or remainder in a derivation; last says that nothing follows its text.
  datatype Division = Division(t: Term, last: bool)

  predicate IsDivision(d: Division) {
    OkTerm(d.t) && d.t.TermOp? && d.t.op != '*'
  }

  function DivisionValue(d: Division): Result<Int64>
    requires IsDivision(d)
  {
    TermValue(d.t, d.last)
  }

  // The operands are INT64_MIN and -1.
  predicate TrapsAt(d: Division)
    requires IsDivision(d)
  {
    TermValue(d.t.left, false) == Value(INT64_MIN) && FactorValue(d.t.right, d.last) == Value(-1)
  }

  predicate AllDivisions(ds: seq<Division>) {
    forall d :: d in ds ==> IsDivision(d)
  }

  // ---------- the divisions of a derivation, in the order they are carried out ----------

  function FactorDivisions(f: Factor, last: bool): (ds: seq<Division>)
    requires OkFactor(f)
    ensures AllDivisions(ds)
  {
    match f
    case Literal(_, _) => []
    case Sign(_, _, g) => FactorDivisions(g, last)
    case Paren(_, e, _) => ExprDivisions(e, false)
  }

  function TermDivisions(t: Term, last: bool): (ds: seq<Division>)
    requires OkTerm(t)
    ensures AllDivisions(ds)
  {
    match t
    case One(f) => FactorDivisions(f, last)
    case TermOp(l, _, op, r) =>
      TermDivisions(l, false) + FactorDivisions(r, last) + (if op == '*' then [] else [Division(t, last)])
  }

  function ExprDivisions(e: Expr, last: bool): (ds: seq<Division>)
    requires OkExpr(e)
    ensures AllDivisions(ds)
  {
    match e
    case Single(t) => TermDivisions(t, last)
    case ExprOp(l, _, _, r) => ExprDivisions(l, false) + TermDivisions(r, last)
  }

  predicate AllGive(ds: seq<Division>)
    requires AllDivisions(ds)
  {
    forall i :: 0 <= i < |ds| ==> DivisionValue(ds[i]).Value?
  }

  // The first division that gives no value traps.
  ghost predicate TrapsFirst(ds: seq<Division>)
    requires AllDivisions(ds)
  {
    exists k :: 0 <= k < |ds| && TrapsAt(ds[k]) && AllGive(ds[..k])
  }

  // ---------- which derivations trap ----------

  lemma TrapIsNoValue(d: Division)
    requires IsDivision(d) && TrapsAt(d)
    ensures DivisionValue(d) == Trap
  {
  }

  lemma GiveConcat(a: seq<Division>, b: seq<Division>)
    requires AllDivisions(a) && AllDivisions(b)
    ensures AllGive(a + b) <==> AllGive(a) && AllGive(b)
    ensures TrapsFirst(a + b) <==> TrapsFirst(a) || (AllGive(a) && TrapsFirst(b))
    ensures AllGive(a) ==> !TrapsFirst(a)
  {
    hide DivisionValue, TrapsAt, IsDivision;
    GivePrefix(a, b);
    forall k | 0 <= k < |a| ensures (a + b)[k] == a[k] && (a + b)[..k] == a[..k] {
    }
    forall k | 0 <= k < |b| ensures (a + b)[|a| + k] == b[k] && (a + b)[..|a| + k] == a + b[..k] {
      GivePrefix(a, b[..k]);
    }
    forall k | 0 <= k < |a| && TrapsAt(a[k]) ensures !DivisionValue(a[k]).Value? {
      TrapIsNoValue(a[k]);
    }
    if TrapsFirst(a + b) {
      var k :| 0 <= k < |a + b| && TrapsAt((a + b)[k]) && AllGive((a + b)[..k]);
      if k >= |a| {
        GivePrefix(a, b[..k - |a|]);
        assert b[k - |a|] == (a + b)[k];
      }
    }
    if AllGive(a) && TrapsFirst(b) {
      var k :| 0 <= k < |b| && TrapsAt(b[k]) && AllGive(b[..k]);
      GivePrefix(a, b[..k]);
      assert TrapsAt((a + b)[|a| + k]) && AllGive((a + b)[..|a| + k]);
    }
  }

  lemma GivePrefix(a: seq<Division>, b: seq<Division>)
    requires AllDivisions(a) && AllDivisions(b)
    ensures AllGive(a + b) <==> AllGive(a) && AllGive(b)
  {
    assert forall i :: 0 <= i < |a| ==> (a + b)[i] == a[i];
    assert forall i :: 0 <= i < |b| ==> (a + b)[|a| + i] == b[i];
  }

  lemma {:induction false} FactorTraps(f: Factor, last: bool)
    requires OkFactor(f)
    ensures var ds, v := FactorDivisions(f, last), FactorValue(f, last);
      (v.Value? <==> AllGive(ds)) && (v == Trap <==> TrapsFirst(ds))
    decreases f
  {
    match f
    case Literal(_, _) =>
    case Sign(_, _, g) => FactorTraps(g, last);
    case Paren(_, e, _) => ExprTraps(e, false);
  }

  lemma {:induction false} TermTraps(t: Term, last: bool)
    requires OkTerm(t)
    ensures var ds, v := TermDivisions(t, last), TermValue(t, last);
      (v.Value? <==> AllGive(ds)) && (v == Trap <==> TrapsFirst(ds))
    decreases t
  {
    hide TrapsFirst, AllGive, Quotient, Remainder, Wrap;
    match t
    case One(f) => FactorTraps(f, last);
    case TermOp(l, _, op, r) =>
      TermTraps(l, false);
      FactorTraps(r, last);
      var a, b := TermDivisions(l, false), FactorDivisions(r, last);
      var c := if op == '*' then [] else [Division(t, last)];
      GiveConcat(a, b);
      GiveConcat(a + b, c);
      if op == '*' {
        assert a + b + c == a + b;
      } else {
        OneDivision(Division(t, last));
      }
  }

  lemma OneDivision(d: Division)
    requires IsDivision(d)
    ensures AllGive([d]) <==> DivisionValue(d).Value?
    ensures TrapsFirst([d]) <==> TrapsAt(d)
  {
    assert [d][..0] == [];
    assert [d][0] == d;
  }

  lemma {:induction false} ExprTraps(e: Expr, last: bool)
    requires OkExpr(e)
    ensures var ds, v := ExprDivisions(e, last), ExprValue(e, last);
      (v.Value? <==> AllGive(ds)) && (v == Trap <==> TrapsFirst(ds))
    decreases e
  {
    hide TrapsFirst, AllGive, Wrap;
    match e
    case Single(t) => TermTraps(t, last);
    case ExprOp(l, _, _, r) =>
      ExprTraps(l, false);
      TermTraps(r, last);
      GiveConcat(ExprDivisions(l, false), TermDivisions(r, last));
  }

  // The calculator does not come back from a derivable text if and only if, in the order in which its
  // divisions are carried out, the first one without a value divides INT64_MIN by -1.
  lemma TrapExactly(e: Expr, trail: string)
    requires OkExpr(e) && Blanks(trail)
    ensures var r, ds := Evaluate(ExprText(e) + trail), ExprDivisions(e, trail == "");
      && (r.err == TRAP <==> TrapsFirst(ds))
      && (r.err == 0 <==> AllGive(ds))
  {
    hide TrapsFirst, AllGive, Evaluate;
    Completeness(e, trail);
    ExprTraps(e, trail == "");
  }

  // The quotient and the remainder of the most negative number by -1 are such calculations, written
  // (-9223372036854775807-1)/-1 and (-9223372036854775807-1)%-1.
  lemma TrappingExample(op: char)
    requires op == '/' || op == '%'
    ensures Evaluate(Print(Bin(op, Bin('-', Neg(Num(INT64_MAX)), Num(1)), Neg(Num(1))))).err == TRAP
  {
    hide DecDigits, Evaluate;
    var least := Bin('-', Neg(Num(INT64_MAX)), Num(1));
    var a := Bin(op, least, Neg(Num(1)));
    assert IntValue(least) == Value(INT64_MIN) && IntValue(Neg(Num(1))) == Value(-1);
    assert IntValue(a) == Trap;
    PrintThenCalculate(a);
  }

  // ---------- traps in any text ----------

  // s holds the text of division d, which traps, behind p and in front of q.
  predicate TrapAt(s: string, p: string, d: Division, q: string) {
    IsDivision(d) && TrapsAt(d) && s == p + TermText(d.t) + q && d.last == (q == "")
  }

  lemma TrapBehind(left: string, s: string, p: string, d: Division, q: string)
    requires TrapAt(s, p, d, q)
    ensures TrapAt(left + s, left + p, d, q)
  {
    assert left + s == (left + p) + TermText(d.t) + q;
  }

  lemma {:induction false} FactorTrapFound(s: string) returns (p: string, d: Division, q: string)
    requires ParseFactor(s).err == TRAP
    ensures TrapAt(s, p, d, q)
    decreases |s|, 1
  {
    hide ParsedValue, LiteralLength, Skip, TrapAt;
    var t := Skip(s);
    var ws := SkippedAreBlanks(s);
    if t[0] == '(' {
      p, d, q := ExprTrapFound(t[1..]);
    } else {
      p, d, q := FactorTrapFound(t[1..]);
    }
    TrapBehind(ws + [t[0]], t[1..], p, d, q);
    p := ws + [t[0]] + p;
    assert s == ws + [t[0]] + t[1..];
  }

  lemma {:induction false} TermTrapFound(s: string) returns (p: string, d: Division, q: string)
    requires ParseTerm(s).err == TRAP
    ensures TrapAt(s, p, d, q)
    decreases |s|, 3
  {
    hide ParseFactor, TrapAt;
    var r := ParseFactor(s);
    if r.err == TRAP {
      p, d, q := FactorTrapFound(s);
    } else {
      var f := FactorFound(s);
      p, d, q := TermLoopTrapFound(r.v, r.rest, One(f));
    }
  }

  lemma {:induction false} TermLoopTrapFound(v: Int64, s: string, t0: Term) returns (p: string, d: Division, q: string)
    requires OkTerm(t0) && TermValue(t0, s == "") == Value(v) && TermLoop(v, s, 0).err == TRAP
    ensures TrapAt(TermText(t0) + s, p, d, q)
    decreases |s|, 2
  {
    hide ParseFactor, Skip, FactorValue, Wrap, Quotient, Remainder, TrapAt;
    var u := Skip(s);
    var ws := SkippedAreBlanks(s);
    var left := TermText(t0) + ws + [u[0]];
    var r := ParseFactor(u[1..]);
    assert TermText(t0) + s == left + u[1..];
    if r.err == TRAP {
      p, d, q := FactorTrapFound(u[1..]);
      TrapBehind(left, u[1..], p, d, q);
      p := left + p;
    } else {
      var f := FactorFound(u[1..]);
      var t1 := TermOp(t0, ws, u[0], f);
      assert TermText(t0) + s == TermText(t1) + r.rest;
      if Apply(u[0], v, r.v) == Trap {
        p, d, q := "", Division(t1, r.rest == ""), r.rest;
        TrapHere(t1, r.rest);
      } else {
        p, d, q := TermLoopTrapFound(Wrap(Apply(u[0], v, r.v).value), r.rest, t1);
      }
    }
  }

  lemma TrapHere(t: Term, rest: string)
    requires var d := Division(t, rest == ""); IsDivision(d) && TrapsAt(d)
    ensures TrapAt(TermText(t) + rest, "", Division(t, rest == ""), rest)
  {
    assert TermText(t) + rest == "" + TermText(t) + rest;
  }

  lemma {:induction false} ExprTrapFound(s: string) returns (p: string, d: Division, q: string)
    requires ParseExpr(s).err == TRAP
    ensures TrapAt(s, p, d, q)
    decreases |s|, 5
  {
    hide ParseTerm, TrapAt;
    var r := ParseTerm(s);
    if r.err == TRAP {
      p, d, q := TermTrapFound(s);
    } else {
      var t, ws := TermFound(s);
      p, d, q := ExprLoopTrapFound(r.v, r.rest);
      TrapBehind(TermText(t) + ws, r.rest, p, d, q);
      p := TermText(t) + ws + p;
    }
  }

  lemma {:induction false} ExprLoopTrapFound(v: Int64, s: string) returns (p: string, d: Division, q: string)
    requires ExprLoop(v, s, 0).err == TRAP
    ensures TrapAt(s, p, d, q)
    decreases |s|, 4
  {
    hide ParseTerm, Skip, Wrap, TrapAt;
    var u := Skip(s);
    var ws := SkippedAreBlanks(s);
    var r := ParseTerm(u[1..]);
    var left := ws + [u[0]];
    assert s == left + u[1..];
    if r.err == TRAP {
      p, d, q := TermTrapFound(u[1..]);
    } else {
      var t, ws2 := TermFound(u[1..]);
      p, d, q := ExprLoopTrapFound(Wrap(Apply(u[0], v, r.v).value), r.rest);
      TrapBehind(TermText(t) + ws2, r.rest, p, d, q);
      p := TermText(t) + ws2 + p;
    }
    TrapBehind(left, u[1..], p, d, q);
    p := left + p;
  }

  // On any text whatever, derivable or not: when the calculator does not come back, the text holds a
  // quotient or a remainder whose operands have the values INT64_MIN and -1.
  lemma TrapFound(s: string) returns (p: string, d: Division, q: string)
    requires Evaluate(s).err == TRAP
    ensures TrapAt(s, p, d, q)
  {
    p, d, q := ExprTrapFound(s);
  }
}
