/** The calculator: a recursive-descent evaluator over a shared cursor and a sticky error flag. */
module CalcParser {
  import opened Common
  import opened Numbers
  import opened CalcGrammar

  // ---------- the parser as functions ----------

  // The evaluation came to a division that never completes; the error flag has no such value.
  const TRAP: nat := 3

  // A value, the text still to be read, and the error flag (1 syntax, 2 division by zero), or TRAP.
  datatype Outcome = Outcome(v: Int64, rest: string, err: nat)

  // The number of characters of a literal that the cursor moves over.
  function LiteralLength(s: string): (n: nat)
    requires s != "" && IsDigit(s[0])
    ensures 0 < n <= |s|
  {
    if HasHexPrefix(s) then 2 + HexRun(s[2..])
    else assert s[..1][0] == s[0]; assert DigitRun(s) > 0; DigitRun(s)
  }

  function ParseFactor(s: string): (r: Outcome)
    ensures |r.rest| <= |s|
    decreases |s|, 1
  {
    var t := Skip(s);
    if t == "" then Outcome(0, t, 1)
    else if t[0] == '+' then ParseFactor(t[1..])
    else if t[0] == '-' then
      var r := ParseFactor(t[1..]);
      Outcome(Wrap(-(r.v as int)), r.rest, r.err)
    else if t[0] == '(' then ParseParen(t)
    else if IsDigit(t[0]) then
      Outcome(Wrap(ParsedValue(t)), t[LiteralLength(t)..], 0)
    else Outcome(0, t, 1)
  }

  // From an opening parenthesis on.
  function ParseParen(t: string): (r: Outcome)
    requires t != ""
    ensures |r.rest| <= |t|
    decreases |t|, 0
  {
    var r := ParseExpr(t[1..]);
    var u := Skip(r.rest);
    if r.err == TRAP then r
    else if u != "" && u[0] == ')' then Outcome(r.v, u[1..], r.err) else Outcome(r.v, u, 1)
  }

  function ParseTerm(s: string): (r: Outcome)
    ensures |r.rest| <= |s|
    decreases |s|, 3
  {
    var r := ParseFactor(s);
    TermLoop(r.v, r.rest, r.err)
  }

  function TermLoop(v: Int64, s: string, err: nat): (r: Outcome)
    ensures |r.rest| <= |s|
    decreases |s|, 2
  {
    if err != 0 then Outcome(v, s, err)
    else
      var t := Skip(s);
      if t == "" || !IsTermOp(t[0]) then Outcome(v, t, 0)
      else
        var r := ParseFactor(t[1..]);
        if r.err != 0 then Outcome(v, r.rest, r.err)
        else
          var w := Apply(t[0], v, r.v);
          match w
          case Value(x) => TermLoop(Wrap(x), r.rest, 0)
          case ZeroDivisor => Outcome(v, r.rest, 2)
          case Trap => Outcome(v, r.rest, TRAP)
  }

  function ParseExpr(s: string): (r: Outcome)
    ensures |r.rest| <= |s|
    decreases |s|, 5
  {
    var r := ParseTerm(s);
    ExprLoop(r.v, r.rest, r.err)
  }

  function ExprLoop(v: Int64, s: string, err: nat): (r: Outcome)
    ensures |r.rest| <= |s|
    decreases |s|, 4
  {
    if err != 0 then Outcome(v, s, err)
    else
      var t := Skip(s);
      if t == "" || !IsExprOp(t[0]) then Outcome(v, t, 0)
      else
        var r := ParseTerm(t[1..]);
        if r.err != 0 then Outcome(v, r.rest, r.err)
        else ExprLoop(Wrap(Apply(t[0], v, r.v).value), r.rest, 0)
  }

  // cmd_calc: an expression and nothing after it.
  function Evaluate(s: string): Outcome {
    var r := ParseExpr(s);
    var t := Skip(r.rest);
    if r.err == TRAP then r
    else if t != "" && r.err == 0 then Outcome(r.v, t, 1)
    else Outcome(r.v, t, r.err)
  }

  // ---------- the parser as it runs ----------

  class Calculator {
    const buf: string
    var ptr: nat
    var err: nat

    constructor (s: string)
      ensures buf == s && ptr == 0 && err == 0
    {
      buf, ptr, err := s, 0, 0;
    }

    ghost predicate Valid()
      reads this
    {
      ptr <= |buf|
    }

    // What the cursor points at: the rest of the text; its end is the NUL.
    function Rest(): string
      requires ptr <= |buf|
      reads this
    {
      buf[ptr..]
    }

    // The character under the cursor.
    function Cur(): char
      requires ptr <= |buf|
      reads this
    {
      if ptr < |buf| then buf[ptr] else '\0'
    }

    method SkipBlanks()
      requires Valid()
      modifies this`ptr
      ensures Valid() && Rest() == Skip(old(Rest()))
    {
      while Cur() == ' ' || Cur() == '\t'
        invariant Valid() && Skip(Rest()) == Skip(old(Rest()))
        decreases |buf| - ptr
      {
        assert Rest()[1..] == buf[ptr + 1..];
        ptr := ptr + 1;
      }
    }

    method Factor() returns (v: Int64)
      requires Valid() && err == 0
      modifies this
      ensures Valid() && Outcome(v, Rest(), err) == ParseFactor(old(Rest()))
      decreases |buf| - ptr, 1
    {
      SkipBlanks();
      ghost var t := Rest();
      if Cur() == '+' {
        ptr := ptr + 1;
        assert Rest() == t[1..];
        v := Factor();
        return;
      }
      if Cur() == '-' {
        ptr := ptr + 1;
        assert Rest() == t[1..];
        v := Factor();
        v := Wrap(-(v as int));
        return;
      }
      if Cur() == '(' {
        v := Parenthesised();
        return;
      }
      if IsDigit(Cur()) {
        v := Literal();
        return;
      }
      err := 1;
      v := 0;
    }

    // The branch of the factor that starts with a parenthesis.
    method Parenthesised() returns (v: Int64)
      requires Valid() && err == 0 && Cur() == '('
      modifies this
      ensures Valid() && Outcome(v, Rest(), err) == ParseParen(old(Rest()))
      decreases |buf| - ptr, 0
    {
      ghost var t := Rest();
      ptr := ptr + 1;
      assert Rest() == t[1..];
      v := Expression();
      if err == TRAP {
        return;
      }
      SkipBlanks();
      if Cur() == ')' {
        assert Rest()[1..] == buf[ptr + 1..];
        ptr := ptr + 1;
      } else {
        err := 1;
      }
    }

    // The branch of the factor that starts with a digit.
    method Literal() returns (v: Int64)
      requires Valid() && IsDigit(Cur())
      modifies this`ptr
      ensures Valid() && v == Wrap(ParsedValue(old(Rest())))
      ensures Rest() == old(Rest())[LiteralLength(old(Rest()))..]
    {
      var start := ptr;
      assert Rest() == buf[start..];
      if HasHexPrefix(Rest()) {
        assert Rest()[2..] == buf[ptr + 2..];
        ptr := ptr + 2;
        PassHexDigits();
      } else {
        PassDigits();
      }
      var n := ParseNum(buf[start..]);
      v := Wrap(n);
    }

    method PassHexDigits()
      requires Valid()
      modifies this`ptr
      ensures Valid() && ptr == old(ptr) + HexRun(old(Rest()))
    {
      while IsHexDigit(Cur())
        invariant Valid() && ptr - old(ptr) == HexRun(old(Rest())) - HexRun(Rest())
        decreases |buf| - ptr
      {
        assert Rest()[1..] == buf[ptr + 1..];
        ptr := ptr + 1;
      }
    }

    method PassDigits()
      requires Valid()
      modifies this`ptr
      ensures Valid() && ptr == old(ptr) + DigitRun(old(Rest()))
    {
      while IsDigit(Cur())
        invariant Valid() && ptr - old(ptr) == DigitRun(old(Rest())) - DigitRun(Rest())
        decreases |buf| - ptr
      {
        assert Rest()[1..] == buf[ptr + 1..];
        ptr := ptr + 1;
      }
    }

    method Term() returns (v: Int64)
      requires Valid() && err == 0
      modifies this
      ensures Valid() && Outcome(v, Rest(), err) == ParseTerm(old(Rest()))
      decreases |buf| - ptr, 2
    {
      hide ParseFactor, Skip;
      v := Factor();
      while err == 0
        invariant Valid() && TermLoop(v, Rest(), err) == ParseTerm(old(Rest()))
        decreases |buf| - ptr, err == 0
      {
        SkipBlanks();
        var op := Cur();
        if op == '*' || op == '/' || op == '%' {
          ghost var t := Rest();
          ptr := ptr + 1;
          assert Rest() == t[1..];
          var rhs := Factor();
          if err != 0 {
            break;
          }
          if op == '*' {
            v := Wrap(v * rhs);
          } else if rhs == 0 {
            err := 2;
            break;
          } else if v == INT64_MIN && rhs == -1 {
            err := TRAP;
            break;
          } else if op == '/' {
            v := Wrap(Quotient(v, rhs));
          } else {
            v := Wrap(Remainder(v, rhs));
          }
        } else {
          break;
        }
      }
    }

    method Expression() returns (v: Int64)
      requires Valid() && err == 0
      modifies this
      ensures Valid() && Outcome(v, Rest(), err) == ParseExpr(old(Rest()))
      decreases |buf| - ptr, 3
    {
      hide ParseTerm, Skip;
      v := Term();
      while err == 0
        invariant Valid() && ExprLoop(v, Rest(), err) == ParseExpr(old(Rest()))
        decreases |buf| - ptr, err == 0
      {
        SkipBlanks();
        var op := Cur();
        if op == '+' || op == '-' {
          ghost var t := Rest();
          ptr := ptr + 1;
          assert Rest() == t[1..];
          var rhs := Term();
          if err != 0 {
            break;
          }
          if op == '+' {
            v := Wrap(v + rhs);
          } else {
            v := Wrap(v - rhs);
          }
        } else {
          break;
        }
      }
    }

    // The evaluation in cmd_calc; err tells whether res is a result.
    method Run() returns (res: Int64)
      requires ptr == 0 && err == 0 && '\0' !in buf
      modifies this
      ensures Valid() && Outcome(res, Rest(), err) == Evaluate(buf)
    {
      assert Rest() == buf;
      res := Expression();
      if err == TRAP {
        return;
      }
      SkipBlanks();
      assert ptr < |buf| ==> buf[ptr] in buf;
      if Cur() != '\0' && err == 0 {
        err := 1;
      }
    }
  }
}
