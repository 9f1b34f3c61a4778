/** What several parts of the model share. */
module Common {

  datatype Option<T> = None | Some(value: T)

  const WORD_LIMIT: nat := 0x1_0000_0000_0000_0000

  // Columns of the text screen.
  const WIDTH: nat := 80

  function Min(a: nat, b: nat): nat {
    if a < b then a else b
  }

  // A quotient and a remainder in range are the quotient and the remainder.
  lemma DivModIs(x: int, q: int, r: nat)
    requires x == q * WORD_LIMIT + r && r < WORD_LIMIT
    ensures x / WORD_LIMIT == q && x % WORD_LIMIT == r
  {
  }

  lemma {:induction false} TimesAtLeast(d: nat, m: nat)
    requires d >= 1
    ensures d * m >= m
  {
    if d > 1 {
      TimesAtLeast(d - 1, m);
      assert d * m == (d - 1) * m + m;
    }
  }

  lemma DivIs(x: nat, d: nat, q: nat, r: nat)
    requires d > 0 && x == d * q + r && r < d
    ensures x / d == q && x % d == r
  {
    var u, v := x / d, x % d;
    assert x == d * u + v;
    assert (u - q) * d == r - v && (q - u) * d == v - r;
    if u > q {
      TimesAtLeast(u - q, d);
    } else if u < q {
      TimesAtLeast(q - u, d);
    }
  }

  // Dividing twice is dividing by the product.
  lemma DivDiv(n: nat, a: nat, b: nat)
    requires a > 0 && b > 0
    ensures a * b > 0 && n / a / b == n / (a * b)
  {
    TimesAtLeast(a, b);
    var q, r := n / a, n % a;
    var u, v := q / b, q % b;
    assert n == a * q + r && q == b * u + v;
    assert a * q == a * (b * u) + a * v;
    assert a * (b * u) == a * b * u;
    assert a * v + r < a * b by {
      assert a * v + a == a * (v + 1);
      TimesMonotone(a, v + 1, b);
    }
    DivIs(n, a * b, u, a * v + r);
  }

  lemma {:induction false} TimesMonotone(k: nat, a: nat, b: nat)
    requires a <= b
    ensures k * a <= k * b
  {
    if k > 0 {
      TimesMonotone(k - 1, a, b);
      assert k * a == (k - 1) * a + a && k * b == (k - 1) * b + b;
    }
  }

  predicate IsBlank(c: char) {
    c == ' ' || c == '\t'
  }

  // The text behind the blanks in front.
  function Skip(s: string): (r: string)
    ensures |r| <= |s|
    ensures r != "" ==> !IsBlank(r[0])
  {
    if s != "" && IsBlank(s[0]) then Skip(s[1..]) else s
  }

  predicate Blanks(s: string) {
    forall i :: 0 <= i < |s| ==> IsBlank(s[i])
  }

  lemma {:induction false} SkipBlanksBefore(ws: string, s: string)
    requires Blanks(ws)
    ensures Skip(ws + s) == Skip(s)
  {
    if ws == "" {
      assert ws + s == s;
    } else {
      assert (ws + s)[1..] == ws[1..] + s;
      SkipBlanksBefore(ws[1..], s);
    }
  }

  lemma {:induction false} SkippedAreBlanks(s: string) returns (ws: string)
    ensures Blanks(ws) && s == ws + Skip(s)
  {
    if s != "" && IsBlank(s[0]) {
      ws := SkippedAreBlanks(s[1..]);
      ws := [s[0]] + ws;
    } else {
      ws := "";
    }
  }
}
