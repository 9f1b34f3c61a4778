/** Numbers as text: the printers itoa and utoa_hex, the reader parse_num, and their round trips. */
module Numbers {
  import opened Common
  import opened CStrings

  const INT32_MAX: int := 0x7fff_ffff

  // ---------- digits ----------

  predicate IsDigit(c: char) {
    '0' <= c <= '9'
  }

  predicate IsHexDigit(c: char) {
    '0' <= c <= '9' || 'a' <= c <= 'f' || 'A' <= c <= 'F'
  }

  function HexDigitValue(c: char): (v: nat)
    requires IsHexDigit(c)
    ensures v < 16
  {
    if c <= '9' then c as int - '0' as int
    else if c >= 'a' then c as int - 'a' as int + 10
    else c as int - 'A' as int + 10
  }

  predicate AllDigits(s: string) {
    forall i :: 0 <= i < |s| ==> IsDigit(s[i])
  }

  predicate AllHexDigits(s: string) {
    forall i :: 0 <= i < |s| ==> IsHexDigit(s[i])
  }

  // ---------- what a digit string denotes ----------

  function DecValue(s: string): nat
    requires AllDigits(s)
  {
    if s == "" then 0 else DecValue(s[..|s| - 1]) * 10 + (s[|s| - 1] as int - '0' as int)
  }

  function HexValue(s: string): nat
    requires AllHexDigits(s)
  {
    if s == "" then 0 else HexValue(s[..|s| - 1]) * 16 + HexDigitValue(s[|s| - 1])
  }

  // ---------- canonical texts ----------

  function DigitChar(d: nat): (c: char)
    requires d < 10
    ensures IsDigit(c)
  {
    '0' + d as char
  }

  function HexDigitChar(d: nat): (c: char)
    requires d < 16
    ensures IsHexDigit(c) && HexDigitValue(c) == d
  {
    "0123456789ABCDEF"[d]
  }

  // Decimal digits, most significant first, no leading zero.
  function DecDigits(n: nat): (s: string)
    ensures AllDigits(s) && |s| > 0
  {
    if n < 10 then [DigitChar(n)] else DecDigits(n / 10) + [DigitChar(n % 10)]
  }

  function HexDigits(n: nat): (s: string)
    ensures AllHexDigits(s) && |s| > 0
  {
    if n < 16 then [HexDigitChar(n)] else HexDigits(n / 16) + [HexDigitChar(n % 16)]
  }

  function DecText(n: int): string {
    if n < 0 then "-" + DecDigits(-n) else DecDigits(n)
  }

  lemma {:induction false} DecDigitsValue(n: nat)
    ensures DecValue(DecDigits(n)) == n
  {
    if n >= 10 {
      DecDigitsValue(n / 10);
      assert DecDigits(n)[..|DecDigits(n)| - 1] == DecDigits(n / 10);
    } else {
      assert DecDigits(n)[..0] == "";
    }
  }

  lemma {:induction false} HexDigitsValue(n: nat)
    ensures HexValue(HexDigits(n)) == n
  {
    if n >= 16 {
      HexDigitsValue(n / 16);
      assert HexDigits(n)[..|HexDigits(n)| - 1] == HexDigits(n / 16);
    } else {
      assert HexDigits(n)[..0] == "";
    }
  }

  function Pow(b: nat, k: nat): nat {
    if k == 0 then 1 else b * Pow(b, k - 1)
  }

  lemma {:induction false} DecDigitsLength(n: nat, k: nat)
    requires 0 < k && n < Pow(10, k)
    ensures |DecDigits(n)| <= k
  {
    if n >= 10 {
      assert Pow(10, 1) == 10 * Pow(10, 0);
      DecDigitsLength(n / 10, k - 1);
    }
  }

  lemma {:induction false} HexDigitsLength(n: nat, k: nat)
    requires 0 < k && n < Pow(16, k)
    ensures |HexDigits(n)| <= k
  {
    if n >= 16 {
      assert Pow(16, 1) == 16 * Pow(16, 0);
      HexDigitsLength(n / 16, k - 1);
    }
  }

  // The longest texts: eleven characters for itoa, sixteen for utoa_hex.
  lemma TextsFit(n: int)
    ensures 0 <= n <= INT32_MAX ==> |DecText(n)| <= 10
    ensures -INT32_MAX <= n < 0 ==> |DecText(n)| <= 11
    ensures 0 <= n < WORD_LIMIT ==> |HexDigits(n)| <= 16
  {
    if -INT32_MAX <= n <= INT32_MAX {
      assert Pow(10, 5) == 100000;
      assert Pow(10, 10) == 100000 * 100000;
      DecDigitsLength(if n < 0 then -n else n, 10);
    }
    if 0 <= n < WORD_LIMIT {
      assert Pow(16, 8) == 0x1_0000_0000;
      assert Pow(16, 16) == WORD_LIMIT;
      HexDigitsLength(n, 16);
    }
  }

  // ---------- itoa ----------

  function Reversed(s: string): (r: string)
    ensures |r| == |s|
  {
    if s == "" then "" else Reversed(s[1..]) + [s[0]]
  }

  lemma {:induction false} ReversedAt(s: string, k: nat)
    requires k < |s|
    ensures Reversed(s)[k] == s[|s| - 1 - k]
  {
    if k < |s| - 1 {
      ReversedAt(s[1..], k);
    }
  }

  lemma {:induction false} ReversedAppend(s: string, c: char)
    ensures Reversed(s + [c]) == [c] + Reversed(s)
  {
    if s != "" {
      ReversedAppend(s[1..], c);
      assert (s + [c])[1..] == s[1..] + [c];
    }
  }

  // The in-place swap loop over the first n characters.
  method ReverseInPlace(str: array<char>, n: nat)
    requires n <= str.Length
    modifies str
    ensures str[..n] == Reversed(old(str[..n]))
    ensures str[n..] == old(str[n..])
  {
    var start: int, end: int := 0, n - 1;
    while start < end
      invariant 0 <= start <= n && start + end == n - 1
      invariant forall k :: 0 <= k < n && (k < start || k > end) ==> str[k] == old(str[n - 1 - k])
      invariant forall k :: 0 <= k < str.Length && (start <= k <= end || k >= n) ==> str[k] == old(str[k])
    {
      str[start], str[end] := str[end], str[start];
      start, end := start + 1, end - 1;
    }
    ghost var was := old(str[..n]);
    forall k | 0 <= k < n ensures str[k] == Reversed(was)[k] {
      ReversedAt(was, k);
    }
  }

  // The digits of n in the order the loops produce them, least significant first.
  function Backwards(n: nat): (s: string) {
    if n == 0 then "" else [DigitChar(n % 10)] + Backwards(n / 10)
  }

  function HexBackwards(n: nat): (s: string) {
    if n == 0 then "" else [HexDigitChar(n % 16)] + HexBackwards(n / 16)
  }

  lemma BackwardsStep(n: nat)
    ensures Backwards(n) == if n == 0 then "" else [DigitChar(n % 10)] + Backwards(n / 10)
  {
  }

  lemma HexBackwardsStep(n: nat)
    ensures HexBackwards(n) == if n == 0 then "" else [HexDigitChar(n % 16)] + HexBackwards(n / 16)
  {
  }

  lemma {:induction false} BackwardsReversed(n: nat)
    requires n > 0
    ensures Reversed(Backwards(n)) == DecDigits(n)
  {
    if n >= 10 {
      BackwardsReversed(n / 10);
    } else {
      assert Backwards(n) == [DigitChar(n)];
    }
  }

  lemma {:induction false} HexBackwardsReversed(n: nat)
    requires n > 0
    ensures Reversed(HexBackwards(n)) == HexDigits(n)
  {
    if n >= 16 {
      HexBackwardsReversed(n / 16);
    } else {
      assert HexBackwards(n) == [HexDigitChar(n)];
    }
  }

  method Itoa(n: int, str: array<char>)
    requires -INT32_MAX <= n <= INT32_MAX && str.Length >= 12
    modifies str
    ensures HoldsAt(str[..], 0, DecText(n))
    ensures forall k :: |DecText(n)| < k < str.Length ==> str[k] == old(str[k])
  {
    TextsFit(n);
    if n == 0 {
      str[0] := '0';
      str[1] := '\0';
      return;
    }
    var left := if n < 0 then -n else n;
    ghost var all := Backwards(left);
    BackwardsReversed(left);
    var i := WriteDigits(left, str);
    if n < 0 {
      str[i] := '-';
      i := i + 1;
      assert str[..i] == all + ['-'];
      ReversedAppend(all, '-');
    }
    FinishItoa(n, str, i);
  }

  // The division loop of itoa.
  method WriteDigits(n: nat, str: array<char>) returns (i: nat)
    requires |Backwards(n)| <= str.Length
    modifies str
    ensures i == |Backwards(n)| && str[..i] == Backwards(n)
    ensures forall k :: i <= k < str.Length ==> str[k] == old(str[k])
  {
    hide Backwards, DigitChar;
    i := 0;
    var left := n;
    ghost var done, rest := "", Backwards(n);
    while left != 0
      invariant i <= str.Length && done == str[..i] && rest == Backwards(left)
      invariant done + rest == Backwards(n)
      invariant forall k :: i <= k < str.Length ==> str[k] == old(str[k])
    {
      BackwardsStep(left);
      var c := DigitChar(left % 10);
      assert rest == [c] + rest[1..] && done + rest == (done + [c]) + rest[1..];
      assert i < str.Length;
      str[i] := c;
      i := i + 1;
      left := left / 10;
      done, rest := done + [c], rest[1..];
    }
    BackwardsStep(left);
    assert done + rest == done;
  }

  // The end of itoa: terminate the string and turn it around.
  method FinishItoa(n: int, str: array<char>, i: nat)
    requires i < str.Length && Reversed(str[..i]) == DecText(n)
    modifies str
    ensures HoldsAt(str[..], 0, DecText(n))
    ensures forall k :: i < k < str.Length ==> str[k] == old(str[k])
  {
    str[i] := '\0';
    ghost var rest := str[i..];
    ReverseInPlace(str, i);
    assert forall k :: i <= k < str.Length ==> str[k] == str[i..][k - i] == rest[k - i];
  }

  // ---------- utoa_hex ----------

  method UtoaHex(value: nat, str: array<char>)
    requires value < WORD_LIMIT && str.Length >= 17
    modifies str
    ensures HoldsAt(str[..], 0, HexDigits(value))
  {
    TextsFit(value);
    if value == 0 {
      str[0] := '0';
      str[1] := '\0';
      return;
    }
    HexBackwardsReversed(value);
    var buf := new char[17];
    var i := WriteHexDigits(value, buf);
    CopyReversed(buf, i, str);
    str[i] := '\0';
  }

  // The shifting loop of utoa_hex.
  method WriteHexDigits(value: nat, buf: array<char>) returns (i: nat)
    requires |HexBackwards(value)| <= buf.Length
    modifies buf
    ensures i == |HexBackwards(value)| && buf[..i] == HexBackwards(value)
  {
    hide HexBackwards, HexDigitChar;
    HexBackwardsStep(value);
    i := 0;
    var n := value;
    ghost var done, rest := "", HexBackwards(value);
    while n > 0
      invariant i <= buf.Length && done == buf[..i] && rest == HexBackwards(n)
      invariant done + rest == HexBackwards(value)
    {
      HexBackwardsStep(n);
      var c := HexDigitChar(n % 16);
      assert rest == [c] + rest[1..] && done + rest == (done + [c]) + rest[1..];
      assert i < buf.Length;
      buf[i] := c;
      i := i + 1;
      n := n / 16;
      done, rest := done + [c], rest[1..];
    }
    HexBackwardsStep(n);
    assert done + rest == done;
  }

  // The copying loop of utoa_hex.
  method CopyReversed(buf: array<char>, n: nat, str: array<char>)
    requires n <= buf.Length && n <= str.Length && buf != str
    modifies str
    ensures str[..n] == Reversed(buf[..n])
  {
    for j := 0 to n
      invariant str[..j] == Reversed(buf[..n])[..j]
    {
      ReversedAt(buf[..n], j);
      str[j] := buf[n - 1 - j];
    }
  }

  // print_hex: the prefix, zeros up to eight digits, and the digits.
  function Zeros(k: int): string {
    if k <= 0 then "" else "0" + Zeros(k - 1)
  }

  function PrintHexText(n: nat): string {
    "0x" + Zeros(8 - |HexDigits(n)|) + HexDigits(n)
  }

  lemma {:induction false} ZerosAppend(k: nat)
    ensures Zeros(k + 1) == Zeros(k) + "0"
  {
    if k > 0 {
      ZerosAppend(k - 1);
    }
  }

  // What print_hex puts on the screen.
  method PrintHex(value: nat) returns (out: string)
    requires value < WORD_LIMIT
    ensures out == PrintHexText(value)
  {
    hide HexDigits;
    var hex := new char[17];
    UtoaHex(value, hex);
    var len := 0;
    while hex[len] != '\0'
      invariant len <= |HexDigits(value)| < hex.Length
      decreases |HexDigits(value)| - len
    {
      assert hex[len] == hex[..][..|HexDigits(value)|][len] || len == |HexDigits(value)|;
      len := len + 1;
    }
    assert hex[..][..|HexDigits(value)|] == HexDigits(value);
    var digits := hex[..len];
    assert digits == HexDigits(value) && len == |HexDigits(value)|;
    out := "0x";
    var i := 0;
    while i < 8 - len
      invariant 0 <= i && (i <= 8 - len || i == 0) && out == "0x" + Zeros(i)
    {
      ZerosAppend(i);
      out := out + "0";
      i := i + 1;
    }
    assert Zeros(i) == Zeros(8 - len) by {
      assert i == 8 - len || (i == 0 && 8 - len <= 0);
    }
    out := out + digits;
  }

  // ---------- parse_num ----------

  // The length of the longest prefix of digits.
  function DigitRun(s: string): (n: nat)
    ensures n <= |s| && AllDigits(s[..n])
    ensures n < |s| ==> !IsDigit(s[n])
  {
    if s == "" || !IsDigit(s[0]) then 0 else 1 + DigitRun(s[1..])
  }

  function HexRun(s: string): (n: nat)
    ensures n <= |s| && AllHexDigits(s[..n])
    ensures n < |s| ==> !IsHexDigit(s[n])
  {
    if s == "" || !IsHexDigit(s[0]) then 0 else 1 + HexRun(s[1..])
  }

  predicate HasHexPrefix(s: string) {
    |s| >= 2 && s[0] == '0' && (s[1] == 'x' || s[1] == 'X')
  }

  // What parse_num reads: a decimal prefix; or hex digits, shifted once too often when the string
  // does not end with them, because the shift comes before the test that stops the loop.
  function ParsedValue(s: string): nat {
    if HasHexPrefix(s) then
      var n := HexRun(s[2..]);
      var v := HexValue(s[2..][..n]);
      (if 2 + n == |s| then v else 16 * v) % WORD_LIMIT
    else
      DecValue(s[..DigitRun(s)]) % WORD_LIMIT
  }

  lemma ShiftOr(v: nat, d: nat)
    requires d < 16
    ensures (v % WORD_LIMIT) * 16 % WORD_LIMIT + d == (v * 16 + d) % WORD_LIMIT
  {
    var q, r := v / WORD_LIMIT, v % WORD_LIMIT;
    var q2, r2 := r * 16 / WORD_LIMIT, r * 16 % WORD_LIMIT;
    assert r2 == 16 * (r - q2 * 0x1000_0000_0000_0000);
    DivModIs(v * 16 + d, 16 * q + q2, r2 + d);
  }

  lemma TimesTen(v: nat, d: nat)
    requires d < 10
    ensures ((v % WORD_LIMIT) * 10 + d) % WORD_LIMIT == (v * 10 + d) % WORD_LIMIT
  {
    var q, s := v / WORD_LIMIT, (v % WORD_LIMIT) * 10 + d;
    DivModIs(v * 10 + d, 10 * q + s / WORD_LIMIT, s % WORD_LIMIT);
  }

  method ParseNum(s: string) returns (val: nat)
    ensures val == ParsedValue(s)
  {
    if HasHexPrefix(s) {
      val := ParseHexDigits(s[2..]);
    } else {
      val := ParseDigits(s);
    }
  }

  // The hex loop: the value is shifted before the character is looked at.
  method ParseHexDigits(t: string) returns (val: nat)
    ensures var v := HexValue(t[..HexRun(t)]);
      val == (if HexRun(t) == |t| then v else 16 * v) % WORD_LIMIT
  {
    val := 0;
    var i := 0;
    while i < |t|
      invariant i <= |t| && AllHexDigits(t[..i])
      invariant val == HexValue(t[..i]) % WORD_LIMIT
    {
      var c := t[i];
      ShiftOr(HexValue(t[..i]), if IsHexDigit(c) then HexDigitValue(c) else 0);
      val := val * 16 % WORD_LIMIT;
      if IsHexDigit(c) {
        val := val + HexDigitValue(c);
        assert t[..i + 1][..i] == t[..i];
        i := i + 1;
      } else {
        RunIs(t, i);
        return;
      }
    }
    RunIs(t, i);
  }

  method ParseDigits(s: string) returns (val: nat)
    ensures val == DecValue(s[..DigitRun(s)]) % WORD_LIMIT
  {
    val := 0;
    var i := 0;
    while i < |s| && IsDigit(s[i])
      invariant i <= |s| && AllDigits(s[..i])
      invariant val == DecValue(s[..i]) % WORD_LIMIT
    {
      TimesTen(DecValue(s[..i]), s[i] as int - '0' as int);
      val := (val * 10 + (s[i] as int - '0' as int)) % WORD_LIMIT;
      assert s[..i + 1][..i] == s[..i];
      i := i + 1;
    }
    RunIs(s, i);
  }

  // A run is the place where the digits stop.
  lemma {:induction false} RunIs(s: string, n: nat)
    requires n <= |s|
    ensures AllHexDigits(s[..n]) && (n < |s| ==> !IsHexDigit(s[n])) ==> HexRun(s) == n
    ensures AllDigits(s[..n]) && (n < |s| ==> !IsDigit(s[n])) ==> DigitRun(s) == n
  {
    var h := HexRun(s);
    assert h < n ==> s[..n][h] == s[h];
    assert n < h ==> s[..h][n] == s[n];
    var d := DigitRun(s);
    assert d < n ==> s[..n][d] == s[d];
    assert n < d ==> s[..d][n] == s[n];
  }

  // ---------- round trips ----------

  lemma {:induction false} ZerosAreHex(k: int, t: string)
    requires AllHexDigits(t)
    ensures AllHexDigits(Zeros(k) + t) && HexValue(Zeros(k) + t) == HexValue(t)
    decreases k
  {
    if k > 0 {
      ZerosAreHex(k - 1, t);
      assert Zeros(k) + t == "0" + (Zeros(k - 1) + t);
      LeadingZero(Zeros(k - 1) + t);
    } else {
      assert Zeros(k) + t == t;
    }
  }

  lemma {:induction false} LeadingZero(t: string)
    requires AllHexDigits(t)
    ensures AllHexDigits("0" + t) && HexValue("0" + t) == HexValue(t)
  {
    if t == "" {
      assert ("0" + t)[..0] == "";
    } else {
      LeadingZero(t[..|t| - 1]);
      assert ("0" + t)[..|t|] == "0" + t[..|t| - 1];
    }
  }

  // Reading back what utoa_hex wrote, zero padded or not, gives the number.
  lemma HexRoundTrip(n: nat, zeros: int)
    requires n < WORD_LIMIT
    ensures ParsedValue("0x" + Zeros(zeros) + HexDigits(n)) == n
    ensures ParsedValue("0x" + HexDigits(n)) == n
    ensures ParsedValue(PrintHexText(n)) == n
  {
    PaddedHex(n, zeros);
    PaddedHex(n, 0);
    PaddedHex(n, 8 - |HexDigits(n)|);
    assert "0x" + Zeros(0) + HexDigits(n) == "0x" + HexDigits(n);
  }

  lemma PaddedHex(n: nat, zeros: int)
    requires n < WORD_LIMIT
    ensures ParsedValue("0x" + Zeros(zeros) + HexDigits(n)) == n
  {
    hide ParsedValue, HexValue, Zeros, HexDigits;
    var t := Zeros(zeros) + HexDigits(n);
    assert "0x" + Zeros(zeros) + HexDigits(n) == "0x" + t;
    ZerosAreHex(zeros, HexDigits(n));
    HexDigitsValue(n);
    ParsedHex(t);
  }

  lemma ParsedHex(t: string)
    requires AllHexDigits(t)
    ensures ParsedValue("0x" + t) == HexValue(t) % WORD_LIMIT
  {
    assert ("0x" + t)[2..] == t && t[..|t|] == t;
    RunIs(t, |t|);
  }

  // The same text followed by anything that is not a hex digit comes out sixteen times too big.
  lemma HexFollowed(n: nat, rest: string)
    requires rest != "" && !IsHexDigit(rest[0])
    ensures ParsedValue("0x" + HexDigits(n) + rest) == 16 * n % WORD_LIMIT
  {
    var s := "0x" + HexDigits(n) + rest;
    var t := HexDigits(n);
    assert s[2..] == t + rest;
    RunIs(t + rest, |t|);
    assert (t + rest)[..|t|] == t;
    HexDigitsValue(n);
  }

  lemma DecRoundTrip(n: nat, rest: string)
    requires rest != "" ==> !IsDigit(rest[0]) && rest[0] != 'x' && rest[0] != 'X'
    ensures ParsedValue(DecDigits(n) + rest) == n % WORD_LIMIT
  {
    var t := DecDigits(n);
    RunIs(t + rest, |t|);
    assert (t + rest)[..|t|] == t;
    DecDigitsValue(n);
    assert !HasHexPrefix(t + rest);
  }

  // ---------- what the texts look like ----------

  // The digit at place k, counted from the right, is the one for n / 10^k % 10, and there are no more
  // digits than n needs.
  lemma {:induction false} DecPlace(n: nat, k: nat)
    requires k < |DecDigits(n)|
    ensures Pow(10, k) > 0
    ensures DecDigits(n)[|DecDigits(n)| - 1 - k] == "0123456789"[n / Pow(10, k) % 10]
    ensures k > 0 ==> n >= Pow(10, k)
  {
    PowPositive(10, k);
    if n < 10 {
      TableDigit(n);
    } else if k == 0 {
      TableDigit(n % 10);
    } else {
      DecPlace(n / 10, k - 1);
      PowPositive(10, k - 1);
      DivDiv(n, 10, Pow(10, k - 1));
      var s := DecDigits(n / 10);
      assert DecDigits(n) == s + [DigitChar(n % 10)];
      assert DecDigits(n)[|s| - k] == s[|s| - k];
      assert k == 1 ==> Pow(10, 1) == 10 * Pow(10, 0);
    }
  }

  lemma {:induction false} HexPlace(n: nat, k: nat)
    requires k < |HexDigits(n)|
    ensures Pow(16, k) > 0
    ensures HexDigits(n)[|HexDigits(n)| - 1 - k] == "0123456789ABCDEF"[n / Pow(16, k) % 16]
    ensures k > 0 ==> n >= Pow(16, k)
  {
    hide HexDigitChar;
    PowPositive(16, k);
    if n < 16 {
      HexTableDigit(n);
    } else if k == 0 {
      HexTableDigit(n % 16);
    } else {
      HexPlace(n / 16, k - 1);
      PowPositive(16, k - 1);
      DivDiv(n, 16, Pow(16, k - 1));
      var s := HexDigits(n / 16);
      assert HexDigits(n) == s + [HexDigitChar(n % 16)];
      assert HexDigits(n)[|s| - k] == s[|s| - k];
      assert k == 1 ==> Pow(16, 1) == 16 * Pow(16, 0);
    }
  }

  lemma HexTableDigit(d: nat)
    requires d < 16
    ensures HexDigitChar(d) == "0123456789ABCDEF"[d]
  {
  }

  lemma {:induction false} PowPositive(b: nat, k: nat)
    requires b > 0
    ensures Pow(b, k) > 0
  {
    if k > 0 {
      PowPositive(b, k - 1);
      TimesAtLeast(b, Pow(b, k - 1));
    }
  }

  lemma TableDigit(d: nat)
    requires d < 10
    ensures DigitChar(d) == "0123456789"[d]
  {
  }

  // Upper and lower case hex digits mean the same, and leading zeros nothing; nothing else is a digit.
  lemma HexTables(d: nat)
    requires d < 16
    ensures var u, l := "0123456789ABCDEF"[d], "0123456789abcdef"[d];
      IsHexDigit(u) && IsHexDigit(l) && HexDigitValue(u) == d && HexDigitValue(l) == d
  {
  }

  lemma HexDigitsAre(c: char)
    ensures IsHexDigit(c) <==> c in "0123456789ABCDEFabcdef"
    ensures IsDigit(c) <==> c in "0123456789"
  {
    assert "0123456789ABCDEFabcdef" == "0123456789" + "ABCDEF" + "abcdef";
    DigitsAre(c);
    LettersAre(c);
  }

  lemma DigitsAre(c: char)
    ensures '0' <= c <= '9' <==> c in "0123456789"
  {
    if '0' <= c <= '9' {
      assert "0123456789"[c as int - '0' as int] == c;
    }
  }

  lemma LettersAre(c: char)
    ensures 'A' <= c <= 'F' <==> c in "ABCDEF"
    ensures 'a' <= c <= 'f' <==> c in "abcdef"
  {
    if 'A' <= c <= 'F' {
      assert "ABCDEF"[c as int - 'A' as int] == c;
    }
    if 'a' <= c <= 'f' {
      assert "abcdef"[c as int - 'a' as int] == c;
    }
  }

  // Texts whose hex digits have the same values are read as the same number.
  lemma {:induction false} CaseDoesNotMatter(s: string, t: string)
    requires AllHexDigits(s) && AllHexDigits(t) && |s| == |t|
    requires forall i :: 0 <= i < |s| ==> HexDigitValue(s[i]) == HexDigitValue(t[i])
    ensures HexValue(s) == HexValue(t)
    ensures ParsedValue("0x" + s) == ParsedValue("0x" + t) == ParsedValue("0X" + t)
  {
    SameDigits(s, t);
    ParsedHex(s);
    ParsedHex(t);
    assert ("0X" + t)[2..] == t && t[..|t|] == t;
    RunIs(t, |t|);
  }

  lemma {:induction false} SameDigits(s: string, t: string)
    requires AllHexDigits(s) && AllHexDigits(t) && |s| == |t|
    requires forall i :: 0 <= i < |s| ==> HexDigitValue(s[i]) == HexDigitValue(t[i])
    ensures HexValue(s) == HexValue(t)
  {
    if s != "" {
      SameDigits(s[..|s| - 1], t[..|t| - 1]);
    }
  }

  // parse_num makes 0 of a text without a number, and passes over leading zeros.
  lemma OtherTexts(s: string)
    ensures s == "" || !IsDigit(s[0]) ==> ParsedValue(s) == 0
    ensures AllDigits(s) ==> ParsedValue("0" + s) == ParsedValue(s)
  {
    if AllDigits(s) {
      assert AllDigits("0" + s);
      RunIs(s, |s|);
      RunIs("0" + s, |s| + 1);
      LeadingDecZero(s);
      assert ("0" + s)[..|s| + 1] == "0" + s && s[..|s|] == s;
    }
  }

  lemma {:induction false} LeadingDecZero(t: string)
    requires AllDigits(t)
    ensures AllDigits("0" + t) && DecValue("0" + t) == DecValue(t)
  {
    if t == "" {
      assert ("0" + t)[..0] == "";
    } else {
      LeadingDecZero(t[..|t| - 1]);
      assert ("0" + t)[..|t|] == "0" + t[..|t| - 1];
    }
  }

  // print_hex: "0x", then eight digits for what fits in eight, and as many as it takes for the rest.
  lemma PrintHexWidth(n: nat)
    ensures PrintHexText(n)[..2] == "0x" && |PrintHexText(n)| >= 10
    ensures n < 0x1_0000_0000 ==> |PrintHexText(n)| == 10
    ensures n >= 0x1_0000_0000 ==> PrintHexText(n) == "0x" + HexDigits(n) && HexDigits(n)[0] != '0'
  {
    hide HexDigits, Zeros, Pow;
    ZerosLength(8 - |HexDigits(n)|);
    if n < 0x1_0000_0000 {
      assert Pow(16, 8) == 0x1_0000_0000 by {
        EightPlaces();
      }
      HexDigitsLength(n, 8);
    } else {
      NineDigits(n);
      FirstNotZero(n);
      NoZeros(8 - |HexDigits(n)|);
      assert "0x" + "" + HexDigits(n) == "0x" + HexDigits(n);
    }
  }

  lemma NoZeros(k: int)
    ensures k <= 0 ==> Zeros(k) == ""
  {
  }

  lemma EightPlaces()
    ensures Pow(16, 8) == 0x1_0000_0000
  {
    assert Pow(16, 4) == 0x1_0000;
  }

  lemma {:induction false} ZerosLength(k: int)
    ensures |Zeros(k)| == if k <= 0 then 0 else k
    decreases k
  {
    if k > 0 {
      ZerosLength(k - 1);
    }
  }

  lemma NineDigits(n: nat)
    requires n >= 0x1_0000_0000
    ensures |HexDigits(n)| > 8
  {
    LongerThan(n, 8);
    EightPlaces();
  }

  lemma {:induction false} LongerThan(n: nat, k: nat)
    ensures n >= Pow(16, k) ==> |HexDigits(n)| > k
  {
    if k > 0 && n >= Pow(16, k) {
      PowPositive(16, k - 1);
      assert Pow(16, k) == 16 * Pow(16, k - 1);
      LongerThan(n / 16, k - 1);
    }
  }

  lemma {:induction false} FirstNotZero(n: nat)
    requires n > 0
    ensures HexDigits(n)[0] != '0'
  {
    if n >= 16 {
      FirstNotZero(n / 16);
    }
  }
}
