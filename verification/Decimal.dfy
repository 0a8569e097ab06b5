/** Decimal numerals, as str() prints them and int() reads them. */
module Decimal {
  import opened Esp

  predicate IsDigit(c: char) {
    '0' <= c <= '9'
  }

  predicate AllDigits(s: string) {
    forall i :: 0 <= i < |s| ==> IsDigit(s[i])
  }

  function Digit(d: nat): (c: char)
    requires d < 10
    ensures IsDigit(c)
  {
    '0' + d as char
  }

  function DigitValue(c: char): (d: nat)
    requires IsDigit(c)
    ensures d < 10 && Digit(d) == c
  {
    (c - '0') as nat
  }

  function Print(n: nat): string {
    if n < 10 then [Digit(n)] else Print(n / 10) + [Digit(n % 10)]
  }

  function PrintInt(n: int): string {
    if n < 0 then "-" + Print(-n) else Print(n)
  }

  function Value(s: string): nat
    requires AllDigits(s)
  {
    if s == [] then 0 else Value(s[..|s| - 1]) * 10 + DigitValue(s[|s| - 1])
  }

  /** Reading back what was printed. */
  lemma {:induction false} ValueOfPrint(n: nat)
    ensures Print(n) != [] && AllDigits(Print(n)) && Value(Print(n)) == n
  {
    var s := Print(n);
    if n >= 10 {
      ValueOfPrint(n / 10);
      assert s[..|s| - 1] == Print(n / 10);
    } else {
      assert s[..|s| - 1] == [];
    }
  }

  function Pow10(k: nat): (p: nat)
    ensures p >= 1
  {
    if k == 0 then 1 else 10 * Pow10(k - 1)
  }

  // --- They are the decimal numerals ---

  /** A single digit stands for its distance from '0'. */
  lemma ValueOfDigit(s: string)
    requires |s| == 1 && AllDigits(s)
    ensures Value(s) == s[0] as int - '0' as int
  {
    assert s[..0] == [];
  }

  /** Digits on the left are worth as many tens as there are digits on their right. */
  lemma {:induction false} ValueOfAppend(a: string, b: string)
    requires AllDigits(a) && AllDigits(b)
    ensures AllDigits(a + b) && Value(a + b) == Value(a) * Pow10(|b|) + Value(b)
  {
    if b == [] {
      assert a + b == a;
    } else {
      var c := b[..|b| - 1];
      ValueOfAppend(a, c);
      assert (a + b)[..|a + b| - 1] == a + c;
      TenTimes(Value(a), Pow10(|c|));
    }
  }

  lemma TenTimes(v: nat, p: nat)
    ensures v * (10 * p) == v * p * 10
  {
  }

  lemma DivideTwice(n: nat, p: nat)
    requires p >= 1
    ensures n / 10 / p == n / (10 * p)
  {
    var q, r := n / 10 / p, n / 10 % p;
    assert n / 10 == q * p + r;
    assert n == (q * p + r) * 10 + n % 10 == q * (10 * p) + (r * 10 + n % 10);
    assert r * 10 + n % 10 < 10 * p;
    QuotientIs(n, 10 * p, q, r * 10 + n % 10);
  }

  lemma QuotientIs(n: nat, d: nat, q: nat, r: nat)
    requires n == q * d + r && r < d
    ensures n / d == q
  {
    var m := n / d;
    assert n == m * d + n % d;
    ScaleOrder(m + 1, q, d);
    ScaleOrder(q + 1, m, d);
    assert (m + 1) * d == m * d + d && (q + 1) * d == q * d + d;
  }

  /** What is printed at each place: counted from the right, character i is the digit of 10^i. */
  lemma {:induction false} PrintedDigits(n: nat, i: nat)
    requires i < |Print(n)|
    ensures Print(n)[|Print(n)| - 1 - i] as int == '0' as int + n / Pow10(i) % 10
  {
    var s := Print(n);
    if i == 0 {
      assert Pow10(0) == 1;
    } else {
      var p := Print(n / 10);
      PrintedDigits(n / 10, i - 1);
      DivideTwice(n, Pow10(i - 1));
      assert s[|s| - 1 - i] == p[|p| - 1 - (i - 1)];
    }
  }

  /** As many places as the number needs: no leading zero but in "0" itself. */
  lemma {:induction false} PrintedLength(n: nat)
    ensures n < Pow10(|Print(n)|) && (n > 0 ==> Pow10(|Print(n)| - 1) <= n && Print(n)[0] != '0')
    ensures Print(0) == "0"
  {
    if n >= 10 {
      PrintedLength(n / 10);
      assert Print(n)[0] == Print(n / 10)[0];
    } else {
      assert Pow10(1) == 10 * Pow10(0);
    }
  }

  /** A negative number is its absolute value after a minus sign. */
  lemma PrintedSign(n: int)
    ensures PrintInt(n) == if n < 0 then ['-'] + Print(-n) else Print(n)
  {
  }
}
