/** Numbers as they are printed. */
module Decimals {
  predicate IsDigit(c: char) {
    '0' <= c <= '9'
  }

  function Digit(d: nat): (c: char)
    requires d < 10
    ensures IsDigit(c)
  {
    '0' + d as char
  }

  /** `${n}` */
  function Decimal(n: nat): (s: string)
    ensures s != [] && forall c | c in s :: IsDigit(c)
  {
    if n < 10 then [Digit(n)] else Decimal(n / 10) + [Digit(n % 10)]
  }

  lemma {:induction false} DecimalInjective(m: nat, n: nat)
    requires Decimal(m) == Decimal(n)
    ensures m == n
  {
    var s := Decimal(m);
    if m < 10 || n < 10 {
      assert |s| == 1 ==> m < 10 && n < 10;
      assert m < 10 ==> |s| == 1;
      assert n < 10 ==> |s| == 1;
      assert s[0] == Digit(m) && s[0] == Digit(n);
    } else {
      var k := |s| - 1;
      assert Decimal(m / 10) == s[..k] && Decimal(n / 10) == s[..k];
      assert s[k] == Digit(m % 10) && s[k] == Digit(n % 10);
      DecimalInjective(m / 10, n / 10);
    }
  }

  ghost predicate StartsOutsideNumber(s: string) {
    s == [] || !IsDigit(s[0])
  }

  /** How many digits `s` starts with. */
  ghost function LeadingDigits(s: string): nat {
    if s != [] && IsDigit(s[0]) then 1 + LeadingDigits(s[1..]) else 0
  }

  lemma {:induction false} LeadingDigitsOf(d: string, s: string)
    requires StartsOutsideNumber(s) && forall c | c in d :: IsDigit(c)
    ensures LeadingDigits(d + s) == |d|
  {
    if d == [] {
      assert d + s == s;
    } else {
      assert (d + s)[0] == d[0] && (d + s)[1..] == d[1..] + s;
      LeadingDigitsOf(d[1..], s);
    }
  }

  /** A number followed by something else than a digit can be read back. */
  lemma DecimalThenRest(m: nat, s: string, n: nat, t: string)
    requires StartsOutsideNumber(s) && StartsOutsideNumber(t)
    requires Decimal(m) + s == Decimal(n) + t
    ensures m == n && s == t
  {
    LeadingDigitsOf(Decimal(m), s);
    LeadingDigitsOf(Decimal(n), t);
    var whole, k := Decimal(m) + s, |Decimal(m)|;
    assert Decimal(m) == whole[..k] == Decimal(n) && s == whole[k..] == t;
    DecimalInjective(m, n);
  }
}
