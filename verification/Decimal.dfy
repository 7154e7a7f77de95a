/** Text order and the decimal printing that `format!` does. */
module Decimal {

  // ---------------------------------------------------------------------------
  // Lexicographic order.
  // ---------------------------------------------------------------------------

  predicate Less(a: string, b: string) {
    if b == [] then false
    else if a == [] then true
    else a[0] < b[0] || (a[0] == b[0] && Less(a[1..], b[1..]))
  }

  lemma {:induction false} LessTransitive(a: string, b: string, c: string)
    requires Less(a, b) && Less(b, c)
    ensures Less(a, c)
  {
    if a != [] && a[0] == b[0] == c[0] {
      LessTransitive(a[1..], b[1..], c[1..]);
    }
  }

  /** Exactly one of less, equal and greater. */
  lemma {:induction false} LessTotal(a: string, b: string)
    ensures a == b ==> !Less(a, b)
    ensures a != b ==> (Less(a, b) <==> !Less(b, a))
  {
    if a != [] && b != [] {
      LessTotal(a[1..], b[1..]);
      assert a == [a[0]] + a[1..] && b == [b[0]] + b[1..];
    }
  }

  /** Texts made of two parts are ordered by their first parts, and then by their second. */
  lemma {:induction false} LessOfConcat(a: string, b: string, c: string, d: string)
    requires |a| == |b|
    ensures Less(a + c, b + d) <==> Less(a, b) || (a == b && Less(c, d))
  {
    if a == [] {
      assert a + c == c && b + d == d;
    } else {
      assert (a + c)[1..] == a[1..] + c && (b + d)[1..] == b[1..] + d;
      LessOfConcat(a[1..], b[1..], c, d);
      assert a == [a[0]] + a[1..] && b == [b[0]] + b[1..];
    }
  }

  // ---------------------------------------------------------------------------
  // Digits.
  // ---------------------------------------------------------------------------

  predicate IsDigit(c: char) {
    '0' <= c <= '9'
  }

  predicate AllDigits(s: string) {
    forall i :: 0 <= i < |s| ==> IsDigit(s[i])
  }

  function DigitOf(d: int): (c: char)
    requires 0 <= d < 10
    ensures IsDigit(c) && c as int - '0' as int == d
  {
    ('0' as int + d) as char
  }

  /** The value of a digit string, in base ten. */
  function Value(s: string): (n: nat)
    requires AllDigits(s)
  {
    if s == [] then 0 else 10 * Value(s[..|s| - 1]) + (s[|s| - 1] as int - '0' as int)
  }

  /** `format!("{n}")` */
  function Print(n: nat): (s: string)
    ensures |s| > 0 && AllDigits(s)
  {
    if n < 10 then [DigitOf(n)] else Print(n / 10) + [DigitOf(n % 10)]
  }

  function Zeros(k: nat): (s: string)
    ensures |s| == k && AllDigits(s)
  {
    seq(k, _ => '0')
  }

  /** `format!("{n:0w}")`: a minus sign counts towards the width. */
  function Padded(n: int, w: nat): string {
    if n >= 0 then PadNat(n, w) else "-" + PadNat(-n, if w == 0 then 0 else w - 1)
  }

  function PadNat(n: nat, w: nat): (s: string)
    ensures AllDigits(s)
  {
    var s := Print(n);
    if |s| >= w then s else Zeros(w - |s|) + s
  }

  function Pow10(w: nat): nat {
    if w == 0 then 1 else 10 * Pow10(w - 1)
  }

  lemma ValueOfSnoc(s: string, c: char)
    requires AllDigits(s) && IsDigit(c)
    ensures AllDigits(s + [c])
    ensures Value(s + [c]) == 10 * Value(s) + (c as int - '0' as int)
  {
    assert (s + [c])[..|s|] == s;
  }

  /** Reading back what was printed gives the number, so printing is injective. */
  lemma {:induction false} ValueOfPrint(n: nat)
    ensures Value(Print(n)) == n
  {
    if n < 10 {
      assert Print(n)[..0] == [];
    } else {
      ValueOfPrint(n / 10);
      ValueOfSnoc(Print(n / 10), DigitOf(n % 10));
    }
  }

  lemma PrintInjective(m: nat, n: nat)
    requires Print(m) == Print(n)
    ensures m == n
  {
    ValueOfPrint(m);
    ValueOfPrint(n);
  }

  lemma {:induction false} PrintWidth(n: nat, w: nat)
    requires 1 <= w && n < Pow10(w)
    ensures |Print(n)| <= w
  {
    if n >= 10 {
      PrintWidth(n / 10, w - 1);
    }
  }

  lemma {:induction false} ValueOfLeadingZeros(k: nat, s: string)
    requires AllDigits(s)
    ensures Value(Zeros(k) + s) == Value(s)
    decreases |s|, k
  {
    if s != [] {
      var init, last := s[..|s| - 1], s[|s| - 1];
      ValueOfLeadingZeros(k, init);
      assert Zeros(k) + s == (Zeros(k) + init) + [last];
      ValueOfSnoc(Zeros(k) + init, last);
    } else if k > 0 {
      ValueOfLeadingZeros(k - 1, []);
      assert Zeros(k) + [] == (Zeros(k - 1) + []) + ['0'];
      ValueOfSnoc(Zeros(k - 1) + [], '0');
    }
  }

  lemma PadNatCorrect(n: nat, w: nat)
    requires 1 <= w && n < Pow10(w)
    ensures |PadNat(n, w)| == w && Value(PadNat(n, w)) == n
  {
    PrintWidth(n, w);
    ValueOfPrint(n);
    ValueOfLeadingZeros(w - |Print(n)|, Print(n));
    assert Zeros(0) + Print(n) == Print(n);
  }

  /** The digit strings of a value are its print after any number of zeros. */
  lemma {:induction false} DigitsOfValue(s: string) returns (k: nat)
    requires s != "" && AllDigits(s)
    ensures s == Zeros(k) + Print(Value(s))
  {
    var init, last := s[..|s| - 1], s[|s| - 1];
    if init == [] {
      k := 0;
      assert s == Zeros(0) + [last];
    } else {
      var z := DigitsOfValue(init);
      assert s == init + [last];
      if Value(init) == 0 {
        k := z + 1;
        assert init == Zeros(z + 1);
      } else {
        k := z;
        assert Print(Value(s)) == Print(Value(init)) + [last];
      }
    }
  }

  /** Digit strings of one width are ordered as their values are. */
  lemma {:induction false} LessIsNumeric(a: string, b: string)
    requires |a| == |b| && AllDigits(a) && AllDigits(b)
    ensures Less(a, b) <==> Value(a) < Value(b)
    ensures a == b <==> Value(a) == Value(b)
  {
    if a != [] {
      var i := |a| - 1;
      LessIsNumeric(a[..i], b[..i]);
      assert a == a[..i] + [a[i]] && b == b[..i] + [b[i]];
      LessOfConcat(a[..i], b[..i], [a[i]], [b[i]]);
    }
  }

  // ---------------------------------------------------------------------------
  // Numbers of different widths.
  // ---------------------------------------------------------------------------

  lemma {:induction false} ValueBelowPow10(s: string)
    requires AllDigits(s)
    ensures Value(s) < Pow10(|s|)
  {
    if s != [] { ValueBelowPow10(s[..|s| - 1]); }
  }

  lemma {:induction false} ValueAtLeastPow10(s: string)
    requires s != [] && AllDigits(s) && s[0] != '0'
    ensures Value(s) >= Pow10(|s| - 1)
  {
    if |s| > 1 {
      ValueAtLeastPow10(s[..|s| - 1]);
    } else {
      assert s[..0] == [];
    }
  }

  lemma {:induction false} Pow10Monotone(v: nat, w: nat)
    requires v <= w
    ensures 0 < Pow10(v) <= Pow10(w)
  {
    if v < w {
      Pow10Monotone(v, w - 1);
    } else if v > 0 {
      Pow10Monotone(v - 1, w - 1);
    }
  }

  /** A wider number without a leading zero is the larger one. */
  lemma WiderIsLarger(a: string, b: string)
    requires AllDigits(a) && AllDigits(b) && |a| < |b| && b[0] != '0'
    ensures Value(a) < Value(b)
  {
    ValueBelowPow10(a);
    ValueAtLeastPow10(b);
    Pow10Monotone(|a|, |b| - 1);
  }

  /** `s` without its leading zeros. */
  function Significant(s: string): (r: string)
    ensures |r| <= |s| && (r != [] ==> r[0] != '0')
  {
    if s != [] && s[0] == '0' then Significant(s[1..]) else s
  }

  lemma {:induction false} SignificantValue(s: string)
    requires AllDigits(s)
    ensures AllDigits(Significant(s)) && Value(Significant(s)) == Value(s)
  {
    if s != [] && s[0] == '0' {
      assert s == Zeros(1) + s[1..];
      ValueOfLeadingZeros(1, s[1..]);
      SignificantValue(s[1..]);
    }
  }

  /** Fewer significant digits, or as many and first in text order. */
  predicate NumericallyLess(a: string, b: string) {
    var x, y := Significant(a), Significant(b);
    |x| < |y| || (|x| == |y| && Less(x, y))
  }

  /** That is the order of the values, for digit strings of any width with any leading zeros. */
  lemma NumericallyLessExact(a: string, b: string)
    requires AllDigits(a) && AllDigits(b)
    ensures NumericallyLess(a, b) <==> Value(a) < Value(b)
  {
    var x, y := Significant(a), Significant(b);
    SignificantValue(a);
    SignificantValue(b);
    hide Significant, Value;
    if |x| < |y| {
      WiderIsLarger(x, y);
    } else if |y| < |x| {
      WiderIsLarger(y, x);
    } else {
      LessIsNumeric(x, y);
    }
  }
}
