/** Decimal numerals as strings: their value, their successor, and the order that a string sort puts them in. */
module Decimal {
  predicate IsNumeral(s: string) {
    forall k :: 0 <= k < |s| ==> '0' <= s[k] <= '9'
  }

  function Digit(c: char): (d: nat)
    requires '0' <= c <= '9'
    ensures d < 10
  {
    c as int - '0' as int
  }

  function Numeral(d: nat): (c: char)
    requires d < 10
    ensures '0' <= c <= '9' && Digit(c) == d
  {
    ('0' as int + d) as char
  }

  lemma DigitCharacters(d: nat)
    requires d < 10
    ensures Numeral(d) == "0123456789"[d] && Digit("0123456789"[d]) == d
  {
  }

  /** The character after a digit's is the next digit's. */
  lemma NextCharacter(c: char)
    requires '0' <= c < '9'
    ensures (c as int + 1) as char == Numeral(Digit(c) + 1)
  {
  }

  function Value(s: string): nat
    requires IsNumeral(s)
  {
    if s == "" then 0 else Value(s[..|s| - 1]) * 10 + Digit(s[|s| - 1])
  }

  function Pow10(n: nat): (p: nat)
    ensures p > 0
  {
    if n == 0 then 1 else 10 * Pow10(n - 1)
  }

  /** `n` written with exactly `width` digits. */
  function Pad(n: nat, width: nat): (s: string)
    ensures |s| == width && IsNumeral(s)
  {
    if width == 0 then "" else Pad(n / 10, width - 1) + [Numeral(n % 10)]
  }

  function Nines(n: nat): (s: string)
    ensures |s| == n && IsNumeral(s) && forall k :: 0 <= k < n ==> s[k] == '9'
  {
    if n == 0 then "" else Nines(n - 1) + "9"
  }

  lemma ValueLast(s: string, c: char)
    requires IsNumeral(s + [c])
    ensures IsNumeral(s) && '0' <= c <= '9' && Value(s + [c]) == Value(s) * 10 + Digit(c)
  {
    var t := s + [c];
    assert t[..|s|] == s && t[|s|] == c;
    assert forall k :: 0 <= k < |s| ==> s[k] == t[k];
  }

  lemma {:induction false} ValueBound(s: string)
    requires IsNumeral(s)
    ensures Value(s) < Pow10(|s|)
  {
    if s != "" {
      ValueBound(s[..|s| - 1]);
    }
  }

  lemma {:induction false} ValuePad(n: nat, width: nat)
    requires n < Pow10(width)
    ensures Value(Pad(n, width)) == n
  {
    if width > 0 {
      ValuePad(n / 10, width - 1);
      ValueLast(Pad(n / 10, width - 1), Numeral(n % 10));
    }
  }

  lemma {:induction false} PadValue(s: string)
    requires IsNumeral(s)
    ensures Pad(Value(s), |s|) == s
  {
    if s != "" {
      PadValue(s[..|s| - 1]);
      assert s == s[..|s| - 1] + [s[|s| - 1]];
    }
  }

  /** Numerals of one width are distinct exactly when their values are. */
  lemma ValueInjective(a: string, b: string)
    requires IsNumeral(a) && IsNumeral(b) && |a| == |b|
    ensures Value(a) == Value(b) <==> a == b
  {
    PadValue(a);
    PadValue(b);
  }

  lemma {:induction false} NinesValue(n: nat)
    ensures Value(Nines(n)) == Pow10(n) - 1
  {
    if n > 0 {
      NinesValue(n - 1);
      ValueLast(Nines(n - 1), '9');
    }
  }

  lemma NinesAreMost(s: string)
    requires IsNumeral(s)
    ensures s == Nines(|s|) <==> Value(s) == Pow10(|s|) - 1
  {
    NinesValue(|s|);
    ValueInjective(s, Nines(|s|));
  }

  /** `std::string::operator<`. */
  predicate LexLess(a: string, b: string) {
    if b == "" then false
    else if a == "" then true
    else a[0] < b[0] || (a[0] == b[0] && LexLess(a[1..], b[1..]))
  }

  lemma {:induction false} LexLessPrefix(p: string, a: string, b: string)
    ensures LexLess(p + a, p + b) <==> LexLess(a, b)
  {
    if p == "" {
      assert p + a == a && p + b == b;
    } else {
      assert (p + a)[1..] == p[1..] + a && (p + b)[1..] == p[1..] + b;
      LexLessPrefix(p[1..], a, b);
    }
  }

  lemma {:induction false} LexLessLast(a: string, b: string, c: char, d: char)
    requires |a| == |b|
    ensures LexLess(a + [c], b + [d]) <==> LexLess(a, b) || (a == b && c < d)
  {
    if a == "" {
    } else {
      assert (a + [c])[1..] == a[1..] + [c] && (b + [d])[1..] == b[1..] + [d];
      assert a == b <==> a[0] == b[0] && a[1..] == b[1..] by {
        assert a == [a[0]] + a[1..] && b == [b[0]] + b[1..];
      }
      LexLessLast(a[1..], b[1..], c, d);
    }
  }

  /** Fixed-width numerals sort as strings the way their values do. */
  lemma {:induction false} LexLessIsLess(a: string, b: string)
    requires IsNumeral(a) && IsNumeral(b) && |a| == |b|
    ensures LexLess(a, b) <==> Value(a) < Value(b)
  {
    if a != "" {
      var n := |a| - 1;
      assert a == a[..n] + [a[n]] && b == b[..n] + [b[n]];
      LexLessLast(a[..n], b[..n], a[n], b[n]);
      LexLessIsLess(a[..n], b[..n]);
      ValueInjective(a[..n], b[..n]);
    }
  }
}
