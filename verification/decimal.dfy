/** Decimal text for integers: `java.lang.Integer.parseInt` (Kotlin's
    `String.toInt()`) and the decimal rendering Kotlin's `Long.toString()`
    and Swift's string interpolation produce. */
module Decimal {
  import opened Runtime

  predicate IsDigit(c: char) {
    '0' <= c <= '9'
  }

  predicate AllDigits(s: string) {
    forall i :: 0 <= i < |s| ==> IsDigit(s[i])
  }

  function DigitChar(d: nat): (c: char)
    requires d < 10
    ensures IsDigit(c)
  {
    ('0' as int + d) as char
  }

  /** The value of a run of decimal digits, most significant first. */
  function DigitsValue(ds: string): nat
    requires AllDigits(ds)
  {
    if |ds| == 0 then 0
    else DigitsValue(ds[..|ds| - 1]) * 10 + (ds[|ds| - 1] as int - '0' as int)
  }

  /** The shortest decimal digits of `n`. */
  function ShowNat(n: nat): (r: string)
    ensures |r| >= 1 && AllDigits(r)
  {
    if n < 10 then [DigitChar(n)]
    else ShowNat(n / 10) + [DigitChar(n % 10)]
  }

  /** The decimal text of `n`, with a leading `-` when it is negative. */
  function Show(n: int): (r: string)
    ensures |r| >= 1
  {
    if n < 0 then "-" + ShowNat(-n) else ShowNat(n)
  }

  /** `Integer.parseInt(s)`, `None` standing for the `NumberFormatException`
      it throws: an optional `+` or `-`, then at least one digit, and a value
      that fits a 32-bit `Int`. The ensures together decide every input:
      empty, sign only, a stray non-digit, or out of range gives `None`. Only ASCII digits are accepted, which are the
      only decimal digits among the characters 0-255 that the image code
      builds its tokens from. */
  function ParseInt(s: string): (r: Option<int>)
    ensures r.Some? ==> INT_MIN <= r.value <= INT_MAX
    ensures r.Some? ==> |s| >= 1
    ensures r.Some? && AllDigits(s) ==> r.value == DigitsValue(s)
    ensures AllDigits(s) && |s| >= 1 && DigitsValue(s) <= INT_MAX ==> r == Some(DigitsValue(s))
    ensures AllDigits(s) && DigitsValue(s) > INT_MAX ==> r.None?
    ensures |s| >= 2 && (s[0] == '-' || s[0] == '+') && AllDigits(s[1..]) ==>
              var v := DigitsValue(s[1..]);
              r == if s[0] == '+' && v <= INT_MAX then Some(v as int)
                   else if s[0] == '-' && v <= -INT_MIN then Some(-(v as int))
                   else None
    ensures |s| == 0 ==> r.None?
    ensures |s| == 1 && !IsDigit(s[0]) ==> r.None?
    ensures (exists j :: 0 < j < |s| && !IsDigit(s[j])) ==> r.None?
    ensures |s| >= 1 && !IsDigit(s[0]) && s[0] != '-' && s[0] != '+' ==> r.None?
  {
    if |s| == 0 then None
    else
      var signed := s[0] == '-' || s[0] == '+';
      var digits := if signed then s[1..] else s;
      if |digits| == 0 || !AllDigits(digits) then None
      else
        var v: int := if s[0] == '-' then -(DigitsValue(digits) as int) else DigitsValue(digits);
        if INT_MIN <= v <= INT_MAX then Some(v) else None
  }

  lemma {:induction false} ValueOfShowNat(n: nat)
    ensures DigitsValue(ShowNat(n)) == n
    decreases n
  {
    if n >= 10 {
      var ds := ShowNat(n);
      assert ds[..|ds| - 1] == ShowNat(n / 10);
      ValueOfShowNat(n / 10);
    }
  }

  /** Rendering then parsing gives back every 32-bit value. */
  lemma ParseShow(n: int)
    requires INT_MIN <= n <= INT_MAX
    ensures ParseInt(Show(n)) == Some(n)
  {
    if n < 0 {
      var digits := ShowNat(-n);
      var s := "-" + digits;
      assert s[0] == '-' && s[1..] == digits;
      ValueOfShowNat(-n);
      assert ParseInt(s) == Some(-(DigitsValue(digits) as int));
    } else {
      ValueOfShowNat(n);
    }
  }
}
