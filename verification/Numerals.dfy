/** Decimal and hexadecimal numerals as the C++ streams print and read them. */
module Numerals {
  predicate IsBase(base: nat) {
    base == 10 || base == 16
  }

  function DigitChar(d: nat): char
    requires d < 16
  {
    "0123456789abcdef"[d]
  }

  /** The value of a digit, upper or lower case, or base itself for any other character. */
  function DigitValue(c: char, base: nat): (v: nat)
    requires IsBase(base)
    ensures v <= base
  {
    var v := if '0' <= c <= '9' then c as nat - '0' as nat
             else if 'a' <= c <= 'f' then c as nat - 'a' as nat + 10
             else if 'A' <= c <= 'F' then c as nat - 'A' as nat + 10
             else base;
    if v < base then v else base
  }

  predicate IsDigit(c: char, base: nat)
    requires IsBase(base)
  {
    DigitValue(c, base) < base
  }

  function Print(n: nat, base: nat): (s: string)
    requires IsBase(base)
    ensures s != ""
  {
    if n < base then [DigitChar(n)] else Print(n / base, base) + [DigitChar(n % base)]
  }

  /** The number of leading digits. */
  function DigitRun(s: string, base: nat): (k: nat)
    requires IsBase(base)
    ensures k <= |s|
  {
    if s == "" || !IsDigit(s[0], base) then 0 else 1 + DigitRun(s[1..], base)
  }

  predicate AllDigits(s: string, base: nat)
    requires IsBase(base)
  {
    forall i :: 0 <= i < |s| ==> IsDigit(s[i], base)
  }

  function Value(s: string, base: nat): nat
    requires IsBase(base) && AllDigits(s, base)
  {
    if s == "" then 0 else Value(s[..|s| - 1], base) * base + DigitValue(s[|s| - 1], base)
  }

  lemma {:induction false} DigitRunIs(s: string, t: string, base: nat)
    requires IsBase(base) && AllDigits(s, base) && (t != "" ==> !IsDigit(t[0], base))
    ensures DigitRun(s + t, base) == |s|
  {
    if s == "" {
      assert s + t == t;
    } else {
      DigitRunIs(s[1..], t, base);
      assert (s + t)[1..] == s[1..] + t;
    }
  }

  lemma {:induction false} RunIsDigits(s: string, base: nat)
    requires IsBase(base)
    ensures AllDigits(s[..DigitRun(s, base)], base)
    ensures DigitRun(s, base) < |s| ==> !IsDigit(s[DigitRun(s, base)], base)
  {
    if s != "" && IsDigit(s[0], base) {
      RunIsDigits(s[1..], base);
    }
  }

  lemma DigitRoundTrip(d: nat, base: nat)
    requires IsBase(base) && d < base
    ensures DigitValue(DigitChar(d), base) == d
  {
  }

  /** Reading undoes printing. */
  lemma {:induction false} PrintRoundTrip(n: nat, base: nat)
    requires IsBase(base)
    ensures AllDigits(Print(n, base), base) && Value(Print(n, base), base) == n
  {
    if n < base {
      DigitRoundTrip(n, base);
      assert Print(n, base)[..0] == "";
    } else {
      PrintRoundTrip(n / base, base);
      DigitRoundTrip(n % base, base);
      var s := Print(n, base);
      assert s[..|s| - 1] == Print(n / base, base);
    }
  }

  /** The digits are those of the streams, in lower case, and no zero leads but for zero itself. */
  lemma {:induction false} PrintIsLeast(n: nat, base: nat)
    requires IsBase(base)
    ensures forall c :: c in Print(n, base) ==> '0' <= c <= '9' || (base == 16 && 'a' <= c <= 'f')
    ensures Print(n, base)[0] == '0' ==> n == 0 && Print(n, base) == "0"
  {
    if n >= base {
      PrintIsLeast(n / base, base);
    }
  }
}
