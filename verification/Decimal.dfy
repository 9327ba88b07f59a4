/** Decimal numerals, as `String(n)` and `padStart(w, "0")` write them. */
module Decimal {

  function DigitChar(d: int): (c: char)
    requires 0 <= d < 10
    ensures '0' <= c <= '9'
  {
    ('0' as int + d) as char
  }

  predicate AllDigits(s: string) {
    forall i :: 0 <= i < |s| ==> '0' <= s[i] <= '9'
  }

  function Digits(n: nat): (s: string)
    ensures s != "" && AllDigits(s)
  {
    if n < 10 then [DigitChar(n)] else Digits(n / 10) + [DigitChar(n % 10)]
  }

  function Number(s: string): nat
    requires AllDigits(s)
  {
    if s == "" then 0 else 10 * Number(s[..|s| - 1]) + (s[|s| - 1] as int - '0' as int)
  }

  function Zeros(n: nat): (s: string)
    ensures |s| == n && AllDigits(s)
  {
    seq(n, _ => '0')
  }

  /** At least `w` digits, with leading zeros where `n` has fewer. */
  function Pad(n: nat, w: nat): (s: string)
    ensures AllDigits(s) && |s| >= w
  {
    if |Digits(n)| >= w then Digits(n) else Zeros(w - |Digits(n)|) + Digits(n)
  }

  function Signed(n: int): string {
    if n < 0 then "-" + Digits(-n) else Digits(n)
  }

  lemma {:induction false} NumberOfDigits(n: nat)
    ensures Number(Digits(n)) == n
  {
    if n >= 10 {
      NumberOfDigits(n / 10);
      assert Digits(n)[..|Digits(n)| - 1] == Digits(n / 10);
    } else {
      assert Digits(n)[..0] == "";
    }
  }

  lemma {:induction false} LeadingZeros(k: nat, s: string)
    requires AllDigits(s)
    ensures Number(Zeros(k) + s) == Number(s)
  {
    var t := Zeros(k) + s;
    if s != "" {
      LeadingZeros(k, s[..|s| - 1]);
      assert t[..|t| - 1] == Zeros(k) + s[..|s| - 1];
    } else if k > 0 {
      LeadingZeros(k - 1, s);
      assert t[..|t| - 1] == Zeros(k - 1) + s;
    }
  }

  lemma NumberOfPad(n: nat, w: nat)
    ensures Number(Pad(n, w)) == n
  {
    hide Digits, Number;
    NumberOfDigits(n);
    if |Digits(n)| < w {
      LeadingZeros(w - |Digits(n)|, Digits(n));
    }
  }

  /** Numerals are decimal and their leading zeros count nothing. */
  lemma NumeralExample()
    ensures Digits(3071) == "3071" && Number("03071") == 3071
  {
    assert Digits(307) == "307";
    NumberOfDigits(3071);
    LeadingZeros(1, "3071");
    assert Zeros(1) + "3071" == "03071";
  }

  lemma PadInjective(m: nat, n: nat, w: nat)
    requires Pad(m, w) == Pad(n, w)
    ensures m == n
  {
    NumberOfPad(m, w);
    NumberOfPad(n, w);
  }

  lemma SignedInjective(m: int, n: int)
    requires Signed(m) == Signed(n)
    ensures m == n
  {
    if m < 0 {
      assert Signed(m)[0] == '-' && Signed(m)[1..] == Digits(-m);
    }
    if n < 0 {
      assert Signed(n)[0] == '-' && Signed(n)[1..] == Digits(-n);
    }
    NumberOfDigits(if m < 0 then -m else m);
    NumberOfDigits(if n < 0 then -n else n);
  }

  function Pow10(w: nat): (p: nat)
    ensures p >= 1
  {
    if w == 0 then 1 else 10 * Pow10(w - 1)
  }

  lemma {:induction false} DigitsBound(n: nat, w: nat)
    ensures w > 0 ==> (|Digits(n)| <= w <==> n < Pow10(w))
  {
    if w > 0 {
      assert Pow10(w) == 10 * Pow10(w - 1);
      if w > 1 && n >= 10 {
        DigitsBound(n / 10, w - 1);
      }
    }
  }

  /** A padded numeral has exactly the asked-for width as long as the number fits. */
  lemma PadWidth(n: nat, w: nat)
    requires w > 0
    ensures |Pad(n, w)| == w <==> n < Pow10(w)
  {
    DigitsBound(n, w);
  }
}
