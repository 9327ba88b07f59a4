/** One-time codes against the standards: the worked example of section 5.4 of RFC 4226,
    the time steps of RFC 6238, and what trimming a typed code means. */
module TotpStandard {
  import opened Base32
  import opened Decimal
  import opened Totp

  // ---------------------------------------------------------------------
  // Truncation
  // ---------------------------------------------------------------------

  /** The low four bits of the last byte choose four bytes; the top bit of the first of
      them is dropped. */
  lemma TruncatedBytes(h: seq<uint8>, o: nat)
    requires |h| == 20 && o == h[19] % 16
    ensures Truncated(h) ==
      (h[o] as int % 128) * 0x100_0000 + (h[o + 1] as int) * 0x1_0000 + (h[o + 2] as int) * 0x100 + h[o + 3] as int
  {
    hide BigEndian;
    FourBytesNumber(h[o..o + 4]);
  }

  const RFC_4226_HMAC: seq<uint8> := [
    0x1f, 0x86, 0x98, 0x69, 0x0e, 0x02, 0xca, 0x16, 0x61, 0x85,
    0x50, 0xef, 0x7f, 0x19, 0xda, 0x8e, 0x94, 0x5b, 0x55, 0x5a
  ]

  lemma Rfc4226Example(mac: Mac, key: seq<uint8>, counter: nat)
    requires Sha1Sized(mac) && mac(key, Message(counter, 8)) == RFC_4226_HMAC
    ensures Truncated(RFC_4226_HMAC) == 0x50ef7f19 && Code(mac, key, counter, 6) == "872921"
  {
    hide Truncated, Pad, Pow10, Digits;
    TruncatedBytes(RFC_4226_HMAC, 10);
    MillionIs();
    assert 0x50ef7f19 % 1_000_000 == 872_921;
    assert Code(mac, key, counter, 6) == Pad(872_921, 6);
    SixDigits();
  }

  lemma MillionIs()
    ensures Pow10(6) == 1_000_000
  {
    assert Pow10(3) == 1000;
  }

  lemma SixDigits()
    ensures Pad(872_921, 6) == "872921"
  {
    hide Digits;
    OneMore(8);
    OneMore(87);
    OneMore(872);
    OneMore(8729);
    OneMore(87_292);
    OneMore(872_921);
  }

  lemma OneMore(n: nat)
    ensures Digits(n) == if n < 10 then [DigitChar(n)] else Digits(n / 10) + [DigitChar(n % 10)]
  {
  }

  // ---------------------------------------------------------------------
  // Time steps
  // ---------------------------------------------------------------------

  /** The counter is the number of whole steps since the epoch. */
  lemma CounterExactly(ms: int, stepSec: int, c: int)
    requires stepSec > 0
    ensures Counter(ms, stepSec) == c <==> c * (1000 * stepSec) <= ms < (c + 1) * (1000 * stepSec)
  {
    var step := 1000 * stepSec;
    DivBounds(ms, step);
    var q := ms / step;
    assert (q + 1) * step == q * step + step;
    if c * step <= ms < (c + 1) * step {
      SmallFactor(c, q + 1, step);
      SmallFactor(q, c + 1, step);
    }
  }

  /** Two of the times in appendix B of RFC 6238. */
  lemma Rfc6238Steps()
    ensures Counter(59_000, 30) == 1 && Counter(1_111_111_109_000, 30) == 0x23523ec
  {
  }

  // ---------------------------------------------------------------------
  // Trimming
  // ---------------------------------------------------------------------

  ghost predicate AllSpace(s: string) {
    forall i :: 0 <= i < |s| ==> IsSpace(s[i])
  }

  /** Nothing but whitespace is trimmed, and none is left at either end. */
  lemma TrimExactly(s: string) returns (before: string, after: string)
    ensures s == before + Trim(s) + after && AllSpace(before) && AllSpace(after)
    ensures Trim(s) == "" || (!IsSpace(Trim(s)[0]) && !IsSpace(Trim(s)[|Trim(s)| - 1]))
  {
    hide IsSpace;
    before := TrimmedStart(s);
    after := TrimmedEnd(TrimStart(s));
  }

  lemma {:induction false} TrimmedStart(s: string) returns (before: string)
    ensures s == before + TrimStart(s) && AllSpace(before)
    ensures TrimStart(s) == "" || !IsSpace(TrimStart(s)[0])
  {
    before := "";
    if s != "" && IsSpace(s[0]) {
      before := TrimmedStart(s[1..]);
      before := [s[0]] + before;
    }
  }

  lemma {:induction false} TrimmedEnd(s: string) returns (after: string)
    ensures s == TrimEnd(s) + after && AllSpace(after)
    ensures TrimEnd(s) == "" || (TrimEnd(s)[0] == s[0] && !IsSpace(TrimEnd(s)[|TrimEnd(s)| - 1]))
  {
    after := "";
    if s != "" && IsSpace(s[|s| - 1]) {
      after := TrimmedEnd(s[..|s| - 1]);
      after := after + [s[|s| - 1]];
    }
  }
}
