/** Time-based one-time codes: the counter message, dynamic truncation, and the
    verification that tolerates clock skew. */
module Totp {
  import opened Base32
  import opened Base32Codec
  import opened Bits
  import opened Decimal
  import opened Shared
  import opened StringOrder

  const TWO_31: int := 0x8000_0000
  const TWO_64: int := 0x1_0000_0000_0000_0000

  /** HMAC-SHA1, about which only the length of the result is known. */
  type Mac = (seq<uint8>, seq<uint8>) -> seq<uint8>

  ghost predicate Sha1Sized(mac: Mac) {
    forall key, message :: |mac(key, message)| == 20
  }

  // ---------------------------------------------------------------------
  // Numbers and bytes
  // ---------------------------------------------------------------------

  function BigEndian(bytes: seq<uint8>): nat {
    if bytes == [] then 0 else 256 * BigEndian(bytes[..|bytes| - 1]) + bytes[|bytes| - 1]
  }

  /** The `width` low bytes of `n`, most significant first. */
  function Message(n: nat, width: nat): (bytes: seq<uint8>)
    ensures |bytes| == width
  {
    if width == 0 then [] else Message(n / 256, width - 1) + [n % 256]
  }

  /** Different counters below 2^64 have different messages. */
  lemma {:induction false} MessageNumber(n: nat, width: nat)
    requires n < Pow2(8 * width)
    ensures BigEndian(Message(n, width)) == n
  {
    if width > 0 {
      PowAdd(8, 8 * width - 8);
      PowValues();
      MessageNumber(n / 256, width - 1);
      assert Message(n, width)[..width - 1] == Message(n / 256, width - 1);
    }
  }

  /** `writeUInt32BE`: the value has to fit. */
  function UInt32BE(v: uint32): seq<uint8> {
    [v / 0x100_0000, v / 0x1_0000 % 256, v / 0x100 % 256, v % 256]
  }

  lemma UInt32Message(n: nat, v: uint32)
    requires v == n % TWO_32
    ensures UInt32BE(v) == [n / 256 / 256 / 256 % 256, n / 256 / 256 % 256, n / 256 % 256, n % 256]
  {
    LowHalf(n);
  }

  lemma HalfIsMessage(v: uint32)
    ensures UInt32BE(v) == Message(v, 4)
  {
    hide UInt32BE;
    UInt32Message(v, v);
    FourBytes(v, 0);
  }

  /** The two halves are written separately, the low one after `>>> 0`. */
  lemma HalvesAreMessage(counter: nat)
    requires counter < TWO_64
    ensures UInt32BE(counter / TWO_32) + UInt32BE(counter % TWO_32) == Message(counter, 8)
  {
    hide Message, UInt32BE;
    FourBytes(counter, 4);
    LowHalf(counter);
    UInt32Message(counter, counter % TWO_32);
    HalfIsMessage(counter / TWO_32);
  }

  lemma FourBytes(n: nat, width: nat)
    ensures Message(n, width + 4) ==
            Message(n / 256 / 256 / 256 / 256, width) +
            [n / 256 / 256 / 256 % 256, n / 256 / 256 % 256, n / 256 % 256, n % 256]
  {
    assert Message(n, width + 4) == Message(n / 256, width + 3) + [n % 256];
    assert Message(n / 256, width + 3) == Message(n / 256 / 256, width + 2) + [n / 256 % 256];
    assert Message(n / 256 / 256, width + 2) == Message(n / 256 / 256 / 256, width + 1) + [n / 256 / 256 % 256];
  }

  lemma LowHalf(n: nat)
    ensures var lo := n % TWO_32;
      && lo % 256 == n % 256 && lo / 0x100 % 256 == n / 256 % 256
      && lo / 0x1_0000 % 256 == n / 256 / 256 % 256 && lo / 0x100_0000 == n / 256 / 256 / 256 % 256
    ensures n / TWO_32 == n / 256 / 256 / 256 / 256
  {
    var b0, n1 := n % 256, n / 256;
    var b1, n2 := n1 % 256, n1 / 256;
    var b2, n3 := n2 % 256, n2 / 256;
    var b3, n4 := n3 % 256, n3 / 256;
    var lo := 0x100_0000 * b3 + 0x1_0000 * b2 + 0x100 * b1 + b0;
    assert n == TWO_32 * n4 + lo;
    assert n % TWO_32 == lo && n / TWO_32 == n4;
    assert lo / 0x100 == 0x1_0000 * b3 + 0x100 * b2 + b1;
    assert lo / 0x1_0000 == 0x100 * b3 + b2;
  }

  // ---------------------------------------------------------------------
  // One code
  // ---------------------------------------------------------------------

  /** Section 5.3 of RFC 4226: the four bytes at the offset that the last nibble gives,
      without their top bit. */
  function Truncated(hmac: seq<uint8>): nat
    requires |hmac| == 20
  {
    var offset := hmac[19] % 16;
    BigEndian(hmac[offset..offset + 4]) % TWO_31
  }

  function Code(mac: Mac, key: seq<uint8>, counter: nat, digits: nat): string
    requires Sha1Sized(mac)
  {
    Pad(Truncated(mac(key, Message(counter, 8))) % Pow10(digits), digits)
  }

  /** A code has exactly the asked-for digits. */
  lemma CodeWidth(mac: Mac, key: seq<uint8>, counter: nat, digits: nat)
    requires Sha1Sized(mac) && digits > 0
    ensures var code := Code(mac, key, counter, digits);
      && |code| == digits && AllDigits(code)
      && Number(code) == Truncated(mac(key, Message(counter, 8))) % Pow10(digits)
  {
    PadWidth(Truncated(mac(key, Message(counter, 8))) % Pow10(digits), digits);
    NumberOfPad(Truncated(mac(key, Message(counter, 8))) % Pow10(digits), digits);
  }

  lemma JoinBytes(a: nat, b: nat, c: nat, d: nat)
    requires a < 128 && b < 256 && c < 256 && d < 256
    ensures Or(Or(Or(Shl(a, 24), Shl(b, 16)), Shl(c, 8)), d) == Joined(a, b, c, d)
  {
    hide Or, Pow2;
    PowValues();
    OrDisjoint(a, b * 0x1_0000, 24);
    OrDisjoint(a * 256 + b, c * 256, 16);
    OrDisjoint((a * 256 + b) * 256 + c, d, 8);
  }

  function Joined(a: nat, b: nat, c: nat, d: nat): nat {
    ((a * 256 + b) * 256 + c) * 256 + d
  }

  lemma BigEndianOfFour(bytes: seq<uint8>)
    requires |bytes| == 4
    ensures BigEndian(bytes) == Joined(bytes[0], bytes[1], bytes[2], bytes[3])
  {
    assert bytes[..1][..0] == [] && bytes[..2][..1] == bytes[..1] && bytes[..3][..2] == bytes[..2];
    var a: nat, b: nat, c: nat := bytes[0], bytes[1], bytes[2];
    assert BigEndian(bytes[..1]) == a;
    assert BigEndian(bytes[..2]) == 256 * a + b;
    assert BigEndian(bytes[..3]) == 256 * (256 * a + b) + c;
  }

  lemma FourBytesNumber(bytes: seq<uint8>)
    requires |bytes| == 4
    ensures BigEndian(bytes) % TWO_31 == Joined(bytes[0] % 128, bytes[1], bytes[2], bytes[3])
  {
    hide BigEndian;
    BigEndianOfFour(bytes);
    var a: nat, b: nat, c: nat, d: nat := bytes[0], bytes[1], bytes[2], bytes[3];
    assert Joined(a, b, c, d) == a / 128 * TWO_31 + Joined(a % 128, b, c, d);
  }

  /** Nothing when a half of the counter does not fit into 32 bits, which throws. */
  method Hotp(mac: Mac, key: seq<uint8>, counter: int, digits: nat) returns (r: Option<string>)
    requires Sha1Sized(mac)
    ensures r == if 0 <= counter < TWO_64 then Some(Code(mac, key, counter, digits)) else None
  {
    hide Code, Message;
    var high := counter / TWO_32;
    if !(0 <= high < TWO_32) {
      return None;
    }
    var message := UInt32BE(high) + UInt32BE(counter % TWO_32);
    HalvesAreMessage(counter);
    var hmac := mac(key, message);
    var offset := And(hmac[19], 0x0f);
    assert offset == hmac[19] % 16 by {
      AndMask(hmac[19], 4);
    }
    var top := And(hmac[offset], 0x7f);
    assert top == hmac[offset] % 128 by {
      AndMask(hmac[offset], 7);
    }
    var binary := Or(Or(Or(Shl(top, 24), Shl(hmac[offset + 1], 16)), Shl(hmac[offset + 2], 8)), hmac[offset + 3]);
    assert binary == Truncated(hmac) by {
      JoinBytes(top, hmac[offset + 1], hmac[offset + 2], hmac[offset + 3]);
      FourBytesNumber(hmac[offset..offset + 4]);
    }
    r := Some(Pad(binary % Pow10(digits), digits));
    CodeIs(mac, key, counter, digits);
  }

  lemma CodeIs(mac: Mac, key: seq<uint8>, counter: nat, digits: nat)
    requires Sha1Sized(mac)
    ensures Code(mac, key, counter, digits) == Pad(Truncated(mac(key, Message(counter, 8))) % Pow10(digits), digits)
  {
  }

  // ---------------------------------------------------------------------
  // Verification
  // ---------------------------------------------------------------------

  datatype Verdict = Verdict(ok: bool) | BadSecret(c: char) | OutOfRange

  function Counter(ms: int, stepSec: int): int
    requires stepSec > 0
  {
    ms / (1000 * stepSec)
  }

  function TrimStart(s: string): string {
    if s != [] && IsSpace(s[0]) then TrimStart(s[1..]) else s
  }

  function TrimEnd(s: string): string {
    if s != [] && IsSpace(s[|s| - 1]) then TrimEnd(s[..|s| - 1]) else s
  }

  function Trim(s: string): string {
    TrimEnd(TrimStart(s))
  }

  predicate WellFormed(token: string, digits: nat) {
    |token| == digits && token != "" && AllDigits(token)
  }

  /** Some counter within the window has this code. */
  ghost predicate Hits(mac: Mac, key: seq<uint8>, counter: int, window: int, digits: nat, token: string)
    requires Sha1Sized(mac)
  {
    exists c: nat :: counter - window <= c <= counter + window && Code(mac, key, c, digits) == token
  }

  /** What verification promises: the format is checked first, then the secret, then
      every counter of the window has to be representable. */
  ghost function Verified(mac: Mac, secret: string, token: string, atTime: int, window: int, stepSec: int,
                          digits: nat): Verdict
    requires Sha1Sized(mac) && stepSec > 0
  {
    var counter := Counter(atTime, stepSec);
    if !WellFormed(Trim(token), digits) then Verdict(false)
    else match Decode(secret)
      case InvalidCharacter(c) => BadSecret(c)
      case Bytes(key) =>
        if window >= 0 && !(0 <= counter - window && counter + window < TWO_64) then OutOfRange
        else Verdict(Hits(mac, key, counter, window, digits, Trim(token)))
  }

  method VerifyTotp(mac: Mac, secret: string, token: string, atTime: int, window: int, stepSec: int, digits: nat)
    returns (r: Verdict)
    requires Sha1Sized(mac) && stepSec > 0
    ensures r == Verified(mac, secret, token, atTime, window, stepSec, digits)
    ensures !WellFormed(Trim(token), digits) || (window < 0 && Decode(secret).Bytes?) ==> r == Verdict(false)
    ensures r.BadSecret? <==> WellFormed(Trim(token), digits) && Decode(secret).InvalidCharacter?
    ensures r.BadSecret? ==> r.c == Decode(secret).c
    ensures var counter := Counter(atTime, stepSec);
      r.OutOfRange? <==>
        && WellFormed(Trim(token), digits) && Decode(secret).Bytes?
        && window >= 0 && (counter < window || counter + window >= 0x1_0000_0000_0000_0000)
  {
    hide Code, Trim, Decode;
    var trimmed := Trim(token);
    if !WellFormed(trimmed, digits) {
      return Verdict(false);
    }
    var counter := Counter(atTime, stepSec);
    var decoded := Base32Decode(secret);
    if decoded.InvalidCharacter? {
      return BadSecret(decoded.c);
    }
    var key := decoded.bytes;
    var matched := false;
    var offset := -window;
    while offset <= window
      invariant -window <= offset && (window >= 0 ==> offset <= window + 1) && (window < 0 ==> offset == -window)
      invariant offset > -window ==> 0 <= counter - window && counter + offset - 1 < TWO_64
      invariant matched <==>
        exists c: nat :: counter - window <= c < counter + offset && Code(mac, key, c, digits) == trimmed
      decreases window - offset
    {
      var candidate := Hotp(mac, key, counter + offset, digits);
      if candidate.None? {
        return OutOfRange;
      }
      if |candidate.value| == |trimmed| && candidate.value == trimmed {
        matched := true;
      }
      offset := offset + 1;
    }
    r := Verdict(matched);
  }

  /** The time a window of this many steps spans to either side, in milliseconds. */
  function Skew(window: nat, stepSec: int): int {
    1000 * stepSec * window
  }

  ghost predicate Representable(atTime: int, window: nat, stepSec: int)
    requires stepSec > 0
  {
    0 <= Counter(atTime, stepSec) - window && Counter(atTime, stepSec) + window < TWO_64
  }

  /** The code shown by a device whose clock is off by no more than the window is
      accepted, with any whitespace around it that trimming removes. */
  lemma SkewTolerated(mac: Mac, secret: string, key: seq<uint8>, token: string, atTime: int, deviceTime: int,
                      shown: nat, window: nat, stepSec: int, digits: nat)
    requires Sha1Sized(mac) && stepSec > 0 && digits > 0
    requires Decode(secret) == Bytes(key) && Representable(atTime, window, stepSec)
    requires -Skew(window, stepSec) <= deviceTime - atTime <= Skew(window, stepSec)
    requires shown == Counter(deviceTime, stepSec) && Trim(token) == Code(mac, key, shown, digits)
    ensures Verified(mac, secret, token, atTime, window, stepSec, digits) == Verdict(true)
  {
    hide Code, Trim, Decode, Skew, Counter;
    SkewCounters(atTime, deviceTime, window, stepSec);
    CodeWidth(mac, key, shown, digits);
    assert Hits(mac, key, Counter(atTime, stepSec), window, digits, Trim(token));
  }

  lemma SkewCounters(a: int, b: int, window: nat, stepSec: int)
    requires stepSec > 0 && -Skew(window, stepSec) <= b - a <= Skew(window, stepSec)
    ensures Counter(a, stepSec) - window <= Counter(b, stepSec) <= Counter(a, stepSec) + window
  {
    var step := 1000 * stepSec;
    assert Skew(window, stepSec) == step * window;
    CountersApart(a, b, window, step);
  }

  lemma CountersApart(a: int, b: int, w: nat, step: int)
    requires step > 0 && -step * w <= b - a <= step * w
    ensures a / step - w <= b / step <= a / step + w
  {
    CounterAhead(a, b, w, step);
    CounterAhead(b, a, w, step);
  }

  lemma CounterAhead(a: int, b: int, w: nat, step: int)
    requires step > 0 && b - a <= step * w
    ensures b / step <= a / step + w
  {
    var q, p := a / step, b / step;
    DivBounds(a, step);
    DivBounds(b, step);
    Spread(q, w, step);
    SmallFactor(p, q + w + 1, step);
  }

  lemma DivBounds(a: int, d: int)
    requires d > 0
    ensures a / d * d <= a < a / d * d + d
  {
  }

  lemma Spread(q: int, w: int, d: int)
    ensures (q + w + 1) * d == q * d + d * w + d
  {
  }

  lemma SmallFactor(x: int, y: int, d: int)
    requires d > 0
    ensures x * d < y * d ==> x < y
  {
    if y <= x {
      MulLe(y, x, d);
    }
  }

  ghost predicate TruncatesTo(mac: Mac, key: seq<uint8>, counter: nat, digits: nat, number: nat)
    requires Sha1Sized(mac)
  {
    Truncated(mac(key, Message(counter, 8))) % Pow10(digits) == number
  }

  lemma CodeIsNumber(mac: Mac, key: seq<uint8>, counter: nat, digits: nat, token: string)
    requires Sha1Sized(mac) && WellFormed(token, digits)
    ensures Code(mac, key, counter, digits) == token <==> TruncatesTo(mac, key, counter, digits, Number(token))
  {
    hide Code, Truncated, Pow10;
    CodeWidth(mac, key, counter, digits);
    var code := Code(mac, key, counter, digits);
    NumeralOrder(code, token);
    NumeralOrder(token, code);
    LessTotal(code, token);
  }

  /** A well-formed token is accepted exactly when some counter of the window truncates
      to the number typed. */
  lemma AcceptedExactly(mac: Mac, secret: string, key: seq<uint8>, token: string, atTime: int, window: nat,
                        stepSec: int, digits: nat)
    requires Sha1Sized(mac) && stepSec > 0 && Decode(secret) == Bytes(key) && Representable(atTime, window, stepSec)
    ensures var counter, t := Counter(atTime, stepSec), Trim(token);
      Verified(mac, secret, token, atTime, window, stepSec, digits) == Verdict(true) <==>
      WellFormed(t, digits) &&
      exists c: nat :: counter - window <= c <= counter + window && TruncatesTo(mac, key, c, digits, Number(t))
  {
    hide Code, Trim, Decode, TruncatesTo, Counter;
    var counter, t := Counter(atTime, stepSec), Trim(token);
    if WellFormed(t, digits) {
      if c: nat :| counter - window <= c <= counter + window && TruncatesTo(mac, key, c, digits, Number(t)) {
        CodeIsNumber(mac, key, c, digits, t);
      }
      if c: nat :| counter - window <= c <= counter + window && Code(mac, key, c, digits) == t {
        CodeIsNumber(mac, key, c, digits, t);
      }
    }
  }
}
