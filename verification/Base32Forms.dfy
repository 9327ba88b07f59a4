/** What a text may look like: the vectors of the standard, and that neither letter case
    nor whitespace nor trailing padding changes what a text decodes to. */
module Base32Forms {
  import opened Base32
  import opened Bits

  // ---------------------------------------------------------------------
  // Letter case
  // ---------------------------------------------------------------------

  /** The same letter in either case, or the same character. */
  ghost predicate SameLetter(a: char, b: char) {
    || a == b
    || ('a' <= a <= 'z' && b as int == a as int - 32)
    || ('a' <= b <= 'z' && a as int == b as int - 32)
  }

  /** Letter case does not matter. */
  lemma CaseIgnored(s: string, t: string)
    requires |s| == |t| && forall i :: 0 <= i < |s| ==> SameLetter(s[i], t[i])
    ensures Decode(s) == Decode(t)
  {
    SameUpper(s, t);
  }

  lemma {:induction false} SameUpper(s: string, t: string)
    requires |s| == |t| && forall i :: 0 <= i < |s| ==> SameLetter(s[i], t[i])
    ensures Upper(s) == Upper(t)
  {
    if s != "" {
      assert UpperChar(s[0]) == UpperChar(t[0]) by {
        assert SameLetter(s[0], t[0]);
      }
      SameUpper(s[1..], t[1..]);
    }
  }

  /** The other characters whose upper case consists of ASCII letters. */
  lemma SpecialLetters()
    ensures UpperChar('\U{00DF}') == "SS" && UpperChar('\U{0131}') == "I" && UpperChar('\U{017F}') == "S"
    ensures UpperChar('\U{FB00}') == "FF" && UpperChar('\U{FB01}') == "FI" && UpperChar('\U{FB02}') == "FL"
    ensures UpperChar('\U{FB03}') == "FFI" && UpperChar('\U{FB04}') == "FFL"
    ensures UpperChar('\U{FB05}') == "ST" && UpperChar('\U{FB06}') == "ST"
    ensures forall c :: |UpperChar(c)| == 1 || c in "\U{00DF}\U{FB00}\U{FB01}\U{FB02}\U{FB03}\U{FB04}\U{FB05}\U{FB06}"
  {
    var specials := "\U{00DF}\U{FB00}\U{FB01}\U{FB02}\U{FB03}\U{FB04}\U{FB05}\U{FB06}";
    assert specials[0] == '\U{00DF}' && specials[1] == '\U{FB00}' && specials[2] == '\U{FB01}';
    assert specials[3] == '\U{FB02}' && specials[4] == '\U{FB03}' && specials[5] == '\U{FB04}';
    assert specials[6] == '\U{FB05}' && specials[7] == '\U{FB06}';
  }

  // ---------------------------------------------------------------------
  // Whitespace and padding
  // ---------------------------------------------------------------------

  lemma {:induction false} NoPaddingStripped(s: string)
    requires '=' !in s
    ensures StripPadding(s) == s
  {
  }

  lemma {:induction false} UpperAddsNoPadding(s: string)
    requires '=' !in s
    ensures '=' !in Upper(s)
  {
    if s != "" {
      assert s == [s[0]] + s[1..] && s[0] != '=';
      assert '=' !in UpperChar(s[0]);
      UpperAddsNoPadding(s[1..]);
    }
  }

  /** Whitespace anywhere in a text without padding does not matter. */
  lemma SpaceIgnored(a: string, c: char, b: string)
    requires IsSpace(c) && '=' !in a && '=' !in b
    ensures Decode(a + [c] + b) == Decode(a + b)
  {
    assert c != '=';
    hide Upper, StripSpace, StripPadding, IsSpace;
    CleanOf(a + [c] + b);
    CleanOf(a + b);
    Stripped(a + [c], b);
    Stripped(a, [c]);
    Stripped(a, b);
    UpperUnchanged([c]);
    SpaceStripsToNothing([c]);
    assert StripSpace(Upper(a)) + [] == StripSpace(Upper(a));
  }

  lemma CleanOf(s: string)
    requires '=' !in s
    ensures Clean(s) == StripSpace(Upper(s))
  {
    UpperAddsNoPadding(s);
    NoPaddingStripped(Upper(s));
  }

  lemma Stripped(a: string, b: string)
    ensures StripSpace(Upper(a + b)) == StripSpace(Upper(a)) + StripSpace(Upper(b))
  {
    UpperConcat(a, b);
    StripSpaceConcat(Upper(a), Upper(b));
  }

  /** Padding at the very end does not matter. */
  lemma PaddingIgnored(s: string)
    ensures Decode(s + "=") == Decode(s)
  {
    UpperConcat(s, "=");
    UpperUnchanged("=");
    assert (Upper(s) + "=")[..|Upper(s)|] == Upper(s);
  }

  /** The characters that count as whitespace, by their code points. */
  lemma SpaceTable(c: char)
    ensures IsSpace(c) <==> c as int in SPACES
  {
  }

  const SPACES: set<int> :=
      {0x9, 0xa, 0xb, 0xc, 0xd, 0x20, 0xa0, 0x1680, 0x2000, 0x2001, 0x2002, 0x2003, 0x2004, 0x2005, 0x2006, 0x2007,
       0x2008, 0x2009, 0x200a, 0x2028, 0x2029, 0x202f, 0x205f, 0x3000, 0xfeff}

  // ---------------------------------------------------------------------
  // The standard's vectors
  // ---------------------------------------------------------------------

  const FOO: seq<uint8> := [0x66, 0x6f, 0x6f]

  const FOO_BITS := [
    false, true, true, false, false, true, true, false,
    false, true, true, false, true, true, true, true,
    false, true, true, false, true, true, true, true
  ]

  /** A vector of section 10 of RFC 4648: "foo". */
  lemma Rfc4648Vector()
    ensures Encode(FOO) == "MZXW6" && Decode("MZXW6") == Bytes(FOO)
  {
    hide EncodeBits, ByteBits, Char, DigitOf, Decode;
    FooBits();
    FooText();
    RoundTrip(FOO);
  }

  lemma FooBits()
    ensures ByteBits(FOO) == FOO_BITS
  {
    hide LowBits;
    ByteIs();
    assert FOO[1..] == [0x6f, 0x6f] && [0x6f, 0x6f][1..] == [0x6f] && [0x6f][1..] == [];
  }

  lemma ByteIs()
    ensures LowBits(0x66, 8) == [false, true, true, false, false, true, true, false]
    ensures LowBits(0x6f, 8) == [false, true, true, false, true, true, true, true]
  {
    hide LowBits;
    LowFour(0x6, 0);
    LowFour(0x66, 4);
    LowFour(0x6f, 4);
    assert LowBits(0, 0) == [];
  }

  lemma LowFour(v: nat, n: nat)
    ensures var low := [v / 8 % 2 == 1, v / 4 % 2 == 1, v / 2 % 2 == 1, v % 2 == 1];
      LowBits(v, n + 4) == LowBits(v / 16, n) + low
  {
    hide LowBits;
    LowBit(v, n + 4);
    LowBit(v / 2, n + 3);
    LowBit(v / 4, n + 2);
    LowBit(v / 8, n + 1);
    assert v / 2 / 2 == v / 4 && v / 4 / 2 == v / 8 && v / 8 / 2 == v / 16;
  }

  lemma LowBit(v: nat, n: nat)
    requires n > 0
    ensures LowBits(v, n) == LowBits(v / 2, n - 1) + [v % 2 == 1]
  {
  }

  lemma FooText()
    ensures EncodeBits(FOO_BITS) == "MZXW6"
  {
    hide DigitOf, Char, EncodeBits;
    var last := FOO_BITS[20..];
    FooDigits();
    ShortText(last);
    Group(FOO_BITS, 15, "6");
    Group(FOO_BITS, 10, "W6");
    Group(FOO_BITS, 5, "XW6");
    Group(FOO_BITS, 0, "ZXW6");
    assert FOO_BITS[0..] == FOO_BITS;
  }

  lemma Group(bits: seq<bool>, i: nat, rest: string)
    requires i + 5 <= |bits| && EncodeBits(bits[i + 5..]) == rest
    ensures EncodeBits(bits[i..]) == [Char(DigitOf(bits[i..i + 5]))] + rest
  {
    hide DigitOf, Char;
    assert bits[i..][..5] == bits[i..i + 5] && bits[i..][5..] == bits[i + 5..];
  }

  lemma FooDigits()
    ensures var b := FOO_BITS;
      && Char(DigitOf(b[0..5])) == 'M' && Char(DigitOf(b[5..10])) == 'Z' && Char(DigitOf(b[10..15])) == 'X'
      && Char(DigitOf(b[15..20])) == 'W' && Char(DigitOf(b[20..] + Zeros(1))) == '6'
  {
    var b := FOO_BITS;
    ValueOfFive(b[0..5]);
    ValueOfFive(b[5..10]);
    ValueOfFive(b[10..15]);
    ValueOfFive(b[15..20]);
    ValueOfFive(b[20..] + Zeros(1));
  }
}
