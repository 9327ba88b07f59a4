/** The Base32 codec of two-factor secrets (section 6 of RFC 4648) as a regrouping of
    bit strings, and its laws: the round trip and the tolerance of the decoder. */
module Base32 {
  import opened Bits

  type uint8 = b: int | 0 <= b < 256
  type digit = d: int | 0 <= d < 32

  datatype Decoded = Bytes(bytes: seq<uint8>) | InvalidCharacter(c: char)

  const ALPHABET := "ABCDEFGHIJKLMNOPQRSTUVWXYZ234567"

  /** `BASE32_ALPHABET[d]`, see `AlphabetTable`. */
  function Char(d: digit): (c: char)
    ensures InAlphabet(c)
  {
    if d < 26 then ('A' as int + d) as char else ('2' as int + d - 26) as char
  }

  predicate InAlphabet(c: char) {
    'A' <= c <= 'Z' || '2' <= c <= '7'
  }

  /** `BASE32_ALPHABET.indexOf(c)`, with -1 for a character outside it. */
  function IndexOf(c: char): (i: int)
    ensures i == -1 <==> !InAlphabet(c)
    ensures i != -1 ==> 0 <= i < 32 && Char(i) == c
  {
    if 'A' <= c <= 'Z' then c as int - 'A' as int
    else if '2' <= c <= '7' then c as int - '2' as int + 26
    else -1
  }

  lemma AlphabetTable(c: char)
    ensures forall d: digit :: ALPHABET[d] == Char(d) && IndexOf(ALPHABET[d]) == d
    ensures InAlphabet(c) <==> c in ALPHABET
  {
    if InAlphabet(c) {
      assert ALPHABET[IndexOf(c)] == c;
    }
  }

  // ---------------------------------------------------------------------
  // Reference: regrouping a bit string
  // ---------------------------------------------------------------------

  function ByteBits(bytes: seq<uint8>): (s: seq<bool>)
    ensures |s| == 8 * |bytes|
  {
    if bytes == [] then [] else LowBits(bytes[0], 8) + ByteBits(bytes[1..])
  }

  function DigitOf(bits: seq<bool>): digit
    requires |bits| == 5
  {
    LowBitsOfValue(bits);
    PowValues();
    Value(bits)
  }

  function ByteOf(bits: seq<bool>): uint8
    requires |bits| == 8
  {
    LowBitsOfValue(bits);
    PowValues();
    Value(bits)
  }

  function Zeros(n: nat): (s: seq<bool>)
    ensures |s| == n
  {
    seq(n, _ => false)
  }

  /** Groups of five bits, the last one filled up with zeros. */
  function EncodeBits(bits: seq<bool>): (text: string)
    ensures AllInAlphabet(text)
  {
    if bits == [] then ""
    else if |bits| < 5 then [Char(DigitOf(bits + Zeros(5 - |bits|)))]
    else [Char(DigitOf(bits[..5]))] + EncodeBits(bits[5..])
  }

  /** Groups of eight bits; an incomplete last group is dropped. */
  function DecodeBits(bits: seq<bool>): seq<uint8> {
    if |bits| < 8 then [] else [ByteOf(bits[..8])] + DecodeBits(bits[8..])
  }

  predicate AllInAlphabet(text: string) {
    forall c :: c in text ==> InAlphabet(c)
  }

  function TextBits(text: string): (s: seq<bool>)
    requires AllInAlphabet(text)
    ensures |s| == 5 * |text|
  {
    if text == [] then [] else LowBits(IndexOf(text[0]), 5) + TextBits(text[1..])
  }

  function Encode(bytes: seq<uint8>): string {
    EncodeBits(ByteBits(bytes))
  }

  // ---------------------------------------------------------------------
  // Normalisation of the text to decode
  // ---------------------------------------------------------------------

  /** `toUpperCase` of one character: the ASCII letters, and every other character
      whose upper case consists of ASCII letters. The rest can stay as they are,
      since neither they nor their upper case lie in the alphabet. */
  function UpperChar(c: char): string {
    if 'a' <= c <= 'z' then [(c as int - 32) as char]
    else if c == '\U{00DF}' then "SS"
    else if c == '\U{0131}' then "I"
    else if c == '\U{017F}' then "S"
    else if c == '\U{FB00}' then "FF"
    else if c == '\U{FB01}' then "FI"
    else if c == '\U{FB02}' then "FL"
    else if c == '\U{FB03}' then "FFI"
    else if c == '\U{FB04}' then "FFL"
    else if c == '\U{FB05}' || c == '\U{FB06}' then "ST"
    else [c]
  }

  function Upper(s: string): string {
    if s == "" then "" else UpperChar(s[0]) + Upper(s[1..])
  }

  /** The class `\s` of a regular expression. */
  predicate IsSpace(c: char) {
    || '\t' <= c <= '\r' || c == ' ' || c == '\U{00A0}' || c == '\U{1680}'
    || '\U{2000}' <= c <= '\U{200A}' || c == '\U{2028}' || c == '\U{2029}'
    || c == '\U{202F}' || c == '\U{205F}' || c == '\U{3000}' || c == '\U{FEFF}'
  }

  function StripPadding(s: string): string {
    if s != [] && s[|s| - 1] == '=' then StripPadding(s[..|s| - 1]) else s
  }

  function StripSpace(s: string): string {
    if s == [] then [] else if IsSpace(s[0]) then StripSpace(s[1..]) else [s[0]] + StripSpace(s[1..])
  }

  /** The order matters: padding is removed before whitespace is. */
  function Clean(s: string): string {
    StripSpace(StripPadding(Upper(s)))
  }

  function Decode(s: string): Decoded {
    var clean := Clean(s);
    if AllInAlphabet(clean) then Bytes(DecodeBits(TextBits(clean))) else InvalidCharacter(FirstOutside(clean))
  }

  function FirstOutside(text: string): (c: char)
    requires !AllInAlphabet(text)
    ensures c in text && !InAlphabet(c)
  {
    if !InAlphabet(text[0]) then text[0] else FirstOutside(text[1..])
  }

  // ---------------------------------------------------------------------
  // Steps of the reference
  // ---------------------------------------------------------------------

  lemma DecodeBitsStep(low: seq<bool>, rest: seq<bool>)
    requires |low| >= 8
    ensures DecodeBits(low + rest) == [ByteOf(low[..8])] + DecodeBits(low[8..] + rest)
  {
    assert (low + rest)[..8] == low[..8];
    assert (low + rest)[8..] == low[8..] + rest;
  }

  lemma {:induction false} FirstOutsideAt(text: string, i: nat)
    requires i < |text| && AllInAlphabet(text[..i]) && !InAlphabet(text[i])
    ensures !AllInAlphabet(text) && FirstOutside(text) == text[i]
  {
    assert text[i] in text;
    if i > 0 {
      assert text[0] == text[..i][0];
      assert text[1..][..i - 1] == text[..i][1..];
      FirstOutsideAt(text[1..], i - 1);
    }
  }

  // ---------------------------------------------------------------------
  // Round trip
  // ---------------------------------------------------------------------

  ghost predicate Carries(text: string, bits: seq<bool>) {
    && |text| == (|bits| + 4) / 5 && AllInAlphabet(text)
    && TextBits(text) == bits + Zeros(5 * |text| - |bits|)
  }

  /** The encoded text carries the original bits and fewer than five zeros more. */
  lemma {:induction false} TextCarriesBits(bits: seq<bool>)
    ensures |EncodeBits(bits)| == (|bits| + 4) / 5
    ensures TextBits(EncodeBits(bits)) == bits + Zeros(5 * |EncodeBits(bits)| - |bits|)
    decreases |bits|
  {
    hide TextBits, DigitOf, Char, Zeros;
    if |bits| < 5 {
      ShortCarries(bits);
    } else {
      TextCarriesBits(bits[5..]);
      LongCarries(bits, EncodeBits(bits[5..]));
    }
  }

  lemma ShortCarries(bits: seq<bool>)
    requires |bits| < 5
    ensures Carries(EncodeBits(bits), bits)
  {
    hide EncodeBits, Carries;
    ShortText(bits);
    if bits == [] {
      NoneCarried();
    } else {
      OneCarries(bits);
    }
  }

  lemma NoneCarried()
    ensures Carries("", [])
  {
  }

  lemma OneCarries(bits: seq<bool>)
    requires 0 < |bits| < 5
    ensures Carries([Char(DigitOf(bits + Zeros(5 - |bits|)))], bits)
  {
    hide TextBits, DigitOf, Char, Zeros, AllInAlphabet;
    var group := bits + Zeros(5 - |bits|);
    OneText(group);
    assert (|bits| + 4) / 5 == 1;
  }

  lemma OneText(group: seq<bool>)
    requires |group| == 5
    ensures AllInAlphabet([Char(DigitOf(group))]) && TextBits([Char(DigitOf(group))]) == group
  {
    hide DigitOf, Char, LowBits, IndexOf, InAlphabet;
    var text := [Char(DigitOf(group))];
    assert text == text + "";
    TextBitsStep(group, "");
  }

  lemma ShortText(bits: seq<bool>)
    requires |bits| < 5
    ensures EncodeBits(bits) == if bits == [] then "" else [Char(DigitOf(bits + Zeros(5 - |bits|)))]
  {
    hide DigitOf, Char;
  }

  lemma LongCarries(bits: seq<bool>, tail: string)
    requires |bits| >= 5 && Carries(tail, bits[5..])
    ensures Carries([Char(DigitOf(bits[..5]))] + tail, bits)
  {
    hide TextBits, DigitOf, Char, Zeros, AllInAlphabet;
    var z := Zeros(5 * |tail| - |bits[5..]|);
    TextBitsStep(bits[..5], tail);
    assert bits[..5] + (bits[5..] + z) == bits + z;
  }

  lemma TextBitsStep(group: seq<bool>, tail: string)
    requires |group| == 5 && AllInAlphabet(tail)
    ensures AllInAlphabet([Char(DigitOf(group))] + tail)
    ensures TextBits([Char(DigitOf(group))] + tail) == group + TextBits(tail)
  {
    LowBitsOfValue(group);
  }

  lemma ByteOfLowBits(b: uint8)
    ensures ByteOf(LowBits(b, 8)) == b
  {
    hide LowBits;
    ValueOfLowBits(b, 8);
    PowValues();
  }

  lemma {:induction false} DecodeByteBits(bytes: seq<uint8>, tail: seq<bool>)
    requires |tail| < 8
    ensures DecodeBits(ByteBits(bytes) + tail) == bytes
  {
    if bytes == [] {
    } else {
      var first, rest := LowBits(bytes[0], 8), ByteBits(bytes[1..]) + tail;
      DecodeByteBits(bytes[1..], tail);
      assert ByteBits(bytes) + tail == first + rest;
      DecodeBitsStep(first, rest);
      assert first[..8] == first && first[8..] + rest == rest;
      ByteOfLowBits(bytes[0]);
      assert bytes == [bytes[0]] + bytes[1..];
    }
  }

  lemma {:induction false} StripSpaceNone(s: string)
    requires forall c :: c in s ==> !IsSpace(c)
    ensures StripSpace(s) == s
  {
    if s != [] {
      StripSpaceNone(s[1..]);
    }
  }

  lemma {:induction false} UpperUnchanged(s: string)
    requires forall c :: c in s ==> InAlphabet(c) || c == '=' || IsSpace(c)
    ensures Upper(s) == s
  {
    if s != "" {
      var c := s[0];
      assert InAlphabet(c) || c == '=' || IsSpace(c);
      assert UpperChar(c) == [c];
      UpperUnchanged(s[1..]);
      assert s == [c] + s[1..];
    }
  }

  lemma DecodeOfClean(s: string, bytes: seq<uint8>)
    requires Clean(s) == Encode(bytes)
    ensures Decode(s) == Bytes(bytes)
  {
    var bits := ByteBits(bytes);
    TextCarriesBits(bits);
    DecodeByteBits(bytes, Zeros(5 * |EncodeBits(bits)| - |bits|));
  }

  /** Decoding an encoding gives the bytes back, whatever their number. */
  lemma RoundTrip(bytes: seq<uint8>)
    ensures Decode(Encode(bytes)) == Bytes(bytes)
    ensures |Encode(bytes)| == (8 * |bytes| + 4) / 5
  {
    var text := Encode(bytes);
    TextCarriesBits(ByteBits(bytes));
    UpperUnchanged(text);
    assert forall c :: c in text ==> InAlphabet(c) && !IsSpace(c);
    StripSpaceNone(text);
    assert text == "" || InAlphabet(text[|text| - 1]);
    DecodeOfClean(text, bytes);
  }

  // ---------------------------------------------------------------------
  // What the decoder tolerates
  // ---------------------------------------------------------------------

  /** `t` is a display form of `text`: letter case aside, only whitespace was put in. */
  predicate Displays(t: string, text: string) {
    StripSpace(Upper(t)) == text
  }

  function Padding(k: nat): (s: string)
    ensures |s| == k
  {
    seq(k, _ => '=')
  }

  lemma {:induction false} UpperConcat(a: string, b: string)
    ensures Upper(a + b) == Upper(a) + Upper(b)
  {
    if a == [] {
      assert a + b == b;
    } else {
      assert (a + b)[1..] == a[1..] + b;
      UpperConcat(a[1..], b);
    }
  }

  lemma {:induction false} StripSpaceConcat(a: string, b: string)
    ensures StripSpace(a + b) == StripSpace(a) + StripSpace(b)
  {
    if a == [] {
      assert a + b == b;
    } else {
      assert (a + b)[1..] == a[1..] + b;
      StripSpaceConcat(a[1..], b);
    }
  }

  lemma {:induction false} StripSpaceKeeps(s: string, c: char)
    requires c in s && !IsSpace(c)
    ensures c in StripSpace(s)
  {
    if s[0] != c {
      StripSpaceKeeps(s[1..], c);
    }
  }

  /** Whitespace comes somewhere after a padding character. */
  ghost predicate SpaceAfterPadding(s: string) {
    exists i, j :: 0 <= i < j < |s| && s[i] == '=' && IsSpace(s[j])
  }

  ghost predicate HasSpace(s: string) {
    exists i :: 0 <= i < |s| && IsSpace(s[i])
  }

  lemma SpaceAfterStep(s: string)
    requires s != []
    ensures SpaceAfterPadding(s) <==> (s[0] == '=' && HasSpace(s[1..])) || SpaceAfterPadding(s[1..])
    ensures HasSpace(s) <==> IsSpace(s[0]) || HasSpace(s[1..])
  {
    var t := s[1..];
    assert forall i :: 0 <= i < |t| ==> t[i] == s[i + 1];
    if i, j :| 0 <= i < j < |s| && s[i] == '=' && IsSpace(s[j]) {
      assert t[j - 1] == s[j];
      if i > 0 {
        assert t[i - 1] == s[i];
      }
    }
    if i :| 0 <= i < |s| && IsSpace(s[i]) {
      assert i > 0 ==> t[i - 1] == s[i];
    }
  }

  /** Letters put in front change neither. */
  lemma {:induction false} SpaceAfterLetters(a: string, b: string)
    requires forall c :: c in a ==> InAlphabet(c)
    ensures SpaceAfterPadding(a + b) == SpaceAfterPadding(b) && HasSpace(a + b) == HasSpace(b)
  {
    hide SpaceAfterPadding, HasSpace;
    if a == [] {
      assert a + b == b;
    } else {
      assert InAlphabet(a[0]);
      assert (a + b)[1..] == a[1..] + b;
      SpaceAfterLetters(a[1..], b);
      SpaceAfterStep(a + b);
    }
  }

  lemma {:induction false} SpaceAfterUpper(s: string)
    ensures SpaceAfterPadding(Upper(s)) == SpaceAfterPadding(s) && HasSpace(Upper(s)) == HasSpace(s)
  {
    hide SpaceAfterPadding, HasSpace;
    if s != "" {
      var c, rest := s[0], Upper(s[1..]);
      SpaceAfterUpper(s[1..]);
      SpaceAfterStep(s);
      if UpperChar(c) == [c] {
        assert Upper(s)[1..] == rest;
        SpaceAfterStep(Upper(s));
      } else {
        assert forall d :: d in UpperChar(c) ==> InAlphabet(d);
        SpaceAfterLetters(UpperChar(c), rest);
      }
    }
  }

  /** What is stripped is a run of padding, and no padding ends the rest. */
  lemma {:induction false} PaddingSplit(s: string) returns (m: nat)
    ensures var t := StripPadding(s);
      s == t + Padding(m) && (t == [] || t[|t| - 1] != '=')
  {
    if s != [] && s[|s| - 1] == '=' {
      m := PaddingSplit(s[..|s| - 1]);
      m := m + 1;
      assert s == s[..|s| - 1] + ['='];
    } else {
      m := 0;
      assert s == s + Padding(0);
    }
  }

  /** Padding survives the stripping exactly when whitespace comes after it. */
  lemma PaddingSurvives(s: string, text: string, k: nat)
    requires StripSpace(s) == text + Padding(k) && AllInAlphabet(text)
    ensures '=' in StripPadding(s) <==> SpaceAfterPadding(s)
  {
    var t := StripPadding(s);
    var m := PaddingSplit(s);
    if SpaceAfterPadding(s) {
      var i, j :| 0 <= i < j < |s| && s[i] == '=' && IsSpace(s[j]);
      assert j < |t| && t[i] == '=';
    } else if '=' in t {
      var init, c := t[..|t| - 1], t[|t| - 1];
      assert t == init + [c] && c != '=';
      var i :| 0 <= i < |t| && t[i] == '=';
      assert s[i] == '=' && s[|t| - 1] == c && i < |t| - 1;
      assert init[i] == '=' && !IsSpace(c);
      StripSpaceConcat(t, Padding(m));
      StripSpaceConcat(init, [c]);
      StripSpaceNone(Padding(m));
      StripSpaceNone([c]);
      StripSpaceKeeps(init, '=');
      AfterPadding(text, k, StripSpace(init), c, m);
      assert false;
    }
  }

  lemma PaddedAt(text: string, k: nat, i: nat)
    requires AllInAlphabet(text) && i < |text| + k
    ensures (text + Padding(k))[i] == '=' <==> |text| <= i
  {
    assert i < |text| ==> text[i] in text;
  }

  /** After padding nothing but padding follows. */
  lemma AfterPadding(text: string, k: nat, a: string, c: char, m: nat)
    requires AllInAlphabet(text) && text + Padding(k) == a + [c] + Padding(m)
    requires '=' in a
    ensures c == '='
  {
    var s := text + Padding(k);
    var i :| 0 <= i < |a| && a[i] == '=';
    assert s[i] == '=' && s[|a|] == c && |s| == |text| + k;
    PaddedAt(text, k, i);
    PaddedAt(text, k, |a|);
  }

  lemma PaddingIsOutside(text: string, k: nat)
    requires AllInAlphabet(text) && k > 0
    ensures !AllInAlphabet(text + Padding(k)) && FirstOutside(text + Padding(k)) == '='
  {
    var s, i := text + Padding(k), |text|;
    assert s[..i] == text && s[i] == '=';
    FirstOutsideAt(s, i);
  }

  /** A text that is an encoding and padding once case and whitespace are put aside,
      wherever that whitespace stands, decodes to the bytes unless whitespace follows
      padding; then decoding throws on the padding. */
  lemma TolerantExactly(bytes: seq<uint8>, s: string, k: nat)
    requires Displays(s, Encode(bytes) + Padding(k))
    ensures Decode(s) == Bytes(bytes) <==> !SpaceAfterPadding(s)
    ensures SpaceAfterPadding(s) ==> Decode(s) == InvalidCharacter('=')
  {
    hide SpaceAfterPadding, HasSpace;
    var u, text := Upper(s), Encode(bytes);
    var t := StripPadding(u);
    var m := PaddingSplit(u);
    SpaceAfterUpper(s);
    PaddingSurvives(u, text, k);
    StripSpaceConcat(t, Padding(m));
    StripSpaceNone(Padding(m));
    assert Clean(s) + Padding(m) == text + Padding(k);
    if '=' in t {
      StripSpaceKeeps(t, '=');
      assert m < k && Clean(s) == text + Padding(k - m) by {
        CutPadding(Clean(s), text, m, k);
      }
      PaddingIsOutside(text, k - m);
    } else {
      assert '=' !in Clean(s) by {
        StripSpaceIn(t, '=');
      }
      CutPadding(Clean(s), text, m, k);
      DecodeOfClean(s, bytes);
    }
  }

  lemma {:induction false} StripSpaceIn(s: string, c: char)
    ensures c in StripSpace(s) ==> c in s
  {
    if s != [] {
      StripSpaceIn(s[1..], c);
    }
  }

  lemma CutPadding(clean: string, text: string, m: nat, k: nat)
    requires AllInAlphabet(text) && clean + Padding(m) == text + Padding(k)
    ensures '=' in clean ==> m < k && clean == text + Padding(k - m)
    ensures '=' !in clean ==> clean == text
  {
    var s := text + Padding(k);
    assert |clean| + m == |text| + k;
    if m > 0 {
      assert s[|clean|] == '=';
      PaddedAt(text, k, |clean|);
    }
    assert clean == s[..|clean|] == text + Padding(|clean| - |text|);
    if |clean| > |text| {
      assert clean[|text|] == '=';
    } else {
      assert clean == text;
    }
  }

  /** In particular, for a display form followed by a run of padding and then by
      whitespace, it is one or the other. */
  lemma TrailingSpaceExactly(bytes: seq<uint8>, t: string, k: nat, w: string)
    requires Displays(t, Encode(bytes))
    requires forall c :: c in w ==> IsSpace(c)
    ensures Decode(t + Padding(k) + w) == Bytes(bytes) <==> k == 0 || w == []
    ensures k > 0 && w != [] ==> Decode(t + Padding(k) + w) == InvalidCharacter('=')
  {
    var s := t + Padding(k) + w;
    Appended(t, Padding(k), Encode(bytes));
    StripSpaceNone(Padding(k));
    Appended(t + Padding(k), w, Encode(bytes) + Padding(k));
    SpaceStripsToNothing(w);
    TolerantExactly(bytes, s, k);
    NoPaddingShown(t, Encode(bytes));
    SpaceAfterRun(t, k, w);
  }

  lemma SpaceAfterRun(t: string, k: nat, w: string)
    requires '=' !in t && forall c :: c in w ==> IsSpace(c)
    ensures SpaceAfterPadding(t + Padding(k) + w) <==> k > 0 && w != []
  {
    var s, n := t + Padding(k) + w, |t| + k;
    assert forall i :: 0 <= i < |s| && s[i] == '=' ==> |t| <= i < n by {
      assert forall i :: 0 <= i < |t| ==> t[i] in t;
      assert forall i :: n <= i < |s| ==> s[i] == w[i - n] && w[i - n] in w;
    }
    if k > 0 && w != [] {
      assert s[|t|] == '=' && s[n] == w[0] && IsSpace(w[0]);
    }
  }

  /** Padding and whitespace have no case. */
  lemma Appended(t: string, w: string, text: string)
    requires Displays(t, text)
    requires forall c :: c in w ==> c == '=' || IsSpace(c)
    ensures Displays(t + w, text + StripSpace(w))
  {
    UpperConcat(t, w);
    UpperUnchanged(w);
    StripSpaceConcat(Upper(t), w);
  }

  lemma NoPaddingShown(t: string, text: string)
    requires Displays(t, text) && AllInAlphabet(text)
    ensures '=' !in t
  {
    if i :| 0 <= i < |t| && t[i] == '=' {
      UpperKeepsPadding(t, i);
      StripSpaceKeeps(Upper(t), '=');
      assert false;
    }
  }

  lemma {:induction false} UpperKeepsPadding(t: string, i: nat)
    requires i < |t| && t[i] == '='
    ensures '=' in Upper(t)
  {
    if i == 0 {
      assert Upper(t)[0] == '=';
    } else {
      UpperKeepsPadding(t[1..], i - 1);
    }
  }

  /** The one byte 97 in a padded form, and in the same form grouped by four. */
  lemma GroupedPaddingThrows()
    ensures Decode("ME======") == Bytes([97])
    ensures Decode("ME== ====") == InvalidCharacter('=')
  {
    hide Decode, Encode, StripSpace, Upper;
    OneByte();
    UpperUnchanged("ME");
    StripSpaceNone("ME");
    assert Displays("ME", "ME");
    TrailingSpaceExactly([97], "ME", 6, "");
    GroupedByFour();
    assert "ME" + Padding(6) == "ME======" == "ME" + Padding(6) + "";
    TolerantExactly([97], "ME== ====", 6);
    assert "ME== ===="[2] == '=' && IsSpace("ME== ===="[4]);
  }

  lemma GroupedByFour()
    ensures Displays("ME== ====", "ME" + Padding(6))
  {
    hide StripSpace, Upper;
    UpperUnchanged("ME==");
    StripSpaceNone("ME==");
    assert Displays("ME==", "ME==");
    SpaceStripsToNothing(" ");
    Appended("ME==", " ", "ME==");
    assert "ME==" + " " == "ME== " && "ME==" + [] == "ME==";
    StripSpaceNone("====");
    Appended("ME== ", "====", "ME==");
    assert "ME== " + "====" == "ME== ====";
    assert "ME==" + "====" == "ME" + Padding(6);
  }

  lemma OneByte()
    ensures Encode([97]) == "ME"
  {
    var bits := [false, true, true, false, false, false, false, true];
    assert ByteBits([97]) == bits by {
      assert [97][1..] == [] && ByteBits([]) == [];
      OneByteBits();
    }
    var high, low := [false, true, true, false, false], [false, false, true, false, false];
    assert bits[..5] == high && bits[5..] + Zeros(2) == low;
    ValueOfFive(high);
    ValueOfFive(low);
    assert EncodeBits(bits[5..]) == [Char(DigitOf(low))];
  }

  lemma OneByteBits()
    ensures LowBits(97, 8) == [false, true, true, false, false, false, false, true]
  {
    assert LowBits(6, 4) == [false, true, true, false];
  }

  lemma ValueOfFive(s: seq<bool>)
    requires |s| == 5
    ensures DigitOf(s) == (if s[0] then 16 else 0) + (if s[1] then 8 else 0) + (if s[2] then 4 else 0)
                          + (if s[3] then 2 else 0) + (if s[4] then 1 else 0)
  {
    var t := s[..4];
    assert t[..3] == s[..3] && s[..3][..2] == s[..2] && s[..2][..1] == s[..1] && s[..1][..0] == [];
    assert Value(s) == 2 * Value(t) + (if s[4] then 1 else 0);
    assert Value(t) == 2 * Value(s[..3]) + (if s[3] then 1 else 0);
    assert Value(s[..3]) == 2 * Value(s[..2]) + (if s[2] then 1 else 0);
    assert Value(s[..2]) == 2 * Value(s[..1]) + (if s[1] then 1 else 0);
  }

  lemma {:induction false} SpaceStripsToNothing(w: string)
    requires forall c :: c in w ==> IsSpace(c)
    ensures StripSpace(w) == []
  {
    if w != [] {
      SpaceStripsToNothing(w[1..]);
    }
  }
}
