/** The program of the Base32 codec. The encoder and the decoder share one 32-bit
    accumulator that is never masked; the reference they are proved against regroups a
    bit string and has no accumulator at all. */
module Base32Codec {
  import opened Base32
  import opened Bits

  method Base32Encode(buf: seq<uint8>) returns (output: string)
    ensures output == Encode(buf)
  {
    hide Shl, ShrU, And, Or, LowBits, EncodeBits, Owed;
    var bits: nat, value: uint32 := 0, 0;
    output := "";
    assert buf[0..] == buf;
    OwedAll(ByteBits(buf));
    for i := 0 to |buf|
      invariant bits < 5
      invariant Owed(output, value, bits, ByteBits(buf[i..])) == Encode(buf)
    {
      assert buf[i..][0] == buf[i] && buf[i..][1..] == buf[i + 1..];
      OwedByte(output, value, bits, buf[i..]);
      value := Or(Shl(value, 8), buf[i]);
      bits := bits + 8;
      while bits >= 5
        invariant bits < 13
        invariant Owed(output, value, bits, ByteBits(buf[i + 1..])) == Encode(buf)
      {
        OwedDigit(output, value, bits, ByteBits(buf[i + 1..]));
        output := output + [Char(And(ShrU(value, bits - 5), 31))];
        bits := bits - 5;
      }
    }
    OwedLast(output, value, bits);
    if bits > 0 {
      output := output + [Char(And(Shl(value, 5 - bits), 31))];
    }
  }

  /** The characters the encoder has out, followed by those its pending bits and
      the remaining bits stand for. */
  ghost function Owed(output: string, value: nat, bits: nat, rest: seq<bool>): string {
    output + EncodeBits(LowBits(value, bits) + rest)
  }

  lemma OwedAll(bits: seq<bool>)
    ensures Owed("", 0, 0, bits) == EncodeBits(bits)
  {
    assert LowBits(0, 0) + bits == bits;
  }

  lemma OwedByte(output: string, value: uint32, bits: nat, buf: seq<uint8>)
    requires bits < 5 && buf != []
    ensures Or(Shl(value, 8), buf[0]) < TWO_32
    ensures Owed(output, value, bits, ByteBits(buf))
         == Owed(output, Or(Shl(value, 8), buf[0]), bits + 8, ByteBits(buf[1..]))
  {
    hide Shl, Or, LowBits, EncodeBits;
    ShiftInByte(value, buf[0], bits);
    Associates(LowBits(value, bits), LowBits(buf[0], 8), ByteBits(buf[1..]));
  }

  lemma Associates(a: seq<bool>, b: seq<bool>, c: seq<bool>)
    ensures a + (b + c) == a + b + c
  {
  }

  lemma OwedDigit(output: string, value: uint32, bits: nat, rest: seq<bool>)
    requires 5 <= bits < 13
    ensures 0 <= And(ShrU(value, bits - 5), 31) < 32
    ensures Owed(output, value, bits, rest)
         == Owed(output + [Char(And(ShrU(value, bits - 5), 31))], value, bits - 5, rest)
  {
    hide ShrU, And, LowBits, EncodeBits;
    EmitDigit(value, bits, rest);
  }

  lemma OwedLast(output: string, value: uint32, bits: nat)
    requires bits < 5
    ensures bits > 0 ==> 0 <= And(Shl(value, 5 - bits), 31) < 32
    ensures Owed(output, value, bits, [])
         == if bits == 0 then output else output + [Char(And(Shl(value, 5 - bits), 31))]
  {
    hide Shl, And, LowBits;
    assert LowBits(value, bits) + [] == LowBits(value, bits);
    if bits > 0 {
      FlushDigit(value, bits);
    }
  }

  method Base32Decode(s: string) returns (r: Decoded)
    ensures r == Decode(s)
  {
    hide LowBits, Shl, ShrU, And, Or, DecodeBits, Clean, IndexOf;
    var clean := Clean(s);
    var bits: nat, value: uint32, bytes: seq<uint8> := 0, 0, [];
    assert clean[0..] == clean;
    if AllInAlphabet(clean) {
      PendingAll(clean);
    }
    for i := 0 to |clean|
      invariant bits < 8
      invariant AllInAlphabet(clean[..i])
      invariant AllInAlphabet(clean) ==> Pending(bytes, value, bits, clean[i..]) == DecodeBits(TextBits(clean))
    {
      var idx := IndexOf(clean[i]);
      if idx == -1 {
        FirstOutsideAt(clean, i);
        return InvalidCharacter(clean[i]);
      }
      assert clean[..i + 1] == clean[..i] + [clean[i]];
      assert clean[i..][1..] == clean[i + 1..];
      ShiftInDigit(value, idx, bits);
      if AllInAlphabet(clean) {
        PendingDigit(bytes, value, bits, clean[i..]);
      }
      value := Or(Shl(value, 5), idx);
      bits := bits + 5;
      if bits >= 8 {
        EmitByte(value, bits);
        if AllInAlphabet(clean) {
          PendingByte(bytes, value, bits, clean[i + 1..]);
        }
        bytes := bytes + [And(ShrU(value, bits - 8), 255)];
        bits := bits - 8;
      }
    }
    assert clean[..|clean|] == clean;
    PendingNone(bytes, value, bits);
    r := Bytes(bytes);
  }

  /** The bytes the decoder has out, followed by those its pending bits and the
      remaining text stand for. */
  ghost function Pending(bytes: seq<uint8>, value: nat, bits: nat, rest: string): seq<uint8>
    requires AllInAlphabet(rest)
  {
    bytes + DecodeBits(LowBits(value, bits) + TextBits(rest))
  }

  lemma PendingAll(text: string)
    requires AllInAlphabet(text)
    ensures Pending([], 0, 0, text) == DecodeBits(TextBits(text))
  {
    assert LowBits(0, 0) + TextBits(text) == TextBits(text);
  }

  lemma PendingNone(bytes: seq<uint8>, value: nat, bits: nat)
    requires bits < 8
    ensures Pending(bytes, value, bits, "") == bytes
  {
  }

  lemma PendingDigit(bytes: seq<uint8>, value: uint32, bits: nat, text: string)
    requires bits < 8 && text != [] && AllInAlphabet(text)
    ensures Pending(bytes, value, bits, text)
         == Pending(bytes, Or(Shl(value, 5), IndexOf(text[0])), bits + 5, text[1..])
  {
    hide LowBits, Shl, Or, DecodeBits, IndexOf;
    var idx, rest := IndexOf(text[0]), TextBits(text[1..]);
    ShiftInDigit(value, idx, bits);
    Associates(LowBits(value, bits), LowBits(idx, 5), rest);
  }

  lemma PendingByte(bytes: seq<uint8>, value: uint32, bits: nat, rest: string)
    requires 8 <= bits < 13 && AllInAlphabet(rest)
    ensures 0 <= And(ShrU(value, bits - 8), 255) < 256
    ensures Pending(bytes, value, bits, rest)
         == Pending(bytes + [And(ShrU(value, bits - 8), 255)], value, bits - 8, rest)
  {
    EmitByte(value, bits);
    DecodeBitsStep(LowBits(value, bits), TextBits(rest));
  }

  lemma ShiftInByte(value: uint32, byte: uint8, bits: nat)
    requires bits < 5
    ensures Or(Shl(value, 8), byte) < TWO_32
    ensures LowBits(Or(Shl(value, 8), byte), bits + 8) == LowBits(value, bits) + LowBits(byte, 8)
  {
    PowValues();
    ShiftIn(value, byte, bits, 8);
  }

  lemma ShiftInDigit(value: uint32, idx: digit, bits: nat)
    requires bits < 8
    ensures Or(Shl(value, 5), idx) < TWO_32
    ensures LowBits(Or(Shl(value, 5), idx), bits + 5) == LowBits(value, bits) + LowBits(idx, 5)
  {
    PowValues();
    ShiftIn(value, idx, bits, 5);
  }

  /** `(value >>> (bits - k)) & (2^k - 1)` is the oldest `k` of the pending bits. */
  lemma TopBits(value: uint32, bits: nat, k: nat)
    requires k <= bits
    ensures And(ShrU(value, bits - k), Pow2(k) - 1) == Value(LowBits(value, bits)[..k])
    ensures LowBits(value, bits)[k..] == LowBits(value, bits - k)
  {
    var v := ShrU(value, bits - k);
    AndMask(v, k);
    ValueOfLowBits(v, k);
    LowBitsShift(value, k, bits - k);
    LowBitsDrop(value, k, bits - k);
  }

  lemma EmitDigit(value: uint32, bits: nat, rest: seq<bool>)
    requires 5 <= bits < 13
    ensures 0 <= And(ShrU(value, bits - 5), 31) < 32
    ensures EncodeBits(LowBits(value, bits) + rest)
         == [Char(And(ShrU(value, bits - 5), 31))] + EncodeBits(LowBits(value, bits - 5) + rest)
  {
    var low := LowBits(value, bits);
    TopBits(value, bits, 5);
    PowValues();
    assert (low + rest)[..5] == low[..5];
    assert (low + rest)[5..] == low[5..] + rest;
    LowBitsOfValue(low[..5]);
  }

  lemma FlushDigit(value: uint32, bits: nat)
    requires 0 < bits < 5
    ensures 0 <= And(Shl(value, 5 - bits), 31) < 32
    ensures EncodeBits(LowBits(value, bits)) == [Char(And(Shl(value, 5 - bits), 31))]
  {
    hide LowBits, Shl, And, Or;
    var k := 5 - bits;
    var v := Shl(value, k);
    PowValues();
    AndMask(v, 5);
    ValueOfLowBits(v, 5);
    OrZero(v);
    ShiftIn(value, 0, bits, k);
    LowBitsZero(k);
    var low := LowBits(value, bits);
    assert LowBits(v, 5) == low + Zeros(k);
    LowBitsOfValue(low + Zeros(k));
  }

  lemma {:induction false} LowBitsZero(k: nat)
    ensures LowBits(0, k) == Zeros(k)
  {
    if k > 0 {
      LowBitsZero(k - 1);
    }
  }

  lemma EmitByte(value: uint32, bits: nat)
    requires 8 <= bits < 13
    ensures 0 <= And(ShrU(value, bits - 8), 255) < 256
    ensures And(ShrU(value, bits - 8), 255) == ByteOf(LowBits(value, bits)[..8])
    ensures LowBits(value, bits)[8..] == LowBits(value, bits - 8)
  {
    TopBits(value, bits, 8);
    PowValues();
    LowBitsOfValue(LowBits(value, bits)[..8]);
  }
}
