/** Conversions between characters, carrier bytes and bit strings. A carrier
    byte is held by `lsb_steg.py` as its 8-character '0'/'1' string; here it
    is its value 0..255. A bit string is a sequence of 0/1 values. */
module Bits {
  import opened Chunking

  /** One channel byte of the carrier. */
  type Byte = b: int | 0 <= b < 256
  /** A text character, by its code point; only code points below 256 are modelled. */
  type Char = Byte
  type Bit = b: int | 0 <= b < 2

  function Pow2(w: nat): (p: nat)
    ensures p > 0
  {
    if w == 0 then 1 else 2 * Pow2(w - 1)
  }

  lemma {:induction false} Pow2Monotone(a: nat, b: nat)
    requires a <= b
    ensures Pow2(a) <= Pow2(b)
    decreases b
  {
    if a < b {
      Pow2Monotone(a, b - 1);
    }
  }

  /** `int(bits, 2)`: the value of a bit string read most significant bit first. */
  function BitsValue(bits: seq<Bit>): (v: nat)
    ensures v < Pow2(|bits|)
  {
    if bits == [] then 0 else 2 * BitsValue(bits[..|bits| - 1]) + bits[|bits| - 1]
  }

  /** `format(v, '0<w>b')`: the w-bit binary form of v, most significant bit first. */
  function ToBinary(v: nat, w: nat): (r: seq<Bit>)
    ensures |r| == w
  {
    if w == 0 then [] else ToBinary(v / 2, w - 1) + [v % 2]
  }

  /** A string of zero bits has value 0. */
  lemma {:induction false} ZeroBitsValue(bits: seq<Bit>)
    requires forall i :: 0 <= i < |bits| ==> bits[i] == 0
    ensures BitsValue(bits) == 0
  {
    if bits != [] {
      ZeroBitsValue(bits[..|bits| - 1]);
    }
  }

  /** Reading back the binary form of a value that fits gives the value. */
  lemma {:induction false} ValueOfBinary(v: nat, w: nat)
    requires v < Pow2(w)
    ensures BitsValue(ToBinary(v, w)) == v
  {
    if w > 0 {
      ValueOfBinary(v / 2, w - 1);
      var r := ToBinary(v, w);
      assert r[..w - 1] == ToBinary(v / 2, w - 1);
    }
  }

  /** Writing out the value of a bit string at its own width gives the bit string. */
  lemma {:induction false} BinaryOfValue(bits: seq<Bit>)
    ensures ToBinary(BitsValue(bits), |bits|) == bits
  {
    if bits != [] {
      var n := |bits|;
      BinaryOfValue(bits[..n - 1]);
      assert bits == bits[..n - 1] + [bits[n - 1]];
    }
  }

  /** `format(ord(c), '08b')` for a character below 256: exactly eight bits that read back as c. */
  function CharBits(c: Char): (r: seq<Bit>)
    ensures |r| == 8 && BitsValue(r) == c
  {
    assert Pow2(8) == 256;
    ValueOfBinary(c, 8);
    ToBinary(c, 8)
  }

  /** `''.join([format(ord(c), '08b') for c in text])`: eight bits per character, in order. */
  function ToBits(text: seq<Char>): (r: seq<Bit>)
    ensures |r| == 8 * |text|
  {
    if text == [] then [] else CharBits(text[0]) + ToBits(text[1..])
  }

  /** Bits 8k..8k+7 of the bit string are character k's binary form. */
  lemma {:induction false} ToBitsAt(text: seq<Char>, k: nat)
    requires k < |text|
    ensures ToBits(text)[8 * k .. 8 * k + 8] == CharBits(text[k])
  {
    if k > 0 {
      ToBitsAt(text[1..], k - 1);
      assert ToBits(text)[8 * k .. 8 * k + 8] == ToBits(text[1..])[8 * (k - 1) .. 8 * (k - 1) + 8];
    }
  }

  lemma {:induction false} ToBitsAppend(a: seq<Char>, b: seq<Char>)
    ensures ToBits(a + b) == ToBits(a) + ToBits(b)
  {
    if a == [] {
      assert a + b == b;
    } else {
      var ab := a + b;
      assert ab[0] == a[0] && ab[1..] == a[1..] + b;
      ToBitsAppend(a[1..], b);
      calc {
        ToBits(ab);
        CharBits(a[0]) + ToBits(a[1..] + b);
        CharBits(a[0]) + (ToBits(a[1..]) + ToBits(b));
        (CharBits(a[0]) + ToBits(a[1..])) + ToBits(b);
      }
    }
  }

  /** `chr(int(chunk, 2))` for a chunk of at most eight bits. */
  function ChunkValue(chunk: seq<Bit>): (c: Char)
    requires |chunk| <= 8
  {
    Pow2Monotone(|chunk|, 8);
    assert Pow2(8) == 256;
    BitsValue(chunk)
  }

  /** Regroups a bit string eight bits at a time into characters; a trailing
      group shorter than eight bits is converted too, not dropped. */
  function FromBits(bits: seq<Bit>): (text: seq<Char>)
    ensures |text| == (|bits| + 7) / 8
  {
    var chunks := Chunks(bits, 8);
    seq(|chunks|, k requires 0 <= k < |chunks| => ChunkValue(chunks[k]))
  }

  /** Character k is the value of bits 8k..8k+7, or of the shorter trailing group. */
  lemma FromBitsAt(bits: seq<Bit>, k: nat)
    requires k < |FromBits(bits)|
    ensures 8 * k < |bits| && FromBits(bits)[k] == BitsValue(bits[8 * k .. Min(8 * k + 8, |bits|)])
  {
    var chunks := Chunks(bits, 8);
    ChunkAt(bits, 8, k);
    assert FromBits(bits)[k] == ChunkValue(chunks[k]) == BitsValue(chunks[k]);
  }

  /** Regrouping undoes bit-packing: characters below 256 survive the trip. */
  lemma FromBitsToBits(text: seq<Char>)
    ensures FromBits(ToBits(text)) == text
  {
    var r := FromBits(ToBits(text));
    forall k | 0 <= k < |text| ensures r[k] == text[k] {
      ToBitsAt(text, k);
      FromBitsAt(ToBits(text), k);
    }
  }

  /** Bit-packing undoes regrouping when the bit string is a whole number of characters. */
  lemma ToBitsFromBits(bits: seq<Bit>)
    requires |bits| % 8 == 0
    ensures ToBits(FromBits(bits)) == bits
  {
    forall i | 0 <= i < |bits| ensures ToBits(FromBits(bits))[i] == bits[i] {
      ToBitsFromBitsAt(bits, i);
    }
  }

  lemma ToBitsFromBitsAt(bits: seq<Bit>, i: nat)
    requires |bits| % 8 == 0 && i < |bits|
    ensures |ToBits(FromBits(bits))| == |bits| && ToBits(FromBits(bits))[i] == bits[i]
  {
    var t := FromBits(bits);
    var r := ToBits(t);
    var k := i / 8;
    assert |bits| == 8 * |t|;
    assert 8 * k <= i < 8 * k + 8 <= |bits|;
    var chunk := bits[8 * k .. 8 * k + 8];
    FromBitsAt(bits, k);
    assert t[k] == BitsValue(chunk);
    ToBitsAt(t, k);
    BinaryOfValue(chunk);
    assert r[8 * k .. 8 * k + 8] == chunk;
    assert r[i] == chunk[i - 8 * k];
  }
}
