/** The least-significant-bit codec: a message is framed by "[START]" and
    "[END]", packed eight bits per character, and written into the lowest bit
    of the carrier's channel bytes; decoding reads those bits back, regroups
    them into characters and searches the text for the framed message. */
module LsbSteg {
  import opened Wrappers
  import opened Chunking
  import opened Bits
  import opened Pattern

  /** `f"{START}{msg}{END}"`. */
  function Frame(msg: seq<Char>): (framed: seq<Char>)
    ensures |framed| == |msg| + 12
    ensures framed[..7] == START && framed[7 .. |msg| + 7] == msg && framed[|msg| + 7 ..] == END
  {
    START + msg + END
  }

  /** `msg_bits`: the framed message, eight bits per character, most significant bit first. */
  function FramedBits(msg: seq<Char>): (bits: seq<Bit>)
  {
    ToBits(Frame(msg))
  }

  /** The framed bit string is the binary forms of "[START]", the message and
      "[END]" in a row, and holds exactly 8 * (|msg| + 12) bits. */
  lemma FramedBitsLayout(msg: seq<Char>)
    ensures |FramedBits(msg)| == 8 * (|msg| + 12)
    ensures FramedBits(msg) == ToBits(START) + ToBits(msg) + ToBits(END)
  {
    ToBitsAppend(START + msg, END);
    ToBitsAppend(START, msg);
  }

  /** `byte[:-1] + bit`: the byte with its lowest bit replaced. */
  function SetLsb(b: Byte, bit: Bit): (r: Byte)
    ensures r % 2 == bit && r / 2 == b / 2
    ensures -1 <= r as int - b as int <= 1
  {
    b - b % 2 + bit
  }

  /** The carrier as the write loop leaves it: byte i takes bit i as its lowest
      bit for every i < |bits| - 1 (the loop stops one bit short), and every
      other byte is left as it was. */
  function Embed(carrier: seq<Byte>, bits: seq<Bit>): (r: seq<Byte>)
    ensures |r| == |carrier|
    ensures forall i :: 0 <= i < |r| && i < |bits| - 1 ==> r[i] % 2 == bits[i] && r[i] / 2 == carrier[i] / 2
    ensures forall i :: 0 <= i < |r| && i < |bits| - 1 ==> -1 <= r[i] as int - carrier[i] as int <= 1
    ensures forall i :: 0 <= i < |r| && |bits| - 1 <= i ==> r[i] == carrier[i]
  {
    seq(|carrier|, i requires 0 <= i < |carrier| =>
      if i < |bits| - 1 then SetLsb(carrier[i], bits[i]) else carrier[i])
  }

  /** `[num_array[i:i+3] for i in range(0, len(num_array), 3)]`: the bytes cut into RGB triples. */
  function Pixels(bytes: seq<Byte>): (grid: seq<seq<Byte>>)
    ensures Flatten(grid) == bytes
    ensures |bytes| % 3 == 0 ==> |grid| == |bytes| / 3 && forall k :: 0 <= k < |grid| ==> |grid[k]| == 3
  {
    FlattenChunks(bytes, 3);
    var grid := Chunks(bytes, 3);
    forall k | 0 <= k < |grid| ensures 3 * k < |bytes| && grid[k] == bytes[3 * k .. Min(3 * k + 3, |bytes|)] {
      ChunkAt(bytes, 3, k);
    }
    grid
  }

  /** `lsb_encode`: returns None (where `lsb_encode` returns False) and leaves the carrier
      alone when the framed message has more bits than the carrier has bytes;
      otherwise rewrites the carrier in place as `Embed` describes and returns
      it cut into pixels. */
  method Encode(img: array<Byte>, msg: seq<Char>) returns (grid: Option<seq<seq<Byte>>>)
    modifies img
    ensures grid.None? <==> 8 * (|msg| + 12) > img.Length
    ensures grid.None? ==> img[..] == old(img[..])
    ensures grid.Some? ==> img[..] == Embed(old(img[..]), FramedBits(msg)) && grid.value == Pixels(img[..])
  {
    var bits := FramedBits(msg);
    FramedBitsLayout(msg);
    if |bits| > img.Length {
      return None;
    }
    var index := 0;
    while index < |bits| - 1
      invariant 0 <= index <= |bits| - 1
      invariant forall j :: 0 <= j < index ==> img[j] == SetLsb(old(img[j]), bits[j])
      invariant forall j :: index <= j < img.Length ==> img[j] == old(img[j])
    {
      img[index] := SetLsb(img[index], bits[index]);
      index := index + 1;
    }
    assert img[..] == Embed(old(img[..]), bits);
    grid := Some(Pixels(img[..]));
  }

  /** `''.join([byte[-1] for byte in img_bytes])`: the lowest bit of every byte, in order. */
  function Lsbs(bytes: seq<Byte>): (bits: seq<Bit>)
    ensures |bits| == |bytes|
    ensures forall i {:trigger bits[i]} :: 0 <= i < |bytes| ==> bits[i] == bytes[i] % 2
  {
    seq(|bytes|, i requires 0 <= i < |bytes| => bytes[i] % 2)
  }

  /** `extracted_text`: ceil(|bytes| / 8) characters, one per group of eight bytes. */
  function ExtractText(bytes: seq<Byte>): (text: seq<Char>)
    ensures |text| == (|bytes| + 7) / 8
  {
    FromBits(Lsbs(bytes))
  }

  /** Character k of the extracted text is the value of the lowest bits of
      bytes 8k..8k+7 read most significant first; a trailing group of fewer
      than eight bytes still yields a character. */
  lemma ExtractedCharAt(bytes: seq<Byte>, k: nat)
    requires k < |ExtractText(bytes)|
    ensures 8 * k < |bytes|
    ensures ExtractText(bytes)[k] == BitsValue(Lsbs(bytes[8 * k .. Min(8 * k + 8, |bytes|)]))
  {
    FromBitsAt(Lsbs(bytes), k);
    var hi := Min(8 * k + 8, |bytes|);
    var group := bytes[8 * k .. hi];
    assert forall i :: 0 <= i < |group| ==> Lsbs(bytes)[8 * k .. hi][i] == Lsbs(group)[i];
    assert Lsbs(bytes)[8 * k .. hi] == Lsbs(group);
  }

  /** `lsb_decode`: the message between the sentinels of the extracted text,
      or None (where `lsb_decode` returns False) when the pattern does not match. */
  function Decode(bytes: seq<Byte>): (r: Option<seq<Char>>)
    ensures r.None? <==> forall p: nat, k: nat :: !Delimits(ExtractText(bytes), p, k)
    ensures forall p: nat, k: nat :: IsMatch(ExtractText(bytes), p, k) ==> r == Some(ExtractText(bytes)[p + |START| .. k])
    ensures r.Some? ==> |r.value| > 0 && NEWLINE !in r.value
  {
    Search(ExtractText(bytes))
  }

  /** Extraction works a character (eight bytes) at a time, so it distributes
      over a split at a multiple of eight. */
  lemma ExtractTextAppend(a: seq<Byte>, b: seq<Byte>, m: nat)
    requires |a| == 8 * m
    ensures ExtractText(a + b) == ExtractText(a) + ExtractText(b)
  {
    var t, ta, tb := ExtractText(a + b), ExtractText(a), ExtractText(b);
    assert |t| == |ta| + |tb|;
    forall k | 0 <= k < |t| ensures t[k] == (ta + tb)[k] {
      if k < m {
        ExtractTextAppendLeft(a, b, m, k);
      } else {
        ExtractTextAppendRight(a, b, m, k - m);
      }
    }
  }

  lemma ExtractTextAppendLeft(a: seq<Byte>, b: seq<Byte>, m: nat, k: nat)
    requires |a| == 8 * m && k < m
    ensures k < |ExtractText(a + b)| && k < |ExtractText(a)|
    ensures ExtractText(a + b)[k] == ExtractText(a)[k]
  {
    ExtractedCharAt(a + b, k);
    ExtractedCharAt(a, k);
    assert Min(8 * k + 8, |a + b|) == 8 * k + 8 == Min(8 * k + 8, |a|);
    SliceOfLeft(a, b, 8 * k, 8 * k + 8);
  }

  lemma ExtractTextAppendRight(a: seq<Byte>, b: seq<Byte>, m: nat, j: nat)
    requires |a| == 8 * m && j < |ExtractText(b)|
    ensures m + j < |ExtractText(a + b)|
    ensures ExtractText(a + b)[m + j] == ExtractText(b)[j]
  {
    ExtractedCharAt(b, j);
    ExtractedCharAt(a + b, m + j);
    assert Min(8 * (m + j) + 8, |a + b|) == |a| + Min(8 * j + 8, |b|);
    SliceOfRight(a, b, 8 * j, Min(8 * j + 8, |b|));
  }

  /** The bits of "[START]msg[END" followed by the eight bits of ']', whose lowest bit is 1. */
  lemma FramedBitsSplit(msg: seq<Char>)
    ensures FramedBits(msg) == ToBits(Frame(msg)[.. |msg| + 11]) + CharBits(']' as int)
    ensures CharBits(']' as int)[7] == 1 && BitsValue(CharBits(']' as int)[..7]) == 0x2E
  {
    var head := Frame(msg)[.. |msg| + 11];
    var close := CharBits(']' as int);
    assert Frame(msg) == head + [']' as int];
    ToBitsAppend(head, [']' as int]);
    assert ToBits([']' as int]) == close;
    assert close == ToBinary(']' as int / 2, 7) + [1];
    assert close == close[..7] + [close[7]];
  }

  /** The bytes the loop writes before the last framed character read back as "[START]msg[END". */
  lemma WrittenHeadText(carrier: seq<Byte>, msg: seq<Char>)
    requires 8 * (|msg| + 12) <= |carrier|
    ensures var n := 8 * (|msg| + 12);
      ExtractText(Embed(carrier, FramedBits(msg))[.. n - 8]) == Frame(msg)[.. |msg| + 11]
  {
    var n := 8 * (|msg| + 12);
    var e := Embed(carrier, FramedBits(msg));
    var head := Frame(msg)[.. |msg| + 11];
    FramedBitsSplit(msg);
    assert Lsbs(e[.. n - 8]) == ToBits(head);
    FromBitsToBits(head);
  }

  /** The last framed character: seven written bits of ']' and the carrier's own lowest bit. */
  lemma LastCharText(carrier: seq<Byte>, msg: seq<Char>)
    requires 8 * (|msg| + 12) <= |carrier|
    ensures var n := 8 * (|msg| + 12);
      ExtractText(Embed(carrier, FramedBits(msg))[n - 8 .. n]) == [0x5C + carrier[n - 1] % 2]
  {
    var n := 8 * (|msg| + 12);
    var e := Embed(carrier, FramedBits(msg));
    var close := CharBits(']' as int);
    FramedBitsSplit(msg);
    var last := Lsbs(e[n - 8 .. n]);
    assert last == close[..7] + [carrier[n - 1] % 2];
    assert last[..7] == close[..7];
    ExtractedCharAt(e[n - 8 .. n], 0);
    assert e[n - 8 .. n][0 .. 8] == e[n - 8 .. n];
  }

  /** The text a successful `Encode` leaves in the carrier: the framed message
      up to its final ']', then 0x5C or 0x5D (']') according to the lowest bit
      the carrier already had at byte 8 * (|msg| + 12) - 1, which the loop never
      writes, then whatever the rest of the carrier decodes to. */
  lemma EncodedText(carrier: seq<Byte>, msg: seq<Char>)
    requires 8 * (|msg| + 12) <= |carrier|
    ensures var n := 8 * (|msg| + 12);
      ExtractText(Embed(carrier, FramedBits(msg)))
        == Frame(msg)[.. |msg| + 11] + [0x5C + carrier[n - 1] % 2] + ExtractText(carrier[n..])
  {
    var n := 8 * (|msg| + 12);
    var e := Embed(carrier, FramedBits(msg));
    FramedBitsLayout(msg);
    var head, last, tail := e[.. n - 8], e[n - 8 .. n], e[n..];
    SplitThree(e, n - 8, n);
    EmbedLeavesRest(carrier, FramedBits(msg), n);
    ExtractTextAppend(head + last, tail, |msg| + 12);
    ExtractTextAppend(head, last, |msg| + 11);
    WrittenHeadText(carrier, msg);
    LastCharText(carrier, msg);
  }

  /** The loop leaves every byte from index |bits| - 1 on as it was. */
  lemma EmbedLeavesRest(carrier: seq<Byte>, bits: seq<Bit>, n: nat)
    requires |bits| - 1 <= n <= |carrier|
    ensures Embed(carrier, bits)[n..] == carrier[n..]
  {
  }

  /** No "[END]" starts in `rest` before its first newline. */
  ghost predicate NoEndBeforeNewline(rest: seq<Char>)
  {
    forall j: nat :: IsAt(rest, END, j) ==> NEWLINE in rest[..j]
  }

  /** The search finds a non-empty, newline-free message in its own frame,
      whatever follows, as long as what follows does not complete a longer
      match by an "[END]" before its first newline. Sentinels inside the
      message do not disturb it: the frame's "[START]" is leftmost and the
      greedy capture runs to the frame's "[END]". */
  lemma SearchFramed(msg: seq<Char>, rest: seq<Char>)
    requires |msg| > 0 && NEWLINE !in msg
    requires NoEndBeforeNewline(rest)
    ensures Search(Frame(msg) + rest) == Some(msg)
  {
    var text := Frame(msg) + rest;
    var f := |msg| + 12;
    var close := f - 5;
    assert text[..f] == Frame(msg);
    assert text[0 .. 7] == START;
    assert text[close .. f] == END;
    assert text[7 .. close] == msg;
    assert Delimits(text, 0, close);
    // no "[END]" starts inside the frame's own "[END]" after its '['
    forall k: nat | close < k < f ensures !IsAt(text, END, k) {
      assert text[k] == END[k - close] != '[' as int;
      if k + 5 <= |text| {
        assert text[k .. k + 5][0] == text[k];
      }
    }
    // an "[END]" in the rest is preceded by a newline there
    forall k: nat | f <= k && IsAt(text, END, k) ensures NEWLINE in text[7 .. k] {
      var j := k - f;
      assert text[k .. k + 5] == rest[j .. j + 5];
      assert rest[..j] == text[7 .. k][f - 7 ..];
    }
    assert IsMatch(text, 0, close);
  }

  /** Round trip: `Decode` gives the message back after a successful `Encode`
      when the message is non-empty and newline-free, the carrier byte whose
      lowest bit the loop skips already has lowest bit 1, and the text the
      rest of the carrier decodes to has no "[END]" before its first newline. */
  lemma RoundTrip(carrier: seq<Byte>, msg: seq<Char>)
    requires |msg| > 0 && NEWLINE !in msg
    requires 8 * (|msg| + 12) <= |carrier|
    requires carrier[8 * (|msg| + 12) - 1] % 2 == 1
    requires NoEndBeforeNewline(ExtractText(carrier[8 * (|msg| + 12)..]))
    ensures Decode(Embed(carrier, FramedBits(msg))) == Some(msg)
  {
    var n := 8 * (|msg| + 12);
    EncodedText(carrier, msg);
    assert Frame(msg)[.. |msg| + 11] + [0x5D] == Frame(msg);
    SearchFramed(msg, ExtractText(carrier[n..]));
  }

  /** When the skipped carrier byte has lowest bit 0, the frame's final ']'
      (0x5D) comes back as a backslash (0x5C). */
  lemma ClosingBracketLost(carrier: seq<Byte>, msg: seq<Char>)
    requires 8 * (|msg| + 12) <= |carrier|
    requires carrier[8 * (|msg| + 12) - 1] % 2 == 0
    ensures ExtractText(Embed(carrier, FramedBits(msg)))[|msg| + 11] == '\\' as int
  {
    EncodedText(carrier, msg);
  }

  /** Sixteen bytes 0xFE decode to two NUL characters. */
  lemma ZeroLsbText()
    ensures ExtractText(seq(16, _ => 0xFE)) == [0, 0]
  {
    var bytes: seq<Byte> := seq(16, _ => 0xFE);
    forall k | 0 <= k < 2 ensures ExtractText(bytes)[k] == 0 {
      ExtractedCharAt(bytes, k);
      ZeroBitsValue(Lsbs(bytes[8 * k .. 8 * k + 8]));
    }
  }

  /** "[START]hi[END\\" followed by two NULs holds no "[END]" at all. */
  lemma NoEndInLostFrame(text: seq<Char>)
    requires text == START + ['h' as int, 'i' as int, '[' as int, 'E' as int, 'N' as int, 'D' as int, 0x5C, 0, 0]
    ensures forall k: nat :: !IsAt(text, END, k)
  {
    forall k: nat ensures !IsAt(text, END, k) {
      if k + 5 <= |text| {
        assert text[k .. k + 5][0] == text[k];
      }
      if k + 5 <= |text| && text[k] == '[' as int {
        assert k == 0 || k == 9;
        assert text[k .. k + 5][1] == text[k + 1];
        assert text[k .. k + 5][4] == text[k + 4];
      }
    }
  }

  /** A carrier of 128 bytes 0xFE (every lowest bit 0) holding "hi": the
      capacity check passes (112 bits), but the ']' comes back as '\\' and
      the two trailing characters are NUL, so `Decode` finds no message. */
  lemma ShortMessageLost()
    ensures Decode(Embed(seq(128, _ => 0xFE), FramedBits(['h' as int, 'i' as int]))) == None
  {
    var carrier: seq<Byte> := seq(128, _ => 0xFE);
    var msg: seq<Char> := ['h' as int, 'i' as int];
    EncodedText(carrier, msg);
    assert carrier[112..] == seq(16, _ => 0xFE);
    ZeroLsbText();
    var text := ExtractText(Embed(carrier, FramedBits(msg)));
    assert text == START + msg + ['[' as int, 'E' as int, 'N' as int, 'D' as int, 0x5C, 0, 0];
    NoEndInLostFrame(text);
  }
}
