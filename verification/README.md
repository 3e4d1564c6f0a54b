# lsb_steg in Dafny

A model of the least-significant-bit steganography codec of `lsb_steg.py`. It
hides a text message in the lowest bit of an image's RGB channel bytes and
reads it back.

- **Framing and bit-packing.** The message is wrapped as `"[START]" + msg + "[END]"`.
  Every character of that framed text becomes its 8-bit binary form, most
  significant bit first (`LsbSteg.Frame`, `LsbSteg.FramedBits`, `Bits.ToBits`).
- **Encoding** (`LsbSteg.Encode`). This is a method over an `array` of carrier
  bytes, updated in place as `lsb_encode` updates the caller's list. If the
  framed bit string is longer than the carrier, it returns `None`, which stands
  for the `False` that `lsb_encode` returns, and changes nothing. Otherwise it overwrites the
  lowest bit of carrier bytes `0 .. |bits| - 2` in a loop. It then returns the
  carrier cut into RGB triples (`LsbSteg.Pixels`). Its specification function is
  `LsbSteg.Embed`.
- **Decoding** (`LsbSteg.Decode`). The lowest bit of every byte is collected.
  The bits are regrouped eight at a time into characters (`LsbSteg.ExtractText`).
  The text is then searched for the pattern `\[START\](?P<msg>.+)\[END\]`. That
  search is written out as `Pattern.Search`: the leftmost `"[START]"` that can be
  completed, and for it the last `"[END]"` reachable without crossing a newline,
  with at least one character captured.

Representation:
- A carrier byte is an `int` in 0..255 (`Bits.Byte`). It stands for the
  8-character `'0'/'1'` string `lsb_steg.py` keeps per byte.
- "The last character of the byte string" is `b % 2`.
- `byte[:-1] + bit` is `b - b % 2 + bit` (`LsbSteg.SetLsb`).
- Characters are code points below 256 (`Bits.Char`). The decoder can only
  produce such characters.
- Bit strings are sequences of 0/1 values.
- The one "split into pieces of n" idiom the code uses twice (8 bits per
  character, 3 bytes per pixel) is `Chunking.Chunks`.

Behaviour kept exactly as the code has it:
- **The write loop stops one bit short.** It runs over
  `range(0, len(msg_bits) - 1)`, so the last bit of the closing `]` is never
  written. Carrier byte `8 * (|msg| + 12) - 1` keeps its own lowest bit.
  - If that bit is 0, the `]` (0x5D) decodes as `\` (0x5C) (`LsbSteg.ClosingBracketLost`).
  - So the round trip holds only under conditions (`LsbSteg.RoundTrip`).
  - Example: a 128-byte carrier of `0xFE` bytes holding `"hi"` passes the
    capacity check, yet decodes to no message at all (`LsbSteg.ShortMessageLost`).
- **The search is greedy, needs at least one character, and `.` excludes
  newlines.** It is not a "first `[END]` after `[START]`" scan, and it can never
  return an empty message.
- **A trailing group of fewer than eight bits is still decoded** into a
  character, not dropped. The extracted text has ceil(|carrier| / 8) characters.
- **The capacity check accepts equality.** A framed bit string exactly as long
  as the carrier is encoded.

Modules: `Wrappers` (Option), `Chunking` (pieces and flattening), `Bits`
(binary conversions), `Pattern` (the sentinels and the search), `LsbSteg`
(framing, encoding, decoding and the round-trip lemmas).

## Model

| member | source | states |
|---|---|---|
| `Bits.BitsValue` | lsb_steg.py:73 | `int(bits, 2)`: the value of a bit string read most significant bit first is below 2^len |
| `Bits.ValueOfBinary` | lsb_steg.py:46 | reading back the w-bit binary form of any v < 2^w gives v |
| `Bits.BinaryOfValue` | lsb_steg.py:73 | writing out the value of any bit string at its own width gives the bit string back, so the binary form is unique |
| `Bits.CharBits` | lsb_steg.py:46 | `format(ord(c), '08b')` for a character below 256 is exactly eight bits whose value is c |
| `Bits.ToBits` | lsb_steg.py:46 | the packed bit string of a text has exactly 8 bits per character |
| `Bits.ToBitsAt` | lsb_steg.py:46 | bits 8k..8k+7 of the packed string are character k's 8-bit form, in order |
| `Bits.ToBitsAppend` | lsb_steg.py:46 | packing a concatenation is the concatenation of the packings |
| `Bits.FromBits` | lsb_steg.py:72-73 | regrouping a bit string yields ceil(len / 8) characters |
| `Bits.FromBitsAt` | lsb_steg.py:72-73 | character k is the value of bits 8k..8k+7, or of the shorter trailing group, which is kept rather than dropped |
| `Bits.FromBitsToBits` | lsb_steg.py:46-73 | regrouping undoes packing for every text of characters below 256 |
| `Bits.ToBitsFromBits` | lsb_steg.py:46-73 | packing undoes regrouping for every bit string whose length is a multiple of 8 |
| `Chunking.Chunks` | lsb_steg.py:72 | `[s[i:i+n] for i in range(0, len(s), n)]` has ceil(len / n) pieces, each non-empty and at most n long |
| `Chunking.ChunkAt` | lsb_steg.py:72 | piece k is exactly the slice of s from k*n to min(k*n + n, len) |
| `Chunking.FlattenChunks` | lsb_steg.py:58 | concatenating the pieces in order gives s back: nothing lost, duplicated or reordered |
| `Pattern.FirstNewline` | lsb_steg.py:11 | how far `.` can reach: the first newline at or after i (or the end), with no newline before it |
| `Pattern.NewlineFreeUpTo` | lsb_steg.py:11 | a slice from i is newline-free if and only if it ends at or before that first newline |
| `Pattern.LastEndIn` | lsb_steg.py:11 | the largest position in lo..hi where `"[END]"` occurs, or None exactly when there is none there |
| `Pattern.GreedyEnd` | lsb_steg.py:11 | greedy `.+`: for a `"[START]"` at p, the last k that completes a match, or None exactly when none does |
| `Pattern.Locate` | lsb_steg.py:75 | `re.search` scans left to right: the first start position at or after `from` that begins a match, with its greedy end; None when no later position matches |
| `Pattern.Search` | lsb_steg.py:11 | `PATTERN.search(text).group('msg')`: None exactly when no `"[START]"` is followed by one or more non-newline characters and `"[END]"`; otherwise the capture of the leftmost, greedy match, which is non-empty and newline-free |
| `LsbSteg.Frame` | lsb_steg.py:44 | the framed text is `"[START]"`, then the message, then `"[END]"`: 12 characters longer than the message |
| `LsbSteg.FramedBitsLayout` | lsb_steg.py:44-46 | `msg_bits` is the bits of `"[START]"`, of the message and of `"[END]"` in a row, exactly 8 * (len(msg) + 12) bits |
| `LsbSteg.SetLsb` | lsb_steg.py:54 | `byte[:-1] + bit` gives a byte whose lowest bit is `bit`, whose upper seven bits are unchanged, and which differs from the old byte by at most 1 |
| `LsbSteg.Embed` | lsb_steg.py:53-54 | after the write loop, byte i has lowest bit `msg_bits[i]` and unchanged upper bits for every i < len(msg_bits) - 1; every other byte, the skipped last slot included, is unchanged; the length is kept |
| `LsbSteg.EmbedLeavesRest` | lsb_steg.py:53 | every byte from index len(msg_bits) - 1 onwards is left exactly as it was |
| `LsbSteg.Pixels` | lsb_steg.py:57-58 | the grid flattens back to the byte list; for a length divisible by 3 it has len / 3 pixels of 3 channels each |
| `LsbSteg.Encode` | lsb_steg.py:35-62 | fails exactly when 8 * (len(msg) + 12) > len(img_bytes), and then leaves the carrier untouched; otherwise the carrier becomes `Embed(old carrier, msg_bits)` in place and the result is that carrier cut into pixels |
| `LsbSteg.Lsbs` | lsb_steg.py:71 | one bit per carrier byte, its lowest bit, in carrier order |
| `LsbSteg.ExtractText` | lsb_steg.py:71-73 | the extracted text has ceil(len(img_bytes) / 8) characters |
| `LsbSteg.ExtractedCharAt` | lsb_steg.py:71-73 | character k is the value of the lowest bits of bytes 8k..8k+7, read most significant first; a trailing group shorter than 8 still yields a character |
| `LsbSteg.ExtractTextAppend` | lsb_steg.py:71-73 | extraction distributes over a split of the carrier at a multiple of 8 bytes |
| `LsbSteg.Decode` | lsb_steg.py:65-82 | reads the carrier only; None exactly when the extracted text holds no `"[START]"`, then one or more non-newline characters, then `"[END]"`; otherwise the capture of the leftmost match with its last possible `"[END]"`, which is non-empty and newline-free |
| `LsbSteg.WrittenHeadText` | lsb_steg.py:53-73 | the bytes written before the last framed character decode to `"[START]" + msg + "[END"` |
| `LsbSteg.LastCharText` | lsb_steg.py:53-73 | the last framed character decodes to 0x5C plus the unwritten byte's own lowest bit |
| `LsbSteg.EncodedText` | lsb_steg.py:53-73 | after a successful encode, the extracted text is the framed message up to its final `]`, then 0x5C or 0x5D according to the skipped byte's old lowest bit, then the text of the untouched rest of the carrier |
| `LsbSteg.SearchFramed` | lsb_steg.py:11 | a non-empty, newline-free message in its frame is found again whatever follows, unless an `"[END]"` follows before the first newline, even when the message itself contains the sentinels |
| `LsbSteg.RoundTrip` | lsb_steg.py:35-82 | decode after a successful encode returns the message. Conditions: the message is non-empty and newline-free; byte 8 * (len(msg) + 12) - 1 already has lowest bit 1; the rest of the carrier decodes to no `"[END]"` before its first newline |
| `LsbSteg.ClosingBracketLost` | lsb_steg.py:53 | when the skipped byte has lowest bit 0, the closing `]` of the frame decodes as `\` |
| `LsbSteg.ShortMessageLost` | lsb_steg.py:53 | 128 bytes of 0xFE holding `"hi"` pass the capacity check but decode to no message |

## Left out

- `load_img` (lsb_steg.py:14-32): the path check, opening the image, converting it to RGB and flattening its pixels are file I/O and calls into PIL. The model takes the flat byte list as given.
- The `height` and `width` arguments of `lsb_encode`, and the `numpy` reshape and `Image.fromarray` at lsb_steg.py:59-60: these are foreign-library calls. `Encode` returns the list of triples built at line 58.
- Characters with code points above 255: `format(ord(c), '08b')` then yields more than eight bits and breaks the alignment. The message type admits only code points below 256.
- The general regular-expression engine: only the one pattern of line 11 is modelled, as `Pattern.Search`.
- `main`/`help` (lsb_steg.py:85-92) and the TODO list (lsb_steg.py:98-109): documentation and unimplemented ideas.
- `user_interactive.py`: it only prompts, prints and saves a file. Its only logic is re-prompting until the mode is one of the accepted strings.
- Aliasing: the carrier array is assumed not to be shared with anything else the caller holds. The list passed to `lsb_encode` is likewise mutated for its caller, which is what `Encode`'s `modifies` clause expresses.
- `Bits.ToBinary`: its own contract states only the width. Its meaning is stated by `Bits.ValueOfBinary` and `Bits.BinaryOfValue`.
