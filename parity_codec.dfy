/** The XOR-parity framing of encodingUtils.cpp. `encodeChunk` cuts its input
    into 8-byte blocks, zero-pads the last one and follows each block with the
    XOR of its eight bytes; `decodeChunk` treats its whole input as one block
    and checks only the final byte against the XOR of all the others. */
module ParityCodec {
  import opened Common

  // Blocks are `blockSize` = 8 bytes long; with its parity byte a block
  // takes 9 bytes of the encoding. The sizes are written as literals below.

  // ---------------------------------------------------------------------------
  // Bitwise exclusive or

  predicate Odd(a: nat) { a % 2 == 1 }

  /** Bitwise exclusive or of two naturals, lowest bit first. */
  function XorBits(a: nat, b: nat): nat
    decreases a + b
  {
    if a == 0 then b
    else if b == 0 then a
    else 2 * XorBits(a / 2, b / 2) + (if Odd(a) == Odd(b) then 0 else 1)
  }

  /** The low bit of the result is the exclusive or of the low bits, and the
      other bits are the exclusive or of the other bits. */
  lemma {:induction false} XorBitsHalves(a: nat, b: nat)
    ensures XorBits(a, b) / 2 == XorBits(a / 2, b / 2)
    ensures Odd(XorBits(a, b)) == (Odd(a) != Odd(b))
  {
  }

  lemma {:induction false} SameHalves(x: nat, y: nat)
    requires x / 2 == y / 2 && Odd(x) == Odd(y)
    ensures x == y
  {
  }

  lemma {:induction false} XorBitsCommutes(a: nat, b: nat)
    ensures XorBits(a, b) == XorBits(b, a)
    decreases a + b
  {
    if a != 0 && b != 0 {
      XorBitsCommutes(a / 2, b / 2);
    }
  }

  lemma {:induction false} XorBitsSelf(a: nat)
    ensures XorBits(a, a) == 0
    decreases a
  {
    if a != 0 {
      XorBitsSelf(a / 2);
    }
  }

  lemma {:induction false} XorBitsAssociates(a: nat, b: nat, c: nat)
    ensures XorBits(XorBits(a, b), c) == XorBits(a, XorBits(b, c))
    decreases a + b + c
  {
    if a != 0 && b != 0 && c != 0 {
      var ab := XorBits(a, b);
      var bc := XorBits(b, c);
      XorBitsHalves(ab, c);
      XorBitsHalves(a, b);
      XorBitsHalves(a, bc);
      XorBitsHalves(b, c);
      XorBitsAssociates(a / 2, b / 2, c / 2);
      SameHalves(XorBits(ab, c), XorBits(a, bc));
    }
  }

  function Pow2(k: nat): nat { if k == 0 then 1 else 2 * Pow2(k - 1) }

  /** Exclusive or of two k-bit numbers is a k-bit number. */
  lemma {:induction false} XorBitsBelow(a: nat, b: nat, k: nat)
    requires a < Pow2(k) && b < Pow2(k)
    ensures XorBits(a, b) < Pow2(k)
    decreases k
  {
    if a != 0 && b != 0 {
      XorBitsBelow(a / 2, b / 2, k - 1);
    }
  }

  /** `^` on two `char`s of a QByteArray, taken as the octets 0 .. 255. */
  function Xor(a: byte, b: byte): byte
  {
    assert Pow2(8) == 256;
    XorBitsBelow(a as nat, b as nat, 8);
    XorBits(a as nat, b as nat) as byte
  }

  lemma {:induction false} XorAssociates(a: byte, b: byte, c: byte)
    ensures Xor(Xor(a, b), c) == Xor(a, Xor(b, c))
  {
    XorBitsAssociates(a as nat, b as nat, c as nat);
  }

  lemma {:induction false} XorCommutes(a: byte, b: byte)
    ensures Xor(a, b) == Xor(b, a)
  {
    XorBitsCommutes(a as nat, b as nat);
  }

  /** `x ^ m == y` exactly when `m` is `x ^ y`: in particular `x ^ x == 0`,
      and a non-zero mask always changes `x`. */
  lemma {:induction false} XorCancels(x: byte, m: byte, y: byte)
    ensures Xor(x, m) == y <==> m == Xor(x, y)
  {
    XorAssociates(x, x, m);
    XorAssociates(x, x, y);
    XorBitsSelf(x as nat);
    if Xor(x, m) == y {
      assert Xor(x, y) == Xor(Xor(x, x), m);
    }
    if m == Xor(x, y) {
      assert Xor(x, m) == Xor(Xor(x, x), y);
    }
  }

  // ---------------------------------------------------------------------------
  // Parity of a sequence of octets

  /** XOR of all octets of `s`, accumulated from the left; 0 for none. */
  function XorAll(s: seq<byte>): byte
  {
    if |s| == 0 then 0 else Xor(XorAll(s[..|s| - 1]), s[|s| - 1])
  }

  lemma {:induction false} XorAllConcat(a: seq<byte>, b: seq<byte>)
    ensures XorAll(a + b) == Xor(XorAll(a), XorAll(b))
    decreases |b|
  {
    if |b| == 0 {
      assert a + b == a;
    } else {
      var front := b[..|b| - 1];
      assert (a + b)[..|a + b| - 1] == a + front;
      XorAllConcat(a, front);
      XorAssociates(XorAll(a), XorAll(front), b[|b| - 1]);
    }
  }

  /** A block followed by its own parity XORs to zero. */
  lemma {:induction false} WithParityXorsToZero(block: seq<byte>)
    ensures XorAll(block + [XorAll(block)]) == 0
  {
    assert (block + [XorAll(block)])[..|block|] == block;
    XorCancels(XorAll(block), XorAll(block), 0);
  }

  /** Changing one octet by `mask` changes the XOR of all of them by `mask`. */
  lemma {:induction false} XorAllUpdate(s: seq<byte>, i: nat, mask: byte)
    requires i < |s|
    ensures XorAll(s[i := Xor(s[i], mask)]) == Xor(XorAll(s), mask)
  {
    var t := s[i := Xor(s[i], mask)];
    var n := |s| - 1;
    var front := s[..n];
    assert XorAll(t) == Xor(XorAll(t[..n]), t[n]);
    if i < n {
      assert t[..n] == front[i := Xor(front[i], mask)];
      XorAllUpdate(front, i, mask);
      XorAssociates(XorAll(front), mask, s[n]);
      XorCommutes(mask, s[n]);
      XorAssociates(XorAll(front), s[n], mask);
    } else {
      assert t[..n] == front;
      XorAssociates(XorAll(front), s[n], mask);
    }
  }

  /** The loop both `encodeChunk` and `decodeChunk` run: start from 0 and XOR
      every byte in. */
  method Checksum(s: seq<byte>) returns (parity: byte)
    ensures parity == XorAll(s)
  {
    parity := 0;
    for j := 0 to |s|
      invariant parity == XorAll(s[..j])
    {
      assert s[..j + 1][..j] == s[..j];
      parity := Xor(parity, s[j]);
    }
    assert s[..|s|] == s;
  }

  // ---------------------------------------------------------------------------
  // encodeChunk

  /** `(n + blockSize - 1) / blockSize`, the number of blocks of an n-byte input. */
  function NumBlocks(n: nat): nat
  {
    (n + 8 - 1) / 8
  }

  /** NumBlocks is the ceiling of n / 8: empty input has no blocks, and the
      blocks cover the input with less than one block to spare. */
  lemma {:induction false} NumBlocksIsCeiling(n: nat)
    ensures NumBlocks(n) == 0 <==> n == 0
    ensures n <= 8 * NumBlocks(n) < n + 8
  {
  }

  /** A block followed by its parity byte. */
  function Framed(block: seq<byte>): seq<byte>
  {
    block + [XorAll(block)]
  }

  /** What `encodeChunk` returns: the first eight bytes, zero-padded when
      fewer remain, followed by their parity, then the rest the same way. */
  function Encoding(data: seq<byte>): seq<byte>
    decreases |data|
  {
    if |data| == 0 then []
    else if |data| <= 8 then Framed(Pad(data, 8, 0))
    else Framed(data[..8]) + Encoding(data[8..])
  }

  /** One step of the encoding: the first block, as `data.mid(0, min(8, n))`. */
  lemma {:induction false} EncodingFirstBlock(data: seq<byte>)
    requires |data| > 0
    ensures Encoding(data)
         == Framed(Pad(data[..Min(8, |data|)], 8, 0)) + Encoding(data[Min(8, |data|)..])
  {
    if |data| <= 8 {
      assert data[..|data|] == data;
      assert data[|data|..] == [];
      assert Encoding(data[|data|..]) == [];
    } else {
      assert Min(8, |data|) == 8;
      assert Pad(data[..8], 8, 0) == data[..8];
    }
  }

  /** Block i of the encoding comes before the encoding of what follows it. */
  lemma {:induction false} EncodingStep(data: seq<byte>, i: nat)
    requires i < NumBlocks(|data|)
    ensures 8 * i < |data|
    ensures Encoding(data[8 * i..])
         == Framed(Pad(data[8 * i..Min(8 * i + 8, |data|)], 8, 0))
          + Encoding(data[Min(8 * i + 8, |data|)..])
  {
    var rest := data[8 * i..];
    EncodingFirstBlock(rest);
    assert rest[..Min(8, |rest|)] == data[8 * i..Min(8 * i + 8, |data|)];
    assert rest[Min(8, |rest|)..] == data[Min(8 * i + 8, |data|)..];
  }

  /** One iteration of `EncodeChunk`: appending the framed block `i`
      to a prefix of the encoding yields the prefix up to block `i + 1`. */
  lemma {:induction false} EncodeChunkStep(data: seq<byte>, i: nat, encoded: seq<byte>)
    requires i < NumBlocks(|data|)
    requires encoded + Encoding(data[Min(8 * i, |data|)..]) == Encoding(data)
    ensures encoded + Framed(Pad(data[8 * i..Min(8 * i + 8, |data|)], 8, 0))
              + Encoding(data[Min(8 * (i + 1), |data|)..]) == Encoding(data)
  {
    EncodingStep(data, i);
    var framed := Framed(Pad(data[8 * i..Min(8 * i + 8, |data|)], 8, 0));
    var tail := Encoding(data[Min(8 * i + 8, |data|)..]);
    assert Min(8 * i, |data|) == 8 * i;
    assert encoded + (framed + tail) == Encoding(data);
    ConcatAssociates(encoded, framed, tail);
    assert 8 * (i + 1) == 8 * i + 8;
  }

  /** `encodeChunk`: for each block, copy it, pad it with zeros, XOR its bytes
      into `parity`, and append the block and the parity byte. */
  method EncodeChunk(data: seq<byte>) returns (encoded: seq<byte>)
    ensures encoded == Encoding(data)
  {
    encoded := [];
    var numBlocks := (|data| + 8 - 1) / 8;
    for i := 0 to numBlocks
      invariant encoded + Encoding(data[Min(8 * i, |data|)..]) == Encoding(data)
    {
      EncodingStep(data, i);
      var start := i * 8;
      var length := Min(8, |data| - start);
      assert start + length == Min(8 * i + 8, |data|);
      var block := data[start..start + length];
      if |block| < 8 {
        block := block + seq(8 - |block|, _ => 0);
      }
      assert block == Pad(data[8 * i..Min(8 * i + 8, |data|)], 8, 0);
      var parity := Checksum(block);
      EncodeChunkStep(data, i, encoded);
      assert block + [parity] == Framed(Pad(data[8 * i..Min(8 * i + 8, |data|)], 8, 0));
      ConcatAssociates(encoded, block, [parity]);
      encoded := encoded + block + [parity];
    }
    assert data[Min(8 * numBlocks, |data|)..] == [];
  }

  /** The encoding is nine bytes per block, `9 * ceil(n / 8)`; empty input
      gives empty output. */
  lemma {:induction false} EncodingLength(data: seq<byte>)
    ensures |Encoding(data)| == 9 * NumBlocks(|data|)
    ensures Encoding(data) == [] <==> data == []
    decreases |data|
  {
    if |data| > 8 {
      EncodingLength(data[8..]);
    }
  }

  /** Past its first i frames, the encoding is the encoding of what follows
      the first i blocks. */
  lemma {:induction false} EncodingSuffix(data: seq<byte>, i: nat)
    requires 8 * i < |data|
    ensures 9 * i < |Encoding(data)|
    ensures Encoding(data)[9 * i..] == Encoding(data[8 * i..])
    decreases i
  {
    EncodingLength(data);
    if i > 0 {
      var rest := data[8..];
      EncodingSuffix(rest, i - 1);
      var e := Framed(data[..8]) + Encoding(rest);
      assert e[9 * i..] == Encoding(rest)[9 * (i - 1)..];
      assert rest[8 * (i - 1)..] == data[8 * i..];
    }
  }

  /** The i-th nine-byte group of the encoding holds input bytes 8i .. 8i+7,
      zero-padded past the end of the input, followed by their XOR. */
  lemma {:induction false} EncodingLayout(data: seq<byte>, i: nat)
    requires i < NumBlocks(|data|)
    ensures 8 * i < |data| && 9 * i + 9 <= |Encoding(data)|
    ensures Encoding(data)[9 * i..9 * i + 8] == Pad(data[8 * i..Min(8 * i + 8, |data|)], 8, 0)
    ensures Encoding(data)[9 * i + 8] == XorAll(Encoding(data)[9 * i..9 * i + 8])
  {
    EncodingStep(data, i);
    EncodingSuffix(data, i);
    var block := Pad(data[8 * i..Min(8 * i + 8, |data|)], 8, 0);
    FrameAt(Encoding(data), 9 * i, block, Encoding(data[Min(8 * i + 8, |data|)..]));
  }

  /** A frame found at offset k of e: its eight data bytes and its parity. */
  lemma {:induction false} FrameAt(e: seq<byte>, k: nat, block: seq<byte>, tail: seq<byte>)
    requires |block| == 8 && k < |e| && e[k..] == Framed(block) + tail
    ensures k + 9 <= |e|
    ensures e[k..k + 8] == block && e[k + 8] == XorAll(block)
  {
    PrefixOfConcat(block, [XorAll(block)] + tail);
    SliceOfSuffix(e, k, 8);
  }

  // ---------------------------------------------------------------------------
  // Recovering the input from the encoding

  /** Every ninth byte removed: the data bytes of a sequence of frames. */
  function StripParity(e: seq<byte>): seq<byte>
  {
    if |e| < 9 then [] else e[..8] + StripParity(e[9..])
  }

  /** Removing the parity bytes of an encoding leaves the input zero-padded
      to whole blocks. */
  lemma {:induction false} StripEncoding(data: seq<byte>)
    ensures StripParity(Encoding(data)) == Pad(data, 8 * NumBlocks(|data|), 0)
    decreases |data|
  {
    if 0 < |data| <= 8 {
      assert Framed(Pad(data, 8, 0))[9..] == [];
    } else if |data| > 8 {
      var rest := data[8..];
      StripEncoding(rest);
      var e := Framed(data[..8]) + Encoding(rest);
      assert e[..8] == data[..8] && e[9..] == Encoding(rest);
      PadAfter(data[..8], rest, 8 * NumBlocks(|rest|), 0);
      assert data[..8] + rest == data;
    }
  }

  /** Dropping every ninth byte of the encoding and keeping the first n bytes
      gives the n-byte input back. */
  lemma {:induction false} RecoverInput(data: seq<byte>)
    ensures |data| <= |StripParity(Encoding(data))|
    ensures StripParity(Encoding(data))[..|data|] == data
  {
    NumBlocksIsCeiling(|data|);
    StripEncoding(data);
  }

  // ---------------------------------------------------------------------------
  // decodeChunk

  /** What `decodeChunk` returns: for an empty input no data and `corrupted`;
      otherwise every byte but the last, and `corrupted` exactly when their
      XOR differs from that last byte. */
  function Decoding(encoded: seq<byte>): (seq<byte>, bool)
  {
    if |encoded| < 1 then ([], true)
    else
      var data := encoded[..|encoded| - 1];
      (data, XorAll(data) != encoded[|encoded| - 1])
  }

  /** `decodeChunk`: split off the last byte, XOR the others into
      `calcChecksum` and compare. */
  method DecodeChunk(encodedData: seq<byte>) returns (data: seq<byte>, corrupted: bool)
    ensures (data, corrupted) == Decoding(encodedData)
  {
    corrupted := false;
    if |encodedData| < 1 {
      corrupted := true;
      return [], corrupted;
    }
    data := encodedData[..|encodedData| - 1];
    var receivedChecksum := encodedData[|encodedData| - 1];
    var calcChecksum := Checksum(data);
    if calcChecksum != receivedChecksum {
      corrupted := true;
    }
  }

  /** Flipping any bits of any one byte of an input that decodes cleanly makes
      it decode as corrupted. */
  lemma {:induction false} OneByteErrorDetected(encoded: seq<byte>, i: nat, mask: byte)
    requires |encoded| >= 1 && !Decoding(encoded).1
    requires i < |encoded| && mask != 0
    ensures Decoding(encoded[i := Xor(encoded[i], mask)]).1
  {
    var n := |encoded| - 1;
    var flipped := encoded[i := Xor(encoded[i], mask)];
    var last := encoded[n];
    XorBitsSelf(last as nat);
    XorCancels(last, mask, last);
    if i < n {
      assert flipped[..n] == encoded[..n][i := Xor(encoded[i], mask)];
      XorAllUpdate(encoded[..n], i, mask);
    } else {
      assert flipped[..n] == encoded[..n];
    }
  }

  /** The parities of whole frames cancel: the XOR of an encoding is zero. */
  lemma {:induction false} EncodingXorsToZero(data: seq<byte>)
    ensures XorAll(Encoding(data)) == 0
    decreases |data|
  {
    if 0 < |data| <= 8 {
      WithParityXorsToZero(Pad(data, 8, 0));
    } else if |data| > 8 {
      EncodingXorsToZero(data[8..]);
      WithParityXorsToZero(data[..8]);
      XorAllConcat(Framed(data[..8]), Encoding(data[8..]));
    }
  }

  /** `decodeChunk(encodeChunk(x))` reports no corruption for every non-empty
      x, and returns the whole encoding but its last byte. */
  lemma {:induction false} DecodeOfEncodeNotCorrupted(x: seq<byte>)
    requires |x| >= 1
    ensures |Encoding(x)| >= 1
    ensures Decoding(Encoding(x)) == (Encoding(x)[..|Encoding(x)| - 1], false)
  {
    EncodingLength(x);
    var e := Encoding(x);
    var front := e[..|e| - 1];
    EncodingXorsToZero(x);
    var last := e[|e| - 1];
    assert e == front + [last];
    assert XorAll(e) == Xor(XorAll(front), last) by { assert e[..|e| - 1] == front; }
    XorCancels(XorAll(front), last, 0);
  }

  /** A one-block input comes back zero-padded to eight bytes. */
  lemma {:induction false} DecodeOfEncodeOneBlock(x: seq<byte>)
    requires 1 <= |x| <= 8
    ensures Decoding(Encoding(x)) == (Pad(x, 8, 0), false)
  {
    DecodeOfEncodeNotCorrupted(x);
    assert Encoding(x)[..8] == Pad(x, 8, 0);
  }

  /** As written, the decoder undoes the encoder exactly for 8-byte inputs: an
      empty input is reported corrupted, a shorter one comes back padded, and a
      longer one comes back with the parity bytes of all blocks but the last
      still inside. */
  lemma {:induction false} DecodeRoundTripOnlyForOneBlock(x: seq<byte>)
    ensures Decoding(Encoding(x)) == (x, false) <==> |x| == 8
  {
    EncodingLength(x);
    NumBlocksIsCeiling(|x|);
    if |x| == 0 {
      assert Decoding(Encoding(x)).1;
    } else if |x| == 8 {
      DecodeOfEncodeOneBlock(x);
      assert Pad(x, 8, 0) == x;
    } else {
      DecodeOfEncodeNotCorrupted(x);
      assert |Decoding(Encoding(x)).0| == 9 * NumBlocks(|x|) - 1;
    }
  }

  // ---------------------------------------------------------------------------
  // Frame-by-frame decoding

  /** Every nine-byte frame carries the XOR of its eight data bytes, and
      nothing is left over. */
  predicate FramesValid(e: seq<byte>)
  {
    if |e| == 0 then true
    else |e| >= 9 && XorAll(e[..8]) == e[8] && FramesValid(e[9..])
  }

  /** The decoder `encodeChunk` calls for: frame by frame, returning the data
      bytes of all frames and `corrupted` when a frame's parity is wrong or a
      partial frame is left over; an empty input is zero frames. */
  function BlockwiseDecoding(encoded: seq<byte>): (seq<byte>, bool)
  {
    (StripParity(encoded), !FramesValid(encoded))
  }

  lemma {:induction false} EncodingFramesValid(data: seq<byte>)
    ensures FramesValid(Encoding(data))
    decreases |data|
  {
    if 0 < |data| <= 8 {
      assert Framed(Pad(data, 8, 0))[9..] == [];
    } else if |data| > 8 {
      EncodingFramesValid(data[8..]);
      var e := Framed(data[..8]) + Encoding(data[8..]);
      assert e[..8] == data[..8] && e[9..] == Encoding(data[8..]);
    }
  }

  /** Frame-by-frame decoding of an encoding reports no corruption and
      returns the input zero-padded to whole blocks, whose first n bytes are
      the input. */
  lemma {:induction false} BlockwiseRoundTrip(x: seq<byte>)
    ensures BlockwiseDecoding(Encoding(x)) == (Pad(x, 8 * NumBlocks(|x|), 0), false)
    ensures BlockwiseDecoding(Encoding(x)).0[..|x|] == x
  {
    EncodingLength(x);
    NumBlocksIsCeiling(|x|);
    StripEncoding(x);
    EncodingFramesValid(x);
  }
}
