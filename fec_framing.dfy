/** The Reed-Solomon framing of noiseEcc.h. `encode` cuts its input into
    pieces of FEC_K = 223 bytes, copies each into a zeroed 255-byte buffer,
    lets the Reed-Solomon encoder fill in the parity symbols and appends the
    whole buffer; `decode` runs the Reed-Solomon decoder on every complete
    255-byte codeword and keeps the first 223 bytes of each. The Reed-Solomon
    arithmetic itself is a parameter: an encoder and a decoder on one
    codeword buffer. */
module FecFraming {
  import opened Common

  /** Symbol errors the code corrects per codeword. */
  const TCorrect: nat := 16
  /** Bytes per codeword. */
  const FecN: nat := 255
  /** Data bytes per codeword: the codeword less 2 * TCorrect parity symbols. */
  const FecK: nat := FecN - 2 * TCorrect

  /** The sizes the proofs below write as literals 255 and 223. */
  lemma {:induction false} FecSizes()
    ensures FecN == 255 && FecK == 223 && FecK == FecN - 2 * TCorrect
  {
  }

  /** `std::vector<uint8_t> buf(FEC_N)`: one codeword buffer. */
  type Codeword = s: seq<byte> | |s| == 255 witness seq(255, _ => 0)

  /** What the Reed-Solomon decoder makes of one codeword: either it gives
      up, or it repaired the buffer in place and reports how many symbol
      errors it corrected (`corrected_errors()`). */
  datatype RsOutcome = Uncorrectable | Repaired(codeword: Codeword, corrections: nat)

  // ---------------------------------------------------------------------------
  // encode

  /** The buffer after `buf(FEC_N, 0)` and `memcpy(buf.data(), ptr, sz)`. */
  function Buffer(piece: seq<byte>): Codeword
    requires |piece| <= 255
  {
    Pad(piece, 255, 0)
  }

  /** What `encode` returns: the next min(remaining, 223) bytes, in a zeroed
      buffer passed through the encoder, then the rest the same way. */
  function Encoding(enc: Codeword -> Codeword, data: seq<byte>): seq<byte>
    decreases |data|
  {
    if |data| == 0 then []
    else enc(Buffer(data[..Min(|data|, 223)])) + Encoding(enc, data[Min(|data|, 223)..])
  }

  /** The number of codewords `encode` emits for n input bytes. */
  function NumCodewords(n: nat): nat
  {
    (n + 223 - 1) / 223
  }

  /** Codeword j exists when piece j starts inside the input. */
  lemma {:induction false} NumCodewordsBound(n: nat, j: nat)
    ensures j < NumCodewords(n) <==> 223 * j < n
  {
  }

  /** One pass of the `encode` loop, with `ptr` bytes already consumed. */
  lemma {:induction false} EncodingStep(enc: Codeword -> Codeword, data: seq<byte>, ptr: nat)
    requires ptr < |data|
    ensures Encoding(enc, data[ptr..])
         == enc(Buffer(data[ptr..Min(ptr + 223, |data|)]))
          + Encoding(enc, data[Min(ptr + 223, |data|)..])
  {
    var rest := data[ptr..];
    assert rest[..Min(|rest|, 223)] == data[ptr..Min(ptr + 223, |data|)];
    assert rest[Min(|rest|, 223)..] == data[Min(ptr + 223, |data|)..];
  }

  /** `NoiseAndFEC::encode`: while bytes remain, copy up to FEC_K of them into
      a zeroed FEC_N buffer, encode it and append all FEC_N bytes. */
  method Encode(enc: Codeword -> Codeword, input: seq<byte>) returns (out: seq<byte>)
    ensures out == Encoding(enc, input)
  {
    out := [];
    var ptr := 0;
    var remaining := |input|;
    while remaining > 0
      invariant 0 <= ptr <= |input| && remaining == |input| - ptr
      invariant out + Encoding(enc, input[ptr..]) == Encoding(enc, input)
    {
      var sz := Min(remaining, FecK);
      var buf: seq<byte> := seq(FecN, _ => 0);
      buf := input[ptr..ptr + sz] + buf[sz..];
      assert ptr + sz == Min(ptr + 223, |input|);
      assert buf == Buffer(input[ptr..Min(ptr + 223, |input|)]);
      var codeword := enc(buf);
      EncodingStep(enc, input, ptr);
      ConcatAssociates(out, codeword, Encoding(enc, input[ptr + sz..]));
      out := out + codeword;
      ptr := ptr + sz;
      remaining := remaining - sz;
    }
    assert input[ptr..] == [];
  }

  /** The encoding is one 255-byte codeword per started 223-byte piece, and
      only the empty input encodes to nothing. */
  lemma {:induction false} EncodingLength(enc: Codeword -> Codeword, data: seq<byte>)
    ensures |Encoding(enc, data)| == 255 * NumCodewords(|data|)
    ensures Encoding(enc, data) == [] <==> data == []
    decreases |data|
  {
    if |data| > 223 {
      EncodingLength(enc, data[223..]);
    }
  }

  /** Past its first j codewords, the encoding is the encoding of what
      follows the first j pieces. */
  lemma {:induction false} EncodingSuffix(enc: Codeword -> Codeword, data: seq<byte>, j: nat)
    requires 223 * j < |data|
    ensures 255 * j < |Encoding(enc, data)|
    ensures Encoding(enc, data)[255 * j..] == Encoding(enc, data[223 * j..])
    decreases j
  {
    EncodingLength(enc, data);
    if j > 0 {
      var rest := data[223..];
      EncodingSuffix(enc, rest, j - 1);
      var e := enc(Buffer(data[..223])) + Encoding(enc, rest);
      assert e[255 * j..] == Encoding(enc, rest)[255 * (j - 1)..];
      assert rest[223 * (j - 1)..] == data[223 * j..];
    }
  }

  /** Codeword j of the encoding is the encoder applied to a buffer holding
      input bytes 223j .. 223j+222 in order, zero past the end of the input. */
  lemma {:induction false} EncodingLayout(enc: Codeword -> Codeword, data: seq<byte>, j: nat)
    requires j < NumCodewords(|data|)
    ensures 223 * j < |data| && 255 * j + 255 <= |Encoding(enc, data)|
    ensures Encoding(enc, data)[255 * j..255 * j + 255]
         == enc(Buffer(data[223 * j..Min(223 * j + 223, |data|)]))
  {
    NumCodewordsBound(|data|, j);
    var e := Encoding(enc, data);
    var codeword := enc(Buffer(data[223 * j..Min(223 * j + 223, |data|)]));
    var tail := Encoding(enc, data[Min(223 * j + 223, |data|)..]);
    assert 255 * j < |e| && e[255 * j..] == codeword + tail by {
      EncodingSuffix(enc, data, j);
      EncodingStep(enc, data, 223 * j);
    }
    CodewordInside(e, 255 * j, codeword + tail, codeword, tail);
  }

  /** A codeword found at offset k of e. */
  lemma {:induction false} CodewordInside(e: seq<byte>, k: nat, f: seq<byte>, codeword: Codeword, tail: seq<byte>)
    requires k < |e| && e[k..] == f && f == codeword + tail
    ensures k + 255 <= |e| && e[k..k + 255] == codeword
  {
    PrefixOfConcat(codeword, tail);
    SliceOfSuffix(e, k, 255);
  }

  // ---------------------------------------------------------------------------
  // decode

  /** The result of decoding a sequence of codewords: a codeword the decoder
      gave up on, or the data bytes and whether any codeword needed repair. */
  datatype Frames = Failure | Success(out: seq<byte>, corrected: bool)

  /** The data of one more codeword in front of what the later ones give. */
  function Prepend(out: seq<byte>, corrected: bool, later: Frames): Frames
  {
    match later
    case Failure => Failure
    case Success(o, c) => Success(out + o, corrected || c)
  }

  /** Prepending twice is prepending the concatenation. */
  lemma {:induction false} PrependTwice(a: seq<byte>, ca: bool, b: seq<byte>, cb: bool, r: Frames)
    ensures Prepend(a, ca, Prepend(b, cb, r)) == Prepend(a + b, ca || cb, r)
  {
    if r.Success? {
      ConcatAssociates(a, b, r.out);
    }
  }

  /** What `decode` makes of its input: codeword by codeword, stopping at
      the first one the decoder gives up on and ignoring any trailing bytes
      that do not fill a codeword. */
  function Decoding(dec: Codeword -> RsOutcome, data: seq<byte>): Frames
    decreases |data|
  {
    if |data| < 255 then Success([], false)
    else
      match dec(data[..255])
      case Uncorrectable => Failure
      case Repaired(codeword, corrections) =>
        Prepend(codeword[..223], corrections > 0, Decoding(dec, data[255..]))
  }

  /** `decode`'s return value and its `corrupted` out-parameter. */
  function Outcome(r: Frames): (seq<byte>, bool)
  {
    match r
    case Failure => ([], true)
    case Success(out, corrected) => (out, corrected)
  }

  /** One pass of the `decode` loop, with `ptr` bytes already consumed. */
  lemma {:induction false} DecodingStep(dec: Codeword -> RsOutcome, data: seq<byte>, ptr: nat)
    requires ptr + 255 <= |data|
    ensures Decoding(dec, data[ptr..])
         == match dec(data[ptr..ptr + 255])
            case Uncorrectable => Failure
            case Repaired(codeword, corrections) =>
              Prepend(codeword[..223], corrections > 0, Decoding(dec, data[ptr + 255..]))
  {
    var rest := data[ptr..];
    assert rest[..255] == data[ptr..ptr + 255];
    assert rest[255..] == data[ptr + 255..];
  }

  /** `NoiseAndFEC::decode`: while a whole codeword remains, decode it; give
      up with an empty result and `corrupted` on the first failure, otherwise
      note any corrections and append its first FEC_K bytes. */
  method Decode(dec: Codeword -> RsOutcome, input: seq<byte>) returns (out: seq<byte>, corrupted: bool)
    ensures (out, corrupted) == Outcome(Decoding(dec, input))
  {
    corrupted := false;
    out := [];
    var ptr := 0;
    var remaining := |input|;
    while remaining >= FecN
      invariant 0 <= ptr <= |input| && remaining == |input| - ptr
      invariant Decoding(dec, input) == Prepend(out, corrupted, Decoding(dec, input[ptr..]))
    {
      var buf: Codeword := input[ptr..ptr + FecN];
      DecodingStep(dec, input, ptr);
      match dec(buf)
      case Uncorrectable =>
        corrupted := true;
        return [], corrupted;
      case Repaired(codeword, corrections) =>
        PrependTwice(out, corrupted, codeword[..FecK], corrections > 0, Decoding(dec, input[ptr + FecN..]));
        if corrections > 0 {
          corrupted := true;
        }
        out := out + codeword[..FecK];
        ptr := ptr + FecN;
        remaining := remaining - FecN;
    }
    assert out + [] == out;
  }

  /** Codeword j of the input to `decode`. */
  function CodewordAt(data: seq<byte>, j: nat): (c: Codeword)
    requires 255 * j + 255 <= |data|
    ensures c == data[255 * j..255 * j + 255]
  {
    data[255 * j..255 * j + 255]
  }

  /** Codeword j + 1 of the input is codeword j of what follows the first. */
  lemma {:induction false} CodewordAtShift(data: seq<byte>, j: nat)
    requires 255 * j + 510 <= |data|
    ensures CodewordAt(data, j + 1) == CodewordAt(data[255..], j)
  {
    assert data[255..][255 * j..255 * j + 255] == data[255 * (j + 1)..255 * (j + 1) + 255];
  }

  /** Bytes after the last whole codeword make no difference. */
  lemma {:induction false} DecodingIgnoresTrailing(dec: Codeword -> RsOutcome, data: seq<byte>)
    ensures Decoding(dec, data) == Decoding(dec, data[..255 * (|data| / 255)])
    decreases |data|
  {
    var whole := data[..255 * (|data| / 255)];
    if |data| >= 255 {
      DecodingIgnoresTrailing(dec, data[255..]);
      assert whole[..255] == data[..255];
      assert whole[255..] == data[255..][..255 * (|data[255..]| / 255)];
    }
  }

  /** Decoding fails exactly when the decoder gives up on some whole
      codeword, whatever the codewords before it decoded to. */
  lemma {:induction false} DecodingFailsIff(dec: Codeword -> RsOutcome, data: seq<byte>)
    ensures Decoding(dec, data).Failure?
        <==> exists j: nat :: 255 * j + 255 <= |data| && dec(CodewordAt(data, j)).Uncorrectable?
    decreases |data|
  {
    if |data| >= 255 {
      var rest := data[255..];
      DecodingFailsIff(dec, rest);
      assert CodewordAt(data, 0) == data[..255];
      if dec(data[..255]).Repaired? {
        if Decoding(dec, data).Failure? {
          var j: nat :| 255 * j + 255 <= |rest| && dec(CodewordAt(rest, j)).Uncorrectable?;
          CodewordAtShift(data, j);
          assert dec(CodewordAt(data, j + 1)).Uncorrectable?;
        } else {
          forall j: nat | 255 * j + 255 <= |data|
            ensures !dec(CodewordAt(data, j)).Uncorrectable?
          {
            if j > 0 {
              CodewordAtShift(data, j - 1);
            }
          }
        }
      }
    }
  }

  /** A successful decode returns FEC_K bytes per whole codeword. */
  lemma {:induction false} DecodingLength(dec: Codeword -> RsOutcome, data: seq<byte>)
    requires Decoding(dec, data).Success?
    ensures |Decoding(dec, data).out| == 223 * (|data| / 255)
    decreases |data|
  {
    if |data| >= 255 {
      DecodingLength(dec, data[255..]);
    }
  }

  /** After a successful decode, bytes 223j .. 223j+222 of the result are the
      first FEC_K bytes of the repaired codeword j. */
  lemma {:induction false} DecodingLayout(dec: Codeword -> RsOutcome, data: seq<byte>, j: nat)
    requires Decoding(dec, data).Success? && 255 * j + 255 <= |data|
    ensures dec(CodewordAt(data, j)).Repaired?
    ensures 223 * j + 223 <= |Decoding(dec, data).out|
    ensures Decoding(dec, data).out[223 * j..223 * j + 223]
         == dec(CodewordAt(data, j)).codeword[..223]
    decreases j
  {
    assert CodewordAt(data, 0) == data[..255];
    var rest := data[255..];
    var first := dec(data[..255]).codeword[..223];
    var later := Decoding(dec, rest);
    if j == 0 {
      PrefixOfConcat(first, later.out);
    } else {
      DecodingLayout(dec, rest, j - 1);
      CodewordAtShift(data, j - 1);
      assert (first + later.out)[223 * j..223 * j + 223]
          == later.out[223 * (j - 1)..223 * (j - 1) + 223];
    }
  }

  /** A successful decode reports `corrupted` exactly when the decoder
      corrected an error in some codeword. */
  lemma {:induction false} DecodingCorruptedIff(dec: Codeword -> RsOutcome, data: seq<byte>)
    requires Decoding(dec, data).Success?
    ensures Decoding(dec, data).corrected
        <==> exists j: nat :: 255 * j + 255 <= |data|
               && dec(CodewordAt(data, j)).Repaired? && dec(CodewordAt(data, j)).corrections > 0
    decreases |data|
  {
    if |data| >= 255 {
      var rest := data[255..];
      DecodingCorruptedIff(dec, rest);
      assert CodewordAt(data, 0) == data[..255];
      if Decoding(dec, data).corrected && dec(data[..255]).corrections == 0 {
        var j: nat :| 255 * j + 255 <= |rest|
          && dec(CodewordAt(rest, j)).Repaired? && dec(CodewordAt(rest, j)).corrections > 0;
        CodewordAtShift(data, j);
        assert dec(CodewordAt(data, j + 1)).corrections > 0;
      }
      if !Decoding(dec, data).corrected {
        forall j: nat | 255 * j + 255 <= |data| && dec(CodewordAt(data, j)).Repaired?
          ensures dec(CodewordAt(data, j)).corrections == 0
        {
          if j > 0 {
            CodewordAtShift(data, j - 1);
          }
        }
      }
    }
  }

  // ---------------------------------------------------------------------------
  // Round trip

  /** A systematic encoder leaves the first FEC_K bytes of the buffer alone. */
  ghost predicate Systematic(enc: Codeword -> Codeword)
  {
    forall b: Codeword :: enc(b)[..223] == b[..223]
  }

  /** Over a clean channel the decoder accepts every codeword the encoder
      produced and corrects nothing. */
  ghost predicate AcceptsCodewords(enc: Codeword -> Codeword, dec: Codeword -> RsOutcome)
  {
    forall b: Codeword :: dec(enc(b)) == Repaired(enc(b), 0)
  }

  /** With a systematic code over a clean channel, `decode(encode(x))` is x
      zero-padded to whole pieces, and not corrupted. */
  lemma {:induction false} RoundTrip(enc: Codeword -> Codeword, dec: Codeword -> RsOutcome, x: seq<byte>)
    requires Systematic(enc) && AcceptsCodewords(enc, dec)
    ensures Decoding(dec, Encoding(enc, x)) == Success(Pad(x, 223 * NumCodewords(|x|), 0), false)
    decreases |x|
  {
    if |x| > 0 {
      var m := Min(|x|, 223);
      var codeword := enc(Buffer(x[..m]));
      assert codeword[..223] == Pad(x[..m], 223, 0);
      RoundTrip(enc, dec, x[m..]);
      DecodingFront(dec, codeword, Encoding(enc, x[m..]));
      PiecesPadded(x);
    }
  }

  /** A codeword the decoder accepts unchanged, in front of more input. */
  lemma {:induction false} DecodingFront(dec: Codeword -> RsOutcome, codeword: Codeword, tail: seq<byte>)
    requires dec(codeword) == Repaired(codeword, 0)
    ensures Decoding(dec, codeword + tail) == Prepend(codeword[..223], false, Decoding(dec, tail))
  {
    PrefixOfConcat(codeword, tail);
    assert (codeword + tail)[255..] == tail;
  }

  /** The first piece zero-padded to 223 bytes, then the rest zero-padded to
      whole pieces, is the whole input zero-padded to whole pieces. */
  lemma {:induction false} PiecesPadded(x: seq<byte>)
    requires |x| > 0
    ensures Pad(x[..Min(|x|, 223)], 223, 0) + Pad(x[Min(|x|, 223)..], 223 * NumCodewords(|x| - Min(|x|, 223)), 0)
         == Pad(x, 223 * NumCodewords(|x|), 0)
  {
    if |x| <= 223 {
      assert x[..|x|] == x;
    } else {
      PadAfter(x[..223], x[223..], 223 * NumCodewords(|x| - 223), 0);
      assert x[..223] + x[223..] == x;
      assert Pad(x[..223], 223, 0) == x[..223];
    }
  }

  /** The first |x| bytes of the round trip are x itself. */
  lemma {:induction false} RoundTripRecoversInput(enc: Codeword -> Codeword, dec: Codeword -> RsOutcome, x: seq<byte>)
    requires Systematic(enc) && AcceptsCodewords(enc, dec)
    ensures Outcome(Decoding(dec, Encoding(enc, x))).1 == false
    ensures |x| <= |Outcome(Decoding(dec, Encoding(enc, x))).0|
    ensures Outcome(Decoding(dec, Encoding(enc, x))).0[..|x|] == x
  {
    RoundTrip(enc, dec, x);
  }
}
