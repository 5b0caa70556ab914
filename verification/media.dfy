/**
 The data the capture buffer stores: timestamped byte payloads, timestamps
 truncated to `u32` milliseconds, and audio payloads read as signed 16-bit
 little-endian samples.
 */
module Media {

  type Byte = b: int | 0 <= b < 256

  const U32_MODULUS: nat := 0x1_0000_0000
  const I16_MIN: int := -0x8000
  const I16_LIMIT: int := 0x8000

  /** A buffered video frame or audio chunk: a millisecond timestamp and the raw bytes. */
  datatype Stamped = Stamped(timestampMs: nat, data: seq<Byte>)

  /**
   `(us / 1000) as u32`: whole milliseconds, wrapped to 32 bits. The
   device timestamps are unsigned, so the division rounds down.
   */
  function ToMs(us: nat): (ms: nat)
    ensures ms < U32_MODULUS
    ensures us < 1000 * U32_MODULUS ==> ms * 1000 <= us < ms * 1000 + 1000
    ensures (us / 1000 - ms) % U32_MODULUS == 0
  {
    (us / 1000) % U32_MODULUS
  }

  /** A sample of the `i16` range. */
  predicate IsSample(v: int)
  {
    I16_MIN <= v < I16_LIMIT
  }

  /** `i16::from_le_bytes([lo, hi])`: two's complement of `lo + 256 * hi`. */
  function FromLe(lo: Byte, hi: Byte): (v: int)
    ensures IsSample(v)
    ensures (v - (lo + 256 * hi)) % 0x1_0000 == 0
  {
    var u := lo + 256 * hi;
    if u >= I16_LIMIT then u - 0x1_0000 else u
  }

  /** `i16::to_le_bytes`: the low byte, then the high byte of the two's complement. */
  function ToLe(v: int): (b: (Byte, Byte))
    requires IsSample(v)
  {
    var u := if v < 0 then v + 0x1_0000 else v;
    (u % 256, u / 256)
  }

  /** Reading back the bytes of a sample gives the sample. */
  lemma FromToLe(v: int)
    requires IsSample(v)
    ensures FromLe(ToLe(v).0, ToLe(v).1) == v
  {
  }

  /** Every pair of bytes is the encoding of the sample it reads as. */
  lemma ToFromLe(lo: Byte, hi: Byte)
    ensures ToLe(FromLe(lo, hi)) == (lo, hi)
  {
  }

  /**
   `chunks_exact(2)` mapped through `from_le_bytes`: one sample per whole
   pair of bytes, an odd trailing byte ignored.
   */
  function DecodeS16le(b: seq<Byte>): (s: seq<int>)
    ensures |s| == |b| / 2
    ensures forall i :: 0 <= i < |s| ==> IsSample(s[i])
    decreases |b|
  {
    if |b| < 2 then [] else [FromLe(b[0], b[1])] + DecodeS16le(b[2..])
  }

  /** The little-endian bytes of a sequence of samples. */
  function EncodeS16le(s: seq<int>): (b: seq<Byte>)
    requires forall i :: 0 <= i < |s| ==> IsSample(s[i])
    ensures |b| == 2 * |s|
  {
    if |s| == 0 then [] else [ToLe(s[0]).0, ToLe(s[0]).1] + EncodeS16le(s[1..])
  }

  /** The `i`-th sample is read from bytes `2i` and `2i + 1`. */
  lemma {:induction false} DecodeAt(b: seq<Byte>, i: nat)
    requires i < |b| / 2
    ensures DecodeS16le(b)[i] == FromLe(b[2 * i], b[2 * i + 1])
    decreases |b|
  {
    if i > 0 {
      DecodeAt(b[2..], i - 1);
    }
  }

  /** Decoding the encoding of samples gives the samples back. */
  lemma {:induction false} DecodeEncode(s: seq<int>)
    requires forall i :: 0 <= i < |s| ==> IsSample(s[i])
    ensures DecodeS16le(EncodeS16le(s)) == s
  {
    if |s| > 0 {
      var b := EncodeS16le(s);
      assert b[2..] == EncodeS16le(s[1..]);
      DecodeEncode(s[1..]);
      FromToLe(s[0]);
    }
  }

  /** An even number of bytes is exactly the encoding of what it decodes to. */
  lemma {:induction false} EncodeDecode(b: seq<Byte>)
    requires |b| % 2 == 0
    ensures EncodeS16le(DecodeS16le(b)) == b
    decreases |b|
  {
    if |b| >= 2 {
      EncodeDecode(b[2..]);
      ToFromLe(b[0], b[1]);
      assert DecodeS16le(b)[1..] == DecodeS16le(b[2..]);
      assert b == [b[0], b[1]] + b[2..];
    }
  }

  /** A trailing odd byte does not change the samples. */
  lemma {:induction false} DecodeIgnoresOddByte(b: seq<Byte>, x: Byte)
    requires |b| % 2 == 0
    ensures DecodeS16le(b + [x]) == DecodeS16le(b)
    decreases |b|
  {
    if |b| >= 2 {
      assert (b + [x])[2..] == b[2..] + [x];
      DecodeIgnoresOddByte(b[2..], x);
    } else {
      assert |b| == 0;
    }
  }
}
