/** Unsigned big-endian integers of fixed width, as produced by
    `struct.pack('>Q' / '>I' / '>L', n)` and `int.to_bytes(w, byteorder='big')`,
    and read back by `struct.unpack`. */
module BigEndian {
  import opened Arith

  type Byte = b: int | 0 <= b < 256

  /** The `width`-byte big-endian encoding of n, most significant byte
      first; for n >= 256^width these are its low `width` bytes. */
  function Encode(n: nat, width: nat): (r: seq<Byte>)
    ensures |r| == width
  {
    if width == 0 then []
    else Encode(n / 256, width - 1) + [n % 256]
  }

  /** The bounds of 4- and 8-byte values: `struct.pack('>Q', n)` and
      `n.to_bytes(8, 'big')` accept exactly 0 <= n < U64Limit. */
  const U32Limit: nat := 0x1_0000_0000
  const U64Limit: nat := 0x1_0000_0000_0000_0000

  /** 2^32 and 2^64 are the numbers of 4- and 8-byte values. */
  lemma WidthLimits()
    ensures Pow(256, 4) == U32Limit && Pow(256, 8) == U64Limit
  {
  }

  /** The unsigned integer that a big-endian byte string denotes. */
  function Decode(bs: seq<Byte>): (r: nat)
    ensures r < Pow(256, |bs|)
  {
    if bs == [] then 0
    else
      var hi := Decode(bs[..|bs| - 1]);
      assert hi * 256 + bs[|bs| - 1] < 256 * Pow(256, |bs| - 1) by {
        MulLe(hi, Pow(256, |bs| - 1) - 1, 256);
        MulSubRight(Pow(256, |bs| - 1), 1, 256);
      }
      hi * 256 + bs[|bs| - 1]
  }

  /** Reading back an encoding gives the encoded number. */
  lemma {:induction false} DecodeEncode(n: nat, width: nat)
    requires n < Pow(256, width)
    ensures Decode(Encode(n, width)) == n
  {
    if width > 0 {
      var bs := Encode(n, width);
      assert bs[..width - 1] == Encode(n / 256, width - 1);
      assert n / 256 < Pow(256, width - 1) by { DivDiv(n, 256, Pow(256, width - 1)); }
      DecodeEncode(n / 256, width - 1);
    }
  }

  /** Encoding the value of a byte string at its own width gives the bytes back. */
  lemma {:induction false} EncodeDecode(bs: seq<Byte>)
    ensures Encode(Decode(bs), |bs|) == bs
  {
    if bs != [] {
      var n := Decode(bs);
      var init := bs[..|bs| - 1];
      DivModUnique(n, 256, Decode(init), bs[|bs| - 1]);
      EncodeDecode(init);
    }
  }

  /** The arithmetic of one step of `DecodeAppend`. */
  lemma ShiftStep(x: int, y: int, p: int, last: int)
    ensures (x * p + y) * 256 + last == x * (256 * p) + (y * 256 + last)
  {
    MulAddRight(x * p, y, 256);
    MulAssoc(x, p, 256);
  }

  /** The value of a concatenation: the left part is shifted past the right part. */
  lemma {:induction false} DecodeAppend(a: seq<Byte>, b: seq<Byte>)
    ensures Decode(a + b) == Decode(a) * Pow(256, |b|) + Decode(b)
  {
    if b != [] {
      var init := b[..|b| - 1];
      assert (a + b)[..|a + b| - 1] == a + init;
      DecodeAppend(a, init);
      ShiftStep(Decode(a), Decode(init), Pow(256, |init|), b[|b| - 1]);
    } else {
      assert a + b == a;
    }
  }

  /** Two numbers of the same width have the same encoding only if they are equal. */
  lemma EncodeInjective(m: nat, n: nat, width: nat)
    requires m < Pow(256, width) && n < Pow(256, width)
    requires Encode(m, width) == Encode(n, width)
    ensures m == n
  {
    DecodeEncode(m, width);
    DecodeEncode(n, width);
  }
}
