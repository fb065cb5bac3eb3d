/** Python's `str.encode('ascii')` and `bytes.decode('ascii')`. */
module Ascii {
  import opened Wrappers
  import opened BigEndian

  predicate IsAscii(s: string)
  {
    forall i :: 0 <= i < |s| ==> s[i] as int < 128
  }

  /** The byte string of an ASCII text: one byte per character, its code point. */
  function Bytes(s: string): (r: seq<Byte>)
    requires IsAscii(s)
    ensures |r| == |s|
    ensures forall i :: 0 <= i < |s| ==> r[i] == s[i] as int
  {
    if s == [] then [] else [s[0] as int] + Bytes(s[1..])
  }

  /** `s.encode('ascii')`: raises as soon as some character is not ASCII. */
  function Encode(s: string): (r: Result<seq<Byte>>)
    ensures r.Ok? <==> IsAscii(s)
    ensures r.Err? ==> r.error == EncodingError
  {
    if IsAscii(s) then Ok(Bytes(s)) else Err(EncodingError)
  }

  /** `bs.decode('ascii')` for bytes below 128. */
  function Decode(bs: seq<Byte>): (s: string)
    requires forall i :: 0 <= i < |bs| ==> bs[i] < 128
  {
    seq(|bs|, i requires 0 <= i < |bs| => bs[i] as char)
  }

  /** Decoding undoes encoding, so two texts with the same bytes are equal. */
  lemma DecodeBytes(s: string)
    requires IsAscii(s)
    ensures forall i :: 0 <= i < |Bytes(s)| ==> Bytes(s)[i] < 128
    ensures Decode(Bytes(s)) == s
  {
  }
}
