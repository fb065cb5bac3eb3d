/** The Steam mobile-authenticator derivations of guard.py: the five-character
    one-time code, the signed confirmation key and the pseudo device id.

    HMAC-SHA1, SHA-1 and base64 are library calls whose internals are not part
    of this model; they are given as a `Primitives` value of functions that are
    only known to produce outputs of the documented shape. */
module Guard {
  import opened Wrappers
  import opened Arith
  import opened BigEndian
  import Ascii

  predicate IsLowerHex(c: char)
  {
    '0' <= c <= '9' || 'a' <= c <= 'f'
  }

  /** What `hashlib.sha1(...).hexdigest()` returns: 40 lowercase hex digits. */
  predicate IsHexDigest(h: string)
  {
    |h| == 40 && forall i :: 0 <= i < 40 ==> IsLowerHex(h[i])
  }

  datatype Primitives = Primitives(
    hmacSha1: (seq<Byte>, seq<Byte>) -> seq<Byte>,  // hmac.new(key, msg, sha1).digest()
    sha1HexDigest: seq<Byte> -> string,            // hashlib.sha1(data).hexdigest()
    b64Encode: seq<Byte> -> seq<Byte>,             // base64.b64encode(data)
    b64Decode: string -> Option<seq<Byte>>)        // base64.b64decode(text); None when it raises
  {
    ghost predicate Valid()
    {
      && (forall key, msg :: |hmacSha1(key, msg)| == 20)
      && (forall data :: IsHexDigest(sha1HexDigest(data)))
      && (forall data :: |data| == 20 ==> |b64Encode(data)| == 28)
    }
  }

  /** `struct.pack('>Q', n)`: eight big-endian bytes, or struct.error when n
      is negative or does not fit in 64 bits. */
  function PackU64(n: int): (r: Result<seq<Byte>>)
    ensures r.Ok? <==> 0 <= n < U64Limit
    ensures r.Err? ==> r.error == StructError
    ensures r.Ok? ==> |r.value| == 8 && Decode(r.value) == n
  {
    WidthLimits();
    if 0 <= n < U64Limit then
      DecodeEncode(n, 8);
      Ok(Encode(n, 8))
    else
      Err(StructError)
  }

  /** Length of a TOTP time step, in seconds. */
  const TimeStep := 30

  /** The HMAC message of the one-time code: the 30-second window number
      `timestamp // 30`, packed as an unsigned 64-bit big-endian integer.
      (Dafny's `/` rounds down for a positive divisor, as Python's `//` does.) */
  function TimeBuffer(timestamp: int): (r: Result<seq<Byte>>)
    ensures r.Ok? <==> 0 <= timestamp / TimeStep < U64Limit
    ensures r.Ok? ==> |r.value| == 8 && Decode(r.value) == timestamp / TimeStep
    ensures r.Err? ==> r.error == StructError
  {
    PackU64(timestamp / TimeStep)
  }

  /** Dynamic truncation, first half: the low nibble of the last digest byte
      (`ord(time_hmac[19:20]) & 0xf`). The four bytes read from there always
      lie inside the 20-byte digest. */
  function TruncationOffset(digest: seq<Byte>): (begin: nat)
    requires |digest| == 20
    ensures begin == digest[19] % 16
    ensures begin < 16 && begin + 4 <= |digest|
  {
    BitAndLowMask(digest[19], 4);
    BitAnd(digest[19], 0xf)
  }

  /** 2^31: `& 0x7fffffff` keeps the value below it. */
  const SignBit: nat := 0x8000_0000

  lemma SignBitIsPow()
    ensures SignBit == Pow(2, 31)
  {
    assert Pow(2, 8) == 0x100;
    assert Pow(2, 7) == 0x80;
    PowAdd(2, 8, 8);
    PowAdd(2, 16, 8);
    PowAdd(2, 24, 7);
  }

  /** Dynamic truncation, second half: the four bytes at the offset read as a
      big-endian unsigned 32-bit integer, with the sign bit cleared
      (`& 0x7fffffff`). */
  function FullCode(digest: seq<Byte>): (code: nat)
    requires |digest| == 20
    ensures code < SignBit
    ensures code == Decode(digest[TruncationOffset(digest)..TruncationOffset(digest) + 4]) % SignBit
  {
    var begin := TruncationOffset(digest);
    var word := Decode(digest[begin..begin + 4]);
    SignBitIsPow();
    BitAndLowMask(word, 31);
    BitAnd(word, 0x7fff_ffff)
  }

  /** The 26 code symbols; similar-looking letters and digits are left out. */
  const CodeChars := "23456789BCDFGHJKMNPQRTVWXY"

  /** `len(chars)`: the base of the code's numeral system. */
  const Radix: nat := 26

  lemma RadixIsAlphabetSize()
    ensures |CodeChars| == Radix
  {
  }

  /** The first k base-26 digits of n over CodeChars, least significant first. */
  function CodeDigits(n: nat, k: nat): (code: string)
    ensures |code| == k
  {
    if k == 0 then "" else [CodeChars[n % Radix]] + CodeDigits(n / Radix, k - 1)
  }

  /** A well-formed one-time code: five symbols of the alphabet. */
  predicate IsCode(code: string)
  {
    |code| == CodeLength && forall i :: 0 <= i < |code| ==> code[i] in CodeChars
  }

  /** Every symbol of a code comes from the 26-symbol alphabet. */
  lemma {:induction false} CodeDigitsInAlphabet(n: nat, k: nat)
    ensures forall i :: 0 <= i < k ==> CodeDigits(n, k)[i] in CodeChars
  {
    if k > 0 {
      CodeDigitsInAlphabet(n / Radix, k - 1);
      assert CodeDigits(n, k) == [CodeChars[n % Radix]] + CodeDigits(n / Radix, k - 1);
    }
  }

  /** Number of symbols in a one-time code. */
  const CodeLength: nat := 5

  /** `generate_one_time_code`, as a function of its inputs. */
  function OneTimeCode(p: Primitives, sharedSecret: string, timestamp: int): (r: Result<string>)
    requires p.Valid()
  {
    match TimeBuffer(timestamp)
    case Err(e) => Err(e)
    case Ok(buffer) =>
      match p.b64Decode(sharedSecret)
      case None => Err(ConfigError)
      case Some(key) => Ok(CodeDigits(FullCode(p.hmacSha1(key, buffer)), CodeLength))
  }

  /** guard.py's `generate_one_time_code`: pack the time window, HMAC it with
      the decoded shared secret, truncate the digest, then emit five base-26
      symbols by repeated `divmod`. */
  method GenerateOneTimeCode(p: Primitives, sharedSecret: string, timestamp: int) returns (r: Result<string>)
    requires p.Valid()
    ensures r == OneTimeCode(p, sharedSecret, timestamp)
    ensures r.Ok? ==> IsCode(r.value)
    ensures r.Err? <==> !(0 <= timestamp / TimeStep < U64Limit) || p.b64Decode(sharedSecret).None?
    ensures r.Err? ==> r.error == if 0 <= timestamp / TimeStep < U64Limit then ConfigError else StructError
  {
    var packed := TimeBuffer(timestamp);
    if packed.Err? {
      return Err(packed.error);
    }
    var key := p.b64Decode(sharedSecret);
    if key.None? {
      return Err(ConfigError);
    }
    var timeHmac := p.hmacSha1(key.value, packed.value);
    var fullCode: nat := FullCode(timeHmac);
    ghost var truncated := fullCode;
    var code := "";
    var i := 0;
    while i < CodeLength
      invariant 0 <= i <= CodeLength
      invariant code + CodeDigits(fullCode, CodeLength - i) == CodeDigits(truncated, CodeLength)
    {
      var digit := fullCode % Radix;
      ghost var rest := CodeDigits(fullCode / Radix, CodeLength - i - 1);
      assert CodeDigits(fullCode, CodeLength - i) == [CodeChars[digit]] + rest;
      assert code + [CodeChars[digit]] + rest == code + ([CodeChars[digit]] + rest);
      fullCode := fullCode / Radix;
      code := code + [CodeChars[digit]];
      i := i + 1;
    }
    assert code == CodeDigits(truncated, CodeLength);
    assert IsCode(code) by {
      CodeDigitsInAlphabet(truncated, CodeLength);
    }
    return Ok(code);
  }

  /** The alphabet is listed in ascending character order ... */
  lemma AlphabetAscending(i: nat)
    requires i + 1 < Radix
    ensures CodeChars[i] < CodeChars[i + 1]
  {
  }

  /** ... so no symbol appears twice. */
  lemma {:induction false} AlphabetIncreasing(i: nat, j: nat)
    requires i < j < Radix
    ensures CodeChars[i] < CodeChars[j]
  {
    AlphabetAscending(j - 1);
    if i < j - 1 {
      AlphabetIncreasing(i, j - 1);
    }
  }

  lemma AlphabetDistinct(i: nat, j: nat)
    requires i < Radix && j < Radix && CodeChars[i] == CodeChars[j]
    ensures i == j
  {
    if i < j {
      AlphabetIncreasing(i, j);
    } else if j < i {
      AlphabetIncreasing(j, i);
    }
  }

  /** Symbol j of the code is digit j of n in base 26: the least significant
      digit comes first. */
  lemma {:induction false} CodeDigitAt(n: nat, k: nat, j: nat)
    requires j < k
    ensures CodeDigits(n, k)[j] == CodeChars[n / Pow(Radix, j) % Radix]
  {
    assert CodeDigits(n, k) == [CodeChars[n % Radix]] + CodeDigits(n / Radix, k - 1);
    if j > 0 {
      CodeDigitAt(n / Radix, k - 1, j - 1);
      DivDiv(n, Radix, Pow(Radix, j - 1));
      assert Pow(Radix, j) == Radix * Pow(Radix, j - 1);
    }
  }

  /** Two numbers get the same k-symbol code exactly when they agree
      modulo 26^k. */
  lemma {:induction false} CodeDigitsEqualIff(a: nat, b: nat, k: nat)
    ensures CodeDigits(a, k) == CodeDigits(b, k) <==> a % Pow(Radix, k) == b % Pow(Radix, k)
  {
    if k == 0 {
      assert Pow(Radix, k) == 1;
    } else {
      var m := Pow(Radix, k - 1);
      assert Pow(Radix, k) == Radix * m;
      CodeDigitsEqualIff(a / Radix, b / Radix, k - 1);
      DivDiv(a, Radix, m);
      DivDiv(b, Radix, m);
      var ca, cb := CodeDigits(a, k), CodeDigits(b, k);
      assert ca == [CodeChars[a % Radix]] + CodeDigits(a / Radix, k - 1);
      assert cb == [CodeChars[b % Radix]] + CodeDigits(b / Radix, k - 1);
      if ca == cb {
        assert ca[0] == cb[0];
        AlphabetDistinct(a % Radix, b % Radix);
        assert ca[1..] == cb[1..];
      }
      if a % (Radix * m) == b % (Radix * m) {
        var x := a % (Radix * m);
        DivModUnique(x, Radix, a / Radix % m, a % Radix);
        DivModUnique(x, Radix, b / Radix % m, b % Radix);
      }
    }
  }

  /** 26^5: one-time codes repeat with this period in the truncated value. */
  const CodePeriod: nat := 11_881_376

  lemma CodePeriodIsPow()
    ensures CodePeriod == Pow(Radix, CodeLength)
  {
  }

  /** The one-time code, symbol by symbol: symbol j is base-26 digit j of the
      truncated HMAC of the packed time window under the decoded secret. */
  lemma OneTimeCodeDigits(p: Primitives, sharedSecret: string, timestamp: int, j: nat)
    requires p.Valid() && j < CodeLength
    requires 0 <= timestamp / TimeStep < U64Limit && p.b64Decode(sharedSecret).Some?
    ensures
      var digest := p.hmacSha1(p.b64Decode(sharedSecret).value, Encode(timestamp / TimeStep, 8));
      OneTimeCode(p, sharedSecret, timestamp).Ok? &&
      OneTimeCode(p, sharedSecret, timestamp).value[j] == CodeChars[FullCode(digest) / Pow(Radix, j) % Radix]
  {
    var digest := p.hmacSha1(p.b64Decode(sharedSecret).value, Encode(timestamp / TimeStep, 8));
    CodeDigitAt(FullCode(digest), CodeLength, j);
  }

  /** Two truncated values give the same code exactly when they are congruent
      modulo 26^5; since 26^5 < 2^31, distinct windows can share a code. */
  lemma OneTimeCodeCollisions(a: nat, b: nat)
    ensures CodeDigits(a, CodeLength) == CodeDigits(b, CodeLength) <==> a % CodePeriod == b % CodePeriod
    ensures CodePeriod < SignBit
  {
    CodePeriodIsPow();
    CodeDigitsEqualIff(a, b, CodeLength);
  }

  /** Every timestamp of one 30-second window gets the same code. */
  lemma WindowStability(p: Primitives, sharedSecret: string, t1: int, t2: int)
    requires p.Valid()
    requires t1 / TimeStep == t2 / TimeStep
    ensures OneTimeCode(p, sharedSecret, t1) == OneTimeCode(p, sharedSecret, t2)
  {
  }

  /** The time buffer reads back as the window number. */
  lemma TimeBufferRoundTrip(timestamp: int)
    requires 0 <= timestamp / TimeStep < U64Limit
    ensures TimeBuffer(timestamp).Ok?
    ensures TimeBuffer(timestamp).value == Encode(timestamp / TimeStep, 8)
  {
    EncodeDecode(TimeBuffer(timestamp).value);
  }

  /** The message signed by `generate_confirmation_key`: the timestamp packed
      as an unsigned 64-bit big-endian integer, then the ASCII bytes of the tag.
      The pack is evaluated first, so an out-of-range timestamp is reported
      before a non-ASCII tag. */
  function ConfirmationMessage(tag: string, timestamp: int): (r: Result<seq<Byte>>)
    ensures r.Ok? <==> 0 <= timestamp < U64Limit && Ascii.IsAscii(tag)
    ensures r.Err? ==> r.error == if 0 <= timestamp < U64Limit then EncodingError else StructError
    ensures r.Ok? ==> |r.value| == 8 + |tag|
    ensures r.Ok? ==> Decode(r.value[..8]) == timestamp && r.value[8..] == Ascii.Bytes(tag)
  {
    match PackU64(timestamp)
    case Err(e) => Err(e)
    case Ok(packed) =>
      match Ascii.Encode(tag)
      case Err(e) => Err(e)
      case Ok(tagBytes) =>
        assert (packed + tagBytes)[..8] == packed && (packed + tagBytes)[8..] == tagBytes;
        Ok(packed + tagBytes)
  }

  /** Distinct (timestamp, tag) pairs are signed as distinct messages. */
  lemma ConfirmationMessageInjective(tag1: string, t1: int, tag2: string, t2: int)
    requires ConfirmationMessage(tag1, t1).Ok? && ConfirmationMessage(tag2, t2).Ok?
    requires ConfirmationMessage(tag1, t1) == ConfirmationMessage(tag2, t2)
    ensures t1 == t2 && tag1 == tag2
  {
    var m := ConfirmationMessage(tag1, t1).value;
    Ascii.DecodeBytes(tag1);
    Ascii.DecodeBytes(tag2);
    assert Ascii.Decode(m[8..]) == tag1 && Ascii.Decode(m[8..]) == tag2;
  }

  /** guard.py's `generate_confirmation_key`: the base64 text (as bytes) of the
      HMAC-SHA1 of the confirmation message under the decoded identity secret.
      The secret is decoded after the message is built, so message errors come
      first. */
  function GenerateConfirmationKey(p: Primitives, identitySecret: string, tag: string, timestamp: int): (r: Result<seq<Byte>>)
    requires p.Valid()
    ensures r.Ok? <==> ConfirmationMessage(tag, timestamp).Ok? && p.b64Decode(identitySecret).Some?
    ensures r.Err? && ConfirmationMessage(tag, timestamp).Ok? ==> r.error == ConfigError
    ensures ConfirmationMessage(tag, timestamp).Err? ==> r == Err(ConfirmationMessage(tag, timestamp).error)
    ensures r.Ok? ==> |r.value| == 28
  {
    match ConfirmationMessage(tag, timestamp)
    case Err(e) => Err(e)
    case Ok(buffer) =>
      match p.b64Decode(identitySecret)
      case None => Err(ConfigError)
      case Some(key) => Ok(p.b64Encode(p.hmacSha1(key, buffer)))
  }

  /** What is signed, byte by byte: the eight-byte big-endian timestamp
      followed by the tag's character codes. */
  lemma ConfirmationKeySignsTimestampAndTag(p: Primitives, identitySecret: string, tag: string, timestamp: int)
    requires p.Valid()
    requires 0 <= timestamp < U64Limit && Ascii.IsAscii(tag) && p.b64Decode(identitySecret).Some?
    ensures GenerateConfirmationKey(p, identitySecret, tag, timestamp)
         == Ok(p.b64Encode(p.hmacSha1(p.b64Decode(identitySecret).value, Encode(timestamp, 8) + Ascii.Bytes(tag))))
  {
    var m := ConfirmationMessage(tag, timestamp).value;
    EncodeDecode(m[..8]);
    assert m == m[..8] + m[8..];
  }

  /** Prefix of every device id. */
  const DeviceIdPrefix := "android:"

  /** The text with every '-' removed. */
  function RemoveHyphens(s: string): (r: string)
    ensures |r| <= |s|
  {
    if s == [] then [] else (if s[0] == '-' then [] else [s[0]]) + RemoveHyphens(s[1..])
  }

  lemma {:induction false} RemoveHyphensAppend(a: string, b: string)
    ensures RemoveHyphens(a + b) == RemoveHyphens(a) + RemoveHyphens(b)
  {
    if a != [] {
      assert (a + b)[1..] == a[1..] + b;
      RemoveHyphensAppend(a[1..], b);
    } else {
      assert a + b == b;
    }
  }

  lemma {:induction false} RemoveHyphensOfHex(s: string)
    requires forall i :: 0 <= i < |s| ==> IsLowerHex(s[i])
    ensures RemoveHyphens(s) == s
  {
    if s != [] {
      RemoveHyphensOfHex(s[1..]);
    }
  }

  lemma JoinHyphen(x: string, y: string)
    ensures RemoveHyphens(x + "-" + y) == RemoveHyphens(x) + RemoveHyphens(y)
  {
    RemoveHyphensAppend(x + "-", y);
    RemoveHyphensAppend(x, "-");
  }

  /** The first 32 hex digits grouped 8-4-4-4-12 and joined by '-'. */
  function UuidGroups(h: string): (r: string)
    requires |h| >= 32
    ensures |r| == 36
  {
    h[..8] + "-" + h[8..12] + "-" + h[12..16] + "-" + h[16..20] + "-" + h[20..32]
  }

  /** Position i of the grouping holds '-' at 8, 13, 18 and 23, and otherwise
      the digest digit shifted left by the number of hyphens before it. */
  lemma UuidGroupsAt(h: string, i: nat)
    requires |h| >= 32 && i < 36
    ensures UuidGroups(h)[i] ==
              if i < 8 then h[i]
              else if i == 8 then '-'
              else if i < 13 then h[i - 1]
              else if i == 13 then '-'
              else if i < 18 then h[i - 2]
              else if i == 18 then '-'
              else if i < 23 then h[i - 3]
              else if i == 23 then '-'
              else h[i - 4]
  {
  }

  /** guard.py's `generate_device_id`: 'android:' and the first 32 hex digits
      of the SHA-1 of the ASCII id, grouped 8-4-4-4-12 and joined by '-'. */
  function GenerateDeviceId(p: Primitives, steamId: string): (r: Result<string>)
    requires p.Valid()
    ensures r.Ok? <==> Ascii.IsAscii(steamId)
    ensures r.Err? ==> r.error == EncodingError
    ensures r.Ok? ==> |r.value| == 44 && r.value[..8] == DeviceIdPrefix
    ensures r.Ok? ==> forall i :: 8 <= i < 44 ==> (r.value[i] == '-' <==> i == 16 || i == 21 || i == 26 || i == 31)
  {
    match Ascii.Encode(steamId)
    case Err(e) => Err(e)
    case Ok(data) =>
      var h := p.sha1HexDigest(data);
      var id := DeviceIdPrefix + UuidGroups(h);
      assert forall i :: 8 <= i < 44 ==> (id[i] == '-' <==> i == 16 || i == 21 || i == 26 || i == 31) by {
        forall i | 8 <= i < 44
          ensures id[i] == '-' <==> i == 16 || i == 21 || i == 26 || i == 31
        {
          UuidGroupsAt(h, i - 8);
        }
      }
      Ok(id)
  }

  /** Taking the hyphens out of the grouping gives the 32 digits back. */
  lemma UuidGroupsDigits(h: string)
    requires IsHexDigest(h)
    ensures RemoveHyphens(UuidGroups(h)) == h[..32]
  {
    var g1, g2, g3, g4, g5 := h[..8], h[8..12], h[12..16], h[16..20], h[20..32];
    JoinHyphen(g1 + "-" + g2 + "-" + g3 + "-" + g4, g5);
    JoinHyphen(g1 + "-" + g2 + "-" + g3, g4);
    JoinHyphen(g1 + "-" + g2, g3);
    JoinHyphen(g1, g2);
    RemoveHyphensOfHex(g1);
    RemoveHyphensOfHex(g2);
    RemoveHyphensOfHex(g3);
    RemoveHyphensOfHex(g4);
    RemoveHyphensOfHex(g5);
    assert h[..32] == g1 + g2 + g3 + g4 + g5;
  }

  /** Taking off the prefix and the hyphens leaves exactly the first 32 hex
      digits of the digest; the last 8 are dropped. */
  lemma DeviceIdDigits(p: Primitives, steamId: string)
    requires p.Valid() && Ascii.IsAscii(steamId)
    ensures GenerateDeviceId(p, steamId).Ok?
    ensures RemoveHyphens(GenerateDeviceId(p, steamId).value[8..]) == p.sha1HexDigest(Ascii.Bytes(steamId))[..32]
  {
    var h := p.sha1HexDigest(Ascii.Bytes(steamId));
    assert GenerateDeviceId(p, steamId).value[8..] == UuidGroups(h);
    UuidGroupsDigits(h);
  }

  /** Every non-hyphen character after the prefix is a lowercase hex digit,
      whatever the account id. */
  lemma DeviceIdIsHex(p: Primitives, steamId: string)
    requires p.Valid() && Ascii.IsAscii(steamId)
    ensures GenerateDeviceId(p, steamId).Ok?
    ensures forall i :: 8 <= i < 44 && GenerateDeviceId(p, steamId).value[i] != '-' ==> IsLowerHex(GenerateDeviceId(p, steamId).value[i])
  {
    var h := p.sha1HexDigest(Ascii.Bytes(steamId));
    var id := GenerateDeviceId(p, steamId).value;
    forall i | 8 <= i < 44 && id[i] != '-'
      ensures IsLowerHex(id[i])
    {
      UuidGroupsAt(h, i - 8);
    }
  }
}
