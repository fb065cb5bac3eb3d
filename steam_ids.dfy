/** utils.py's conversions between a 32-bit account id and a 64-bit Steam id,
    both passed around as decimal text. */
module SteamIds {
  import opened Wrappers
  import opened Arith
  import opened BigEndian
  import opened Decimal

  /** The upper half of every individual Steam id (universe 1, type 1, instance 1). */
  const SteamIdHigh: nat := 0x1100001

  /** `0x1100001 << 32`, the Steam id of account 0. */
  const SteamIdBase: nat := 76_561_197_960_265_728

  lemma BaseIsHighHalf()
    ensures SteamIdBase == SteamIdHigh * U32Limit
  {
  }

  /** `n.to_bytes(width, byteorder='big')`: OverflowError for a negative n or
      one that needs more than `width` bytes. */
  function ToBytes(n: int, width: nat): (r: Result<seq<Byte>>)
    ensures r.Ok? <==> 0 <= n < Pow(256, width)
    ensures r.Err? ==> r.error == OverflowError
    ensures r.Ok? ==> |r.value| == width && Decode(r.value) == n
    ensures r.Ok? ==> r.value == Encode(n, width)
  {
    if 0 <= n < Pow(256, width) then
      DecodeEncode(n, width);
      Ok(Encode(n, width))
    else
      Err(OverflowError)
  }

  /** Eight bytes made of the high half 0x1100001 and a 32-bit account id
      read back as `76561197960265728 + account id`. */
  lemma SteamIdLayout(n: nat)
    requires n < U32Limit
    ensures SteamIdHigh < Pow(256, 4) && n < Pow(256, 4)
    ensures Decode(Encode(SteamIdHigh, 4) + Encode(n, 4)) == SteamIdBase + n
  {
    WidthLimits();
    BaseIsHighHalf();
    var hi, lo := Encode(SteamIdHigh, 4), Encode(n, 4);
    DecodeEncode(SteamIdHigh, 4);
    DecodeEncode(n, 4);
    DecodeAppend(hi, lo);
    assert Decode(hi + lo) == SteamIdHigh * U32Limit + n;
  }

  /** The numeric core of `account_id_to_steam_id`: `int.to_bytes(4)` of the
      account id behind the four bytes of 0x1100001, unpacked as '>Q'. */
  function SteamIdOf(accountId: int): (r: Result<nat>)
    ensures r.Ok? <==> 0 <= accountId < U32Limit
    ensures r.Err? ==> r.error == OverflowError
    ensures r.Ok? ==> r.value == SteamIdBase + accountId
  {
    WidthLimits();
    BaseIsHighHalf();
    match ToBytes(accountId, 4)
    case Err(e) => Err(e)
    case Ok(firstBytes) =>
      var lastBytes := Encode(SteamIdHigh, 4);
      SteamIdLayout(accountId);
      Ok(Decode(lastBytes + firstBytes))
  }

  /** utils.py's `account_id_to_steam_id`: the decimal text of
      `76561197960265728 + account id`. Text that is not an integer raises
      ValueError, and an id outside 0 .. 2^32 - 1 raises OverflowError. */
  function AccountIdToSteamId(accountId: string): (r: Result<string>)
    ensures match Parse(accountId)
      case Err(_) => r == Err(ValueError)
      case Ok(n) =>
        if 0 <= n < U32Limit then r == Ok(Show(SteamIdBase + n)) else r == Err(OverflowError)
  {
    match Parse(accountId)
    case Err(e) => Err(e)
    case Ok(n) =>
      match SteamIdOf(n)
      case Err(e) => Err(e)
      case Ok(steamId) => Ok(Show(steamId))
  }

  /** The numeric core of `steam_id_to_account_id`: the last four of the
      eight big-endian bytes, unpacked as '>L'; this is the id modulo 2^32. */
  function AccountIdOf(steamId: int): (r: Result<nat>)
    ensures r.Ok? <==> 0 <= steamId < U64Limit
    ensures r.Err? ==> r.error == OverflowError
    ensures r.Ok? ==> r.value == steamId % U32Limit
  {
    WidthLimits();
    BaseIsHighHalf();
    match ToBytes(steamId, 8)
    case Err(e) => Err(e)
    case Ok(bytes) =>
      var low := bytes[4..];
      assert bytes == bytes[..4] + low;
      DecodeAppend(bytes[..4], low);
      DivModUnique(steamId, U32Limit, Decode(bytes[..4]), Decode(low));
      Ok(Decode(low))
  }

  /** utils.py's `steam_id_to_account_id`: the decimal text of the Steam id
      modulo 2^32. Text that is not an integer raises ValueError; an id
      outside 0 .. 2^64 - 1 raises OverflowError. */
  function SteamIdToAccountId(steamId: string): (r: Result<string>)
    ensures match Parse(steamId)
      case Err(_) => r == Err(ValueError)
      case Ok(n) =>
        if 0 <= n < U64Limit then r == Ok(Show(n % U32Limit)) else r == Err(OverflowError)
  {
    match Parse(steamId)
    case Err(e) => Err(e)
    case Ok(n) =>
      match AccountIdOf(n)
      case Err(e) => Err(e)
      case Ok(accountId) => Ok(Show(accountId))
  }

  /** Converting an account id to a Steam id and back gives `str(int(a))`. */
  lemma AccountIdRoundTrip(accountId: string)
    requires Parse(accountId).Ok? && 0 <= Parse(accountId).value < U32Limit
    ensures AccountIdToSteamId(accountId).Ok?
    ensures SteamIdToAccountId(AccountIdToSteamId(accountId).value) == Ok(Show(Parse(accountId).value))
  {
    var n := Parse(accountId).value;
    ParseShow(SteamIdBase + n);
    WidthLimits();
    BaseIsHighHalf();
    DivModUnique(SteamIdBase + n, U32Limit, SteamIdHigh, n);
  }
}
