# steampy guard and trading helpers, in Dafny

This project models the self-contained core of the steampy library, the
parts of a Steam client that do not touch the network:

- `guard.py`, the Steam mobile authenticator's derivations:
  - the five-symbol one-time login code (HOTP-style dynamic truncation of an
    HMAC-SHA1 of the 30-second time window, written out in a 26-symbol
    alphabet by repeated `divmod`);
  - the base64 confirmation key, an HMAC-SHA1 over a packed timestamp and a tag;
  - the `android:` pseudo device id, built from a SHA-1 hex digest.
- `utils.py`:
  - the `GameOptions` enumeration and its lookup by app id;
  - `text_between`;
  - the two conversions between a 32-bit account id and a 64-bit Steam id;
  - the description key of an item;
  - `merge_items`, which joins trade items with their description dicts and
    updates those dicts in place;
  - the three functions that apply it to an inventory response, to one trade
    offer and to a trade-offers response;
  - `convert_edomain_to_imap`.

Python's integers, strings, byte strings and exceptions are written out
explicitly:
- `struct.pack`/`struct.unpack` and `int.to_bytes` are big-endian byte
  sequences of a fixed width (`BigEndian`), with range errors as `Err` values.
- `int(text)` and `str(n)` are a parser and printer of decimal numerals (`Decimal`).
- Every exception a modelled path can raise is a case of `Wrappers.Error`.
- JSON values are the `ItemMerge.Value` datatype.

The dicts the source mutates in place are modelled as objects:
- description dicts are instances of `ItemMerge.Description`;
- trade offers are instances of `Offers.Offer`;
- the offers response is an `OfferResponses.OffersResponse`.

Each method that changes them is proved against a function over a snapshot
of their fields (`Heap`, `OfferState`, `ResponseState`). The properties are
proved about those functions.

HMAC-SHA1, SHA-1 and base64 are library calls. They are passed in as a
`Guard.Primitives` value, and only their output shapes are assumed
(`Primitives.Valid`): a 20-byte MAC, a 40-digit lowercase hex digest, and a
28-byte base64 text of 20 bytes.

The modules follow the source:

| file | models |
|---|---|
| `guard.dfy` | `guard.py` |
| `game_options.dfy` | `GameOptions` |
| `text.dfy` | `text_between` |
| `steam_ids.dfy` | the id conversions |
| `item_merge.dfy` | `get_description_key`, `merge_items` |
| `offers.dfy` | `merge_items_with_descriptions_from_offer`, and the `list(map(...))` over a list of offers |
| `offers_response.dfy` | `merge_items_with_descriptions_from_offers` |
| `inventory.dfy` | `merge_items_with_descriptions_from_inventory`, including `dict(list)` |
| `email_hosts.dfy` | `convert_edomain_to_imap` |

`wrappers.dfy`, `arith.dfy`, `big_endian.dfy`, `ascii.dfy` and `decimal.dfy`
hold the shared Python semantics listed above.

## Model

| member | source | states |
|---|---|---|
| BigEndian.DecodeEncode | guard.py:16 | unpacking the big-endian bytes that `struct.pack` produces for n gives n back |
| BigEndian.EncodeDecode | utils.py:96 | packing the value of a byte string at its own width gives the same bytes back |
| BigEndian.DecodeAppend | utils.py:92 | the value of `a + b` is the value of `a` shifted left by `len(b)` bytes, plus the value of `b` |
| BigEndian.EncodeInjective | guard.py:16 | two numbers below 256^w with the same w-byte encoding are equal |
| Ascii.Encode | guard.py:31 | `str.encode('ascii')` succeeds exactly on all-ASCII text, and otherwise raises the encoding error |
| Ascii.DecodeBytes | guard.py:31 | decoding the ASCII bytes of a text gives the text back |
| Guard.PackU64 | guard.py:16 | `struct.pack('>Q', n)` succeeds iff 0 <= n < 2^64, gives 8 bytes that read back as n, and otherwise raises struct.error |
| Guard.TimeBuffer | guard.py:16 | the HMAC message is the 8-byte window number `timestamp // 30`; it raises struct.error exactly when that number is out of range |
| Guard.TimeBufferRoundTrip | guard.py:16 | an in-range time buffer is exactly the 8-byte big-endian encoding of the window number |
| Guard.WindowStability | guard.py:15-19 | two timestamps in the same 30-second window get the same code, or the same error |
| Guard.TruncationOffset | guard.py:18 | the offset is the low nibble of digest byte 19, so the 4 bytes read from it lie inside the 20-byte digest |
| Guard.FullCode | guard.py:19 | the truncated value is the 4 bytes at the offset, read big-endian, modulo 2^31, so it is below 2^31 |
| Guard.CodeDigitsInAlphabet | guard.py:20-25 | every symbol of a code is one of the 26 code characters |
| Guard.AlphabetDistinct | guard.py:20 | no symbol occurs twice in the alphabet, so a symbol determines its digit |
| Guard.CodeDigitAt | guard.py:23-25 | symbol j of the code is base-26 digit j of the value, least significant first |
| Guard.CodeDigitsEqualIff | guard.py:23-25 | two values get the same k-symbol code iff they are congruent modulo 26^k |
| Guard.GenerateOneTimeCode | guard.py:15-27 | the loop's result is a 5-symbol code over the alphabet (the function `OneTimeCode` of the inputs); it raises only for a window number outside 64 bits (struct.error) or an undecodable secret |
| Guard.OneTimeCodeDigits | guard.py:15-27 | symbol j of the one-time code is digit j in base 26 of the truncated HMAC of the packed window under the decoded secret |
| Guard.OneTimeCodeCollisions | guard.py:19-25 | truncated values give the same code iff they agree modulo 26^5, which is below 2^31, so distinct windows can share a code |
| Guard.ConfirmationMessage | guard.py:31 | the signed message is the 8-byte timestamp followed by the tag's ASCII bytes; it succeeds iff the timestamp fits 64 bits and the tag is ASCII, with struct.error checked first |
| Guard.ConfirmationMessageInjective | guard.py:31 | distinct (timestamp, tag) pairs are signed as distinct messages |
| Guard.GenerateConfirmationKey | guard.py:30-32 | the key exists iff the message can be built and the secret decodes; it is the 28-byte base64 of a 20-byte HMAC; a message that cannot be built raises its own error (struct.error, else the encoding error) before the secret is decoded, and otherwise an undecodable secret raises the configuration error |
| Guard.ConfirmationKeySignsTimestampAndTag | guard.py:30-32 | the key is base64(HMAC-SHA1(decoded secret, 8-byte big-endian timestamp + ASCII tag)) |
| Guard.UuidGroupsAt | guard.py:38-42 | character i of the 8-4-4-4-12 grouping is a hyphen at 8, 13, 18 and 23, and otherwise the digest digit shifted past the hyphens before it |
| Guard.GenerateDeviceId | guard.py:36-42 | the id exists iff the Steam id is ASCII; it has 44 characters, starts with `android:`, and has hyphens exactly at positions 16, 21, 26 and 31 |
| Guard.UuidGroupsDigits | guard.py:37-42 | removing the hyphens from the grouping gives the first 32 hex digits of the digest |
| Guard.DeviceIdDigits | guard.py:36-42 | after the prefix, the id without hyphens is exactly the first 32 digits of the SHA-1 hex digest of the ASCII Steam id |
| Guard.DeviceIdIsHex | guard.py:37-42 | every character after the prefix that is not a hyphen is a lowercase hex digit |
| GameOptions.MembersInOrder | utils.py:11-19 | each member sits at its declaration position in the iteration order |
| GameOptions.FirstFrom | utils.py:27-29 | the search returns the first member from position i whose app id matches, and none when no later member matches |
| GameOptions.AppIdToOption | utils.py:25-30 | the loop returns the first matching member, or raises the "not supported" exception for the app id |
| GameOptions.OptionForIsFirstMatch | utils.py:26-30 | the result has the given app id and no earlier member has it; it raises exactly when no member has that app id |
| GameOptions.SharedAppIdYieldsFirst | utils.py:15-29 | app id 753 yields GIFTS, and no app id ever yields CARDS |
| Text.Find | utils.py:81 | `text.index(pat, start)`: the least position at or after `start` where `pat` occurs, and none exactly when it occurs nowhere there |
| Text.TextBetween | utils.py:79-86 | an absent `begin` raises UnboundLocalError, because the handler only logs the ValueError; an `end` absent after the first `begin` raises ValueError; each holds in both directions; the call succeeds exactly when both are found, and then returns the text from just after the first `begin` up to the first `end` at or after that point |
| Text.TextBetweenSlice | utils.py:79-86 | the result is the text from just after the first `begin` up to the first `end` at or after that point |
| Text.TextBetweenExcludesEnd | utils.py:85-86 | with a non-empty `end`, the extracted text never contains `end` |
| Decimal.Show | utils.py:92 | `str(n)` is a non-empty digit string without a leading zero |
| Decimal.Parse | utils.py:90 | `int(text)` raises only ValueError |
| Decimal.ParseShow | utils.py:90-92 | `int(str(n)) == n` for n >= 0 |
| Decimal.ShowInjective | utils.py:92 | distinct numbers have distinct decimal numerals |
| SteamIds.ToBytes | utils.py:90 | `n.to_bytes(w, 'big')` succeeds iff 0 <= n < 256^w, giving w bytes that read back as n; otherwise it raises OverflowError |
| SteamIds.SteamIdLayout | utils.py:91-92 | `0x1100001` in the high 4 bytes and an account id in the low 4 bytes read back as 76561197960265728 + account id |
| SteamIds.SteamIdOf | utils.py:90-92 | the packed Steam id is 76561197960265728 + account id, for account ids in 0 .. 2^32-1 and OverflowError outside |
| SteamIds.AccountIdToSteamId | utils.py:89-92 | unparsable text raises ValueError; an out-of-range id raises OverflowError; otherwise the result is the decimal text of 76561197960265728 + id |
| SteamIds.AccountIdOf | utils.py:96 | the last 4 of the 8 big-endian bytes are the Steam id modulo 2^32; ids outside 64 bits raise OverflowError |
| SteamIds.SteamIdToAccountId | utils.py:95-96 | unparsable text raises ValueError; ids outside 0 .. 2^64-1 raise OverflowError; otherwise the result is the decimal text of the id modulo 2^32 |
| SteamIds.AccountIdRoundTrip | utils.py:89-96 | converting an account id to a Steam id and back gives `str(int(account_id))` |
| ItemMerge.GetDescriptionKey | utils.py:143-144 | a key exists exactly for a dict with string `classid` and `instanceid`, and it is `classid + "_" + instanceid`; a non-dict raises TypeError; for a dict, a missing `classid` raises KeyError, then a non-string one TypeError, then a missing `instanceid` KeyError, then a non-string one TypeError |
| ItemMerge.DescriptionKeySplit | utils.py:144 | for any dict whose class id has no `_`, the key is the class id, `_`, then the instance id, and both can be read back |
| ItemMerge.DescriptionKeyInjective | utils.py:144 | for class ids without `_`, distinct (class id, instance id) pairs give distinct keys |
| ItemMerge.ItemEffect | utils.py:133-139 | one loop iteration writes only to a description of the dict; a completed one makes exactly the three assignments `contextid`, `id`, `amount` |
| ItemMerge.ItemEffectMeaning | utils.py:133-139 | an iteration completes iff the item is mergeable; a missing description raises KeyError for its key and writes nothing; a completed one writes the item's context id, id and amount to the named description |
| ItemMerge.AssignWrites | utils.py:136-138 | the assignments update the dict at `contextid` and `id`, then at `amount` |
| ItemMerge.MergeItem | utils.py:133-139 | one iteration in place: its result, its target and the new description fields are those of `ItemEffect` |
| ItemMerge.MergeItems | utils.py:130-140 | the loop returns what `Merge` specifies and leaves the descriptions as `Merge` specifies |
| ItemMerge.RunError | utils.py:132-139 | when some item raises, the loop raises, and it raises what the first raising item raises |
| ItemMerge.RunKeys | utils.py:131-140 | when every item completes, the result's keys are the earlier keys plus all item ids, and earlier keys no item has keep their value |
| ItemMerge.RunLast | utils.py:139 | when every item completes, each id maps to the description of the last item with that id |
| ItemMerge.StampOverwrites | utils.py:136-138 | a later item's three assignments hide an earlier item's on the same description |
| ItemMerge.RunHeap | utils.py:136-138 | when every item completes, a description no item names is unchanged, and each named one holds the assignments of the last item naming it |
| ItemMerge.MergeErrors | utils.py:130-140 | `merge_items` succeeds iff every item is mergeable; an unknown description key after mergeable items raises KeyError for that key |
| ItemMerge.MergeResult | utils.py:130-140 | with mergeable items, the result's keys are exactly the item ids (`id`, or `assetid` when `id` is missing or falsy), and each maps to the description of the last item with that id |
| ItemMerge.MergeDescriptions | utils.py:134-138 | with mergeable items, an unnamed description is unchanged, and each named one ends with the context id, id and amount of the last item naming it, other fields as before |
| ItemMerge.SharedDescriptionAliases | utils.py:134-139 | two items naming one description map to the same dict object, whose `id` is the later item's |
| Offers.SlotItems | utils.py:123-124 | what `offer.get(key, [])` gives to iterate: a missing key or an empty container gives no items; an unsuitable value raises TypeError |
| Offers.MergeSlot | utils.py:123-124 | merging one item list in place returns and writes what `MergedSlot` specifies |
| Offers.MergedOffer | utils.py:122-127 | a successful merge leaves both item lists as merged dicts and every other entry unchanged |
| Offers.MergeOffer | utils.py:122-127 | the offer is updated in place and returned: both lists are reassigned only when both merges succeed; on an exception the offer is unchanged |
| Offers.MergedOfferEmpty | utils.py:123-126 | an offer with missing or empty item lists ends with two empty dicts, and no description changes |
| Offers.MergedOfferKeys | utils.py:122-127 | with mergeable items, the two dicts are keyed by exactly the ids of the items to give and to receive, and other entries are kept |
| Offers.MergedOfferTwice | utils.py:123 | merging an already merged, non-empty offer raises TypeError and writes nothing |
| Offers.MergedSlotKeys | utils.py:123-124 | a successful merge of one item list means every item was mergeable, and the dict it builds is keyed by exactly their ids |
| Offers.MergedOfferContents | utils.py:122-127 | a successful offer merge replaces each item list by the dict keyed by exactly the ids of the items it held, and keeps the other entries |
| Offers.MergedOfferStable | utils.py:122-127 | re-merging an offer whose lists are both merged succeeds only on two empty dicts, and then changes neither the offer nor any description |
| Offers.MergeListed | utils.py:116 | merging offer i in place advances the list's specification by exactly one step |
| Offers.MergeOfferList | utils.py:115-116 | the loop over the offers returns, and leaves offers and descriptions, as `MergedOffers` specifies |
| Offers.MergedOffersUntouched | utils.py:115-116 | offers not in the list keep their state |
| Offers.MergedOffersKeepMerged | utils.py:115-116 | an offer whose lists are both merged stays so |
| Offers.MergedOffersStable | utils.py:115-116 | when the whole list merges, an offer whose lists were both merged before ends in the same state, even when the list holds it |
| Offers.MergedOffersContents | utils.py:115-116 | when the whole list merges, every offer in it ends with both item lists replaced by dicts keyed by exactly the ids of the items it held before the call, and its other entries kept |
| Offers.MergedOffersKeepOthers | utils.py:122-127 | no offer's entries other than the two item lists ever change |
| OfferResponses.IndexFromErrors | utils.py:112 | the comprehension raises iff some description has no key, and then with the first such description's error |
| OfferResponses.IndexFromKeys | utils.py:112 | when every key can be built, the dict's keys are exactly the description keys |
| OfferResponses.IndexFromKeeps | utils.py:112 | an entry survives unless a later description has its key |
| OfferResponses.IndexFromAt | utils.py:112 | a description whose key no later description has is the one its key names |
| OfferResponses.IndexFromLast | utils.py:112 | every key names the last description with that key |
| OfferResponses.BuildIndex | utils.py:112 | the comprehension's loop returns `Index` of the descriptions |
| OfferResponses.MergeReceived | utils.py:115-116 | the received list is merged and stored (a missing one as `[]`) as `ReceivedPhase` specifies; an exception leaves the key unassigned |
| OfferResponses.MergeSent | utils.py:117-118 | the same for the sent list, as `SentPhase` specifies |
| OfferResponses.MergeLists | utils.py:113-118 | received offers first, then sent offers, with the outcome `MergedLists` specifies |
| OfferResponses.MergeOffersResponse | utils.py:111-119 | a response without `response` raises KeyError; otherwise the index is built, then both lists are merged, and the response, descriptions and offers end as `MergedResponse` specifies |
| OfferResponses.ListsMerged | utils.py:113-118 | when both lists merge, both keys are present with their old lists, and every offer in either list ends with its item lists replaced by dicts keyed by exactly the ids of the items it held before the call, its other entries kept; an offer in both lists is covered too |
| OfferResponses.ResponseMerged | utils.py:111-119 | the same for the whole function, against the index built from the response's descriptions |
| OfferResponses.ResponseIndexError | utils.py:112 | a description without a key makes the call raise before any offer, description or list changes |
| OfferResponses.ResponseKeepsOthers | utils.py:111-119 | whatever happens, no offer's other entries change |
| Inventories.Insert | utils.py:106 | `d[k] = v` keeps keys distinct, adds k to the key set, keeps an existing key's place, appends a new key, and changes no other entry |
| Inventories.PairOf | utils.py:106 | an element of `dict(list)` yields a hashable key, or raises ValueError or TypeError |
| Inventories.DictFrom | utils.py:106 | the dict built from pairs has distinct keys |
| Inventories.DictFromErrors | utils.py:106 | `dict(list)` raises iff some element is not a pair, and then with the first such element's error |
| Inventories.DictFromKeys | utils.py:106 | when every element is a pair, earlier keys keep their places, and the key set is the earlier keys plus the pair keys |
| Inventories.DictFromKeeps | utils.py:106 | an entry survives unless a later pair has its key |
| Inventories.DictFromLast | utils.py:106 | each key ends with the value of the last pair that has it |
| Inventories.Converted | utils.py:105-106 | after the `isinstance` conversion the inventory is never a list |
| Inventories.MergeInventory | utils.py:103-108 | the merge returns and writes what `MergedInventory` specifies, in the source's order of errors: `rgInventory`, `dict()`, `rgDescriptions`, `.values()` |
| Inventories.InventoryStamps | utils.py:103-108 | each description named last by an item ends with that item's context id (or, when it has none, the game's), its id and its amount |
| Inventories.ArrayInventory | utils.py:104-108 | an array inventory merges the values of the dict it converts to: one item per distinct key, the last pair's value winning |
| EmailHosts.AddHostMeaning | utils.py:164-168 | a known host gets the domains appended in place; an unknown host with domains becomes the last entry; hosts stay distinct |
| EmailHosts.ExtendKeepsEntries | utils.py:164-168 | extending the table never moves a host and only appends to its domain list |
| EmailHosts.DefaultTableWellFormed | utils.py:155-163 | the built-in table has 7 distinct hosts, and no domain is listed under two of them |
| EmailHosts.ConvertEdomainToImap | utils.py:153-173 | both loops compute `LookupAsWritten` over the table extended by the additional hosts |
| EmailHosts.LookupFindsFirst | utils.py:169-171 | a listed domain gives the first host, in table order, that lists it |
| EmailHosts.UnknownDomainFallsThrough | utils.py:169-173 | an unlisted domain gives the last host of the table, as written |
| EmailHosts.HostFor | utils.py:169-173 | the corrected lookup only ever returns a host of the table |
| EmailHosts.HostForMeaning | utils.py:169-173 | the corrected lookup gives None iff no list holds the domain, and otherwise the first host that lists it |
| EmailHosts.LookupAsWrittenVersusHostFor | utils.py:169-173 | the code as written and the corrected lookup agree on listed domains and differ on every unlisted one |
| EmailHosts.UnknownDomainGetsAol | utils.py:154-173 | as written, "example.org" maps to "imap.aol.com"; the corrected lookup gives None |
| EmailHosts.AddedDomainExample | utils.py:164-166 | an extra domain for a known host, e.g. googlemail.com for imap.gmail.com, resolves to that host |
| EmailHosts.NewHostExample | utils.py:167-168 | a new host resolves the domains given with it |
| EmailHosts.EmptyDomainsExample | utils.py:164-166 | a new host with an empty domain list is not added |

## Left out

- `load_steam_guard`: file I/O; it only reads and decodes a JSON file.
- `fetch_email_token`: IMAP network I/O with sleeps and retries.
- `update_session`: a call into the network client.
- `price_to_float`: floating point.
- HMAC-SHA1, SHA-1 and base64 internals are not modelled; only their output lengths and digit formats are used.
- An undecodable base64 secret becomes `ConfigError`; the validation rules of `b64decode` are not modelled.
- The default `timestamp = int(time.time())` of `generate_confirmation_key` is fixed once, when the module is defined. The model takes the timestamp as a parameter.
- The two `print` calls in `text_between`'s exception handler are output only and are not modelled.
- The logger is left out.
- Dicts built by `merge_items` keep insertion order in Python. `map` does not, so the order in which ids appear in a merged dict is not modelled.
- JSON floats are not part of `Value`.
- Python treats `1`, `1.0` and `True` as the same dict key. `Value` equality is structural, so those keys are distinct in the model.
- `int(text)` is modelled for ASCII digits and whitespace only; Unicode digits and spaces are left out.
- Decimal.Parse: accepts numerals of any length. Python 3.11 and later raise ValueError for a numeral of more than 4300 digits (`sys.int_max_str_digits`), so the two conversions would raise there. That limit is left out.
- Inventories.PairOf: an array element that is a JSON object with exactly two keys would yield those keys in source order. `Value.Dict` keeps no order, so such elements are excluded by the `Convertible` precondition of `Inventories.MergeInventory`.
- The model types descriptions and offers as dicts, and the offer lists as lists. None of the following is modelled:
  - a non-dict element in the descriptions list, a non-dict offer, or a non-dict `response` or `rgDescriptions`, which raise in Python;
  - a non-list `descriptions` value;
  - a `trade_offers_received` or `trade_offers_sent` value that is not a list. `map` over None or a number raises TypeError. A string is iterated character by character, and `offer.get` then raises AttributeError.
- Values of `additional_hosts` are lists of strings in the model. Python would also accept a string or another iterable, appending its characters and later using substring tests.
- `GameOptions.AppIdToOption` takes the app id as text only. Other arguments are not modelled. A non-string argument compares unequal to every member, but then the `%` formatting of the error message can itself fail: a tuple of two or more items, or the empty tuple, raises TypeError instead of the not-supported exception, and a one-item tuple puts its item in the message.

## Findings

| source | as written | input that shows it | evidently intended | confidence | as-written member | corrected member |
|---|---|---|---|---|---|---|
| utils.py:169-173 | when no host lists the domain, the loop variable `host` still holds the last host iterated, and that host is returned | `convert_edomain_to_imap("example.org")` returns `"imap.aol.com"` | `None`, which `host = None` at line 154 initialises, so that callers can tell an unknown domain | high (not executed) | EmailHosts.UnknownDomainGetsAol | EmailHosts.HostForMeaning |
