# freegeoip request admission, modelled in Dafny

This project models the admission layer of freegeoip's geolocation API (`freegeoip/utils.py`). It has three parts:

- **`ip2uint32`** turns a dotted-quad IPv4 text into an unsigned 32-bit integer in network byte order. Modules: `AddressCodec`, plus `Decimal` for numerals.
- **`ReservedIPs`** is a fixed table of sixteen (network, netmask) pairs. It has a linear scan that calls an address reserved when `address & netmask == network` for some pair. Module: `ReservedIPs`.
- **`CheckQuota`** is the fixed-window rate limiter in front of a request handler. For each call it:
  1. forms the key `"ip:" + str(ip2uint32(remote_ip))`;
  2. increments that key's counter;
  3. arms the counter's time-to-live only when the increment created it (count 1);
  4. otherwise rejects the call with 403 when the count is above `max_requests`;
  5. runs the handler only for calls that are not rejected.

  Module: `Quota`.

Addresses are `bv32` and octets are `bv8`. The arithmetic meaning of the packing (a·2^24 + b·2^16 + c·2^8 + d) is proved over `int`, by way of two 16-bit halves.

The shared counter store (Redis) is a `map<string, Counter>`. A counter holds its count and the time-to-live that `EXPIRE` armed on it, if any. `Incr` and `SetExpiry` are Redis `INCR` and `EXPIRE`. Wall-clock expiry is the explicit step `Lapse`, which deletes a key whose time-to-live is armed. A call is one step that returns the new store and `Allowed` or `Rejected`. `CheckQuota` wraps that step: it returns `BadAddress` when the address does not parse, `Forbidden` when the call is rejected, and `Served(handler())` otherwise.

Three facts about the code shape the model:

- The table's ranges overlap: 240.0.0.0/4 (utils.py:70) contains 255.255.255.255/32 (utils.py:71). `ReservedIPs.BroadcastMatchesTwoRows` shows the broadcast address matching both rows.
- The `if n == 1 … elif n > max_requests` test (utils.py:39-44) admits the first call of every window, even when `max_requests` is 0 or negative (`Quota.Admit`).
- The table `ReservedIPs.IPs` (utils.py:54-72) is modelled value for value as the constant `ReservedIPs.IPs`. It departs from the IANA special-purpose registry (section 2.2.2 of RFC 6890) in two places. It has 192.18.0.0/15 where the registry's benchmarking block is 198.18.0.0/15, and it gives 192.0.0.0 a /29 mask. `ReservedIPs.TableDepartsFromRegistry` shows what follows: 198.18.0.1 is not reserved, 192.18.0.1 is, and 192.0.0.8 is not.

## Model

| member | source | states |
|---|---|---|
| Decimal.Digits | freegeoip/utils.py:36 | `str(n)` of the integer is a canonical numeral (digits only, no leading zero) that reads back as n |
| Decimal.DigitsOfValue | freegeoip/utils.py:36 | every canonical numeral is the `str` of the number it denotes |
| Decimal.DigitsInjective | freegeoip/utils.py:36 | distinct integers have distinct decimal texts |
| AddressCodec.ParseDottedQuad | freegeoip/utils.py:28 | a text that does not split into four dot-separated parts is refused with its part count; an accepted text has four parts, each a decimal octet that gives the matching field; ParseFormat, FormatParse and ParseAcceptsExactlyDottedQuads state what it accepts |
| AddressCodec.ToUint32 | freegeoip/utils.py:28 | the `"!I"` unpacking puts the first octet in the top eight bits and the last in the bottom eight; ToUint32Value gives its integer value and FromToUint32 its inverse |
| AddressCodec.Ip2Uint32 | freegeoip/utils.py:27-28 | `ip2uint32` succeeds exactly when the text parses, fails with the parser's error otherwise, and its integer decodes to the parsed octets; Ip2Uint32RoundTrip, Ip2Uint32OfFormat and Ip2Uint32Injective relate it to the dotted text |
| AddressCodec.ToUint32Value | freegeoip/utils.py:28 | the `"!I"` unpacking of octets a.b.c.d is a·2^24 + b·2^16 + c·2^8 + d and is below 2^32, so the first octet is the most significant |
| AddressCodec.FromUint32 | freegeoip/utils.py:28 | the decoder's octets pack back to the integer it was given |
| AddressCodec.FromToUint32 | freegeoip/utils.py:28 | decoding the packed integer returns the original four octets, so the packing is injective |
| AddressCodec.ParseFormat | freegeoip/utils.py:28 | the canonical dotted text of any four octets parses back to those octets |
| AddressCodec.FormatParse | freegeoip/utils.py:28 | every text the parser accepts is exactly the canonical text of the octets it yields |
| AddressCodec.ParseAcceptsExactlyDottedQuads | freegeoip/utils.py:28 | the parser accepts a text if and only if it is the canonical dotted text of some address |
| AddressCodec.Ip2Uint32RoundTrip | freegeoip/utils.py:27-28 | decoding the integer of a canonical dotted quad and writing it in dotted form gives the text back |
| AddressCodec.Ip2Uint32OfFormat | freegeoip/utils.py:27-28 | the canonical text of every address is accepted and encodes to that address's integer |
| AddressCodec.Ip2Uint32Injective | freegeoip/utils.py:27-28 | two distinct canonical dotted quads never have the same integer |
| AddressCodec.EmptyRejected | freegeoip/utils.py:28 | the empty text fails to parse, with one part instead of four |
| AddressCodec.Ipv6LiteralRejected | freegeoip/utils.py:28 | the IPv6 literal "::1" fails to parse |
| AddressCodec.FivePartsRejected | freegeoip/utils.py:28 | a five-part text fails to parse |
| AddressCodec.LargeOctetRejected | freegeoip/utils.py:28 | an octet of 256 is refused as out of range |
| AddressCodec.NonDecimalRejected | freegeoip/utils.py:28 | non-numeric parts are refused, and so are parts with a leading zero, which `inet_aton` would read as octal |
| AddressCodec.WellFormedAccepted | freegeoip/utils.py:27-28 | "10.0.0.1" encodes to 0x0A000001 |
| ReservedIPs.Scan | freegeoip/utils.py:76-79 | the first-match scan of any table answers true if and only if some row has `ip & netmask == network` |
| ReservedIPs.Test | freegeoip/utils.py:74-79 | `test(ip)` is true if and only if some of the sixteen rows matches, and false only when every row fails |
| ReservedIPs.ScanIsReserved | freegeoip/utils.py:54-79 | the scan over `ReservedIPs.IPs` agrees with "some row matches" |
| ReservedIPs.ScanOrderIndependent | freegeoip/utils.py:76-79 | reordering a table never changes the scan's answer |
| ReservedIPs.TableWellFormed | freegeoip/utils.py:54-72 | the table has sixteen rows, and every network has no bits outside its netmask |
| ReservedIPs.NetworksReserved | freegeoip/utils.py:54-79 | each listed network address is itself classified as reserved |
| ReservedIPs.FirstOctetAtLeast224Reserved | freegeoip/utils.py:69-70 | every address whose first octet is 224 or more is reserved |
| ReservedIPs.PrivateTenReserved | freegeoip/utils.py:57 | every 10.x.y.z address is reserved |
| ReservedIPs.LoopbackReserved | freegeoip/utils.py:59 | every 127.x.y.z address is reserved |
| ReservedIPs.LinkLocalReserved | freegeoip/utils.py:60 | every 169.254.x.y address is reserved |
| ReservedIPs.PrivateOneNineTwoReserved | freegeoip/utils.py:65 | every 192.168.x.y address is reserved |
| ReservedIPs.BroadcastMatchesTwoRows | freegeoip/utils.py:70-71 | 255.255.255.255 is reserved and matches both the 240.0.0.0/4 row and its own row, so the ranges overlap |
| ReservedIPs.PublicResolversNotReserved | freegeoip/utils.py:54-79 | 8.8.8.8 and 1.1.1.1 are not reserved |
| ReservedIPs.TableDepartsFromRegistry | freegeoip/utils.py:62-66 | 198.18.0.1 is not reserved, 192.18.0.1 is, 192.0.0.7 is, and 192.0.0.8 is not |
| Quota.QuotaKey | freegeoip/utils.py:36 | the counter key is "ip:" followed by the canonical decimal numeral of the address's integer; QuotaKeyInjective states that distinct addresses get distinct keys |
| Quota.IntOfBv32Injective | freegeoip/utils.py:36 | distinct 32-bit addresses have distinct integer values |
| Quota.NumeralKeyInjective | freegeoip/utils.py:36 | distinct integers give distinct `"ip:%s"` keys |
| Quota.QuotaKeyInjective | freegeoip/utils.py:36 | distinct addresses never share a counter key |
| Quota.TextKeysDistinct | freegeoip/utils.py:27-36 | two distinct canonical dotted quads get distinct counter keys |
| Quota.Incr | freegeoip/utils.py:38 | `INCR` returns the previous count plus one and stores it, creates a missing counter without a time-to-live, and leaves every other key alone |
| Quota.SetExpiry | freegeoip/utils.py:40 | `EXPIRE` arms the time-to-live of an existing counter when the timeout is positive, deletes the counter when it is zero or less, does nothing to a missing key, and leaves every other key alone |
| Quota.Lapse | freegeoip/utils.py:39-40 | once its time-to-live runs out, an armed counter is deleted; an unarmed or missing one leaves the store as it was; nothing else changes |
| Quota.Admit | freegeoip/utils.py:36-44 | the count always rises by one, rejected calls included; a call is rejected exactly when the new count is not 1 and is above the maximum; the first call of a window is admitted and arms the time-to-live; later calls keep the time-to-live; no other counter changes |
| Quota.CheckQuota | freegeoip/utils.py:31-47 | the response is BadAddress exactly when the address does not parse, and then the store is untouched; otherwise the store takes the quota step; the response is Served exactly when the call is allowed, with the handler's value, and Forbidden exactly when it is rejected; a forbidden call still raised the count |
| Quota.RunDecisionCount | freegeoip/utils.py:36-46 | a sequence of calls yields one decision per call |
| Quota.RunCounts | freegeoip/utils.py:36-38 | after any sequence of calls, each address's counter has grown by exactly its own number of calls |
| Quota.RepeatedCalls | freegeoip/utils.py:38-44 | in repeated calls from one address, call i sees count c+i+1 and is rejected exactly when that count is not 1 and is above the maximum; over-quota calls keep raising the count |
| Quota.AdmitKeepsArmed | freegeoip/utils.py:38-40 | if every counter has a time-to-live before a call, every counter has one after it |
| Quota.RunKeepsArmed | freegeoip/utils.py:38-40 | any sequence of calls keeps every counter armed |
| Quota.LapseKeepsArmed | freegeoip/utils.py:39-40 | expiry keeps every counter armed |
| Quota.AfterLapseStartsAfresh | freegeoip/utils.py:38-42 | after an address's window lapses, its next call is admitted and its counter is 1 again |
| Quota.ThreePerWindow | freegeoip/utils.py:38-46 | with a maximum of 3, a fresh address is admitted three times and rejected the fourth; after the window lapses it is admitted again with count 1 |

## Left out

- `socket.inet_aton` is foreign C code. It also accepts shorthand forms such as "127.1", hexadecimal and octal parts, and trailing whitespace. `AddressCodec.ParseDottedQuad` accepts only strict four-part canonical decimal quads and fails on everything else. Leading zeros are refused because `inet_aton` would read them as octal.
- AddressCodec.Ip2Uint32RoundTrip: holds only for the strict parser. Under the real `inet_aton`, "127.1", "0177.0.0.1" and "127.0.0.1" all give 2130706433, so the integer does not determine the text.
- AddressCodec.Ip2Uint32Injective: holds only for the strict parser. Under the real `inet_aton`, distinct texts such as "127.1" and "127.0.0.1" share the integer 2130706433.
- Quota.TextKeysDistinct: holds only for the strict parser. Under the real `inet_aton`, "127.1", "0177.0.0.1" and "127.0.0.1" share the key "ip:2130706433" and so draw on one quota.
- Quota.SetExpiry: models Redis `EXPIRE` with a zero or negative timeout as deletion, but `Quota.Settings` takes the window as a positive number of seconds. With `expire` of 0 or less, `CheckQuota` would delete each new counter at once and admit every call; the model does not cover that configuration.
- `struct.unpack` is not called. It is modelled by `AddressCodec.ToUint32`, a bit-exact big-endian packing.
- The Redis client is I/O. It is replaced by a map-based store whose `INCR` is atomic by assumption. Store failures and a store that cannot be reached are not modelled.
- `EXPIRE` is modelled as immediate and always successful. The model does not cover a failure between `INCR` and `EXPIRE`, which would leave a counter with no time-to-live.
- Wall-clock time is not modelled. A time-to-live running out is the explicit step `Lapse`, and the number of seconds is only recorded.
- Twisted's `inlineCallbacks` and `maybeDeferred`, `functools.wraps`, and the `DatabaseSafe` decorator are async plumbing and foreign code. `freegeoip/storage` is not part of this model.
- cyclone's `HTTPError(403)` and the request object are replaced by result values: `Forbidden`, and a caller address passed in as text.
- The handler's own effects are not modelled. Its result is carried in `Served` only to record that it ran. The Python wrapper discards that result.
- Concurrent requests are not modelled. Atomicity belongs to the external store.
