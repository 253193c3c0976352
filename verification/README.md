# Squawk services: a verified model

This project models the stateful cores of Squawk's services in Dafny and proves what they guarantee over every
input, every run and every reachable state.

- **NTS time server** (`NtsKeRecords`, `Cookies`, `NtpHeaders`, `ExtensionFields`, `UdpRateLimit`, `NtpResponder`,
  `KeyEstablishment`, `NtsRuns`): record, header and extension-field framing, cookies sealed under rotating master
  keys, and the decision whether to answer a datagram. `NtsRuns` puts these together as a protocol of steps (key
  establishment, datagram, rotation, passing time) whose state also carries the history: every cookie sealed and
  every rotation. The server does not keep that history; the theorems relate what it does to it.
- **Rate limiters** (`TokenBuckets`, `ValkeyWindows`, and `UdpRateLimit` above): a token bucket under a bounded
  least-recently-used table, fixed windows in an expiring store, and fixed windows in a pruned table. Each has a
  bound over whole traces or agrees with a simpler limiter that forgets nothing.
- **DHCP leases** (`LeaseTable`, `LeaseRuns`): a table of rows changed by request, release, lookup and sweep.
- **DHCP packets** (`DhcpPackets`, `DhcpParsing`): a response written into a 300-byte buffer at a moving offset, and
  the option parser that undoes it.
- **DNS names and queries** (`DomainNames`, `ThreatFeeds`, `Zones`, `Tokens`, `QueryPipeline`): label-by-label lookups
  against a plain suffix specification, and the query handler as a step over limiter and cache.

`dafny verify dfyconfig.toml` covers the whole project.

## How the model is set up

- Objects that the services change in place are classes (`CookieManager`, `Limiter`, `InMemoryBackend`,
  `ValkeyBackend`, `DhcpDatabase`, `IocChecker`, `SelectiveRouter`, `DnsServer`); each method states its whole new
  state through a function of the old one, and the theorems over runs are about those functions. Buffers are arrays;
  loops are loops.
- Clocks, fresh keys, exported TLS keys, store failures, token verification, UTF-8 decoding and address parsing are
  inputs of a step or functions held by the configuration. Time is a real number.
- AES-SIV is any pair of functions with the algebra of RFC 5297: sealing is deterministic and adds sixteen bytes, and
  opening accepts exactly the sealings of a plaintext. That nobody else makes a cookie that opens under a key the
  server holds is not an axiom but a hypothesis on the datagrams of a run (`Unforged`).
- A call that raises is an outcome of its own (`Raised`, `Failed`, `Panics`), not a precondition: a master-key version
  of 256 or more, a zero cookie length prefix, a timestamp that does not fit, an oversized DHCP response. A datagram
  that raises also ends the receive loop, and the state of a run records that.

## Where the code differs from what one would expect

Each of these is proved, with the exact condition under which the expected property does hold.

- *Rotation.* The server sleeps exactly one cookie lifetime between rotations. `LifetimeGapKillsCookie` gives a run in which that
  refuses an unexpired cookie; `RotationSparesLiveCookies` needs gaps of more than a lifetime, and `EntryUnseals` says
  for every run exactly which cookies unseal. The documented "current and previous key" is not always what is held:
  a rotation within the hour of grace retires nothing, and the key it spares is never retired later.
- *Fields after the authenticator.* The dictionary keeps the last field of a type, even one that nothing authenticates
  (`TrailingCookieIsUsed`); `UsedFieldIsAuthenticated` gives the condition.
- *Lease validation* looks only at the first conflicting row. The deployed sweep comes once a minute
  (`dhcp-server/bins/server.py:119-128`), not before each Request; `RequestKeepsUniqueIff` gives the condition.
- *One exception ends service.* The receive loop catches nothing but a would-block error, so a datagram that raises
  closes the socket. `FailsIff` and `RaisesIff` say which datagrams raise, `ServingIff` that nothing else stops the
  server, and `OneDatagramEndsService` that one unauthenticated datagram suffices.
- *The bucket bound* holds for a set of identities exactly when the table has room for all of them (`BoundHoldsIff`).
- *The DNS option's length byte* counts servers whose text does not parse (`ResponseOptionsIff`).
- *Zone permission* is decided for the first listed zone, records are served from the longest-named one; they are the
  same zone for every domain exactly when children are listed first (`CheckedIsServedIff`).
- *A zone with an empty name* is never asked about, so its records go to anyone (`ServedZoneGateIff`, `MayUse`).
- *Syncing to no zones* closes nothing: the router keeps the old zones while the gate, which reads the new list, opens
  (`SyncsAgreeIff`, `RemovedZonesStayServed`).
- *Two token verifications.* Identity and domain policy use the single key, which rejects every token that names its
  key; zones use the whole key set. `PolicyEnforcedIff` says whose domain list is enforced.
- *Cache keys* are joined with an unescaped colon (`KeyIsItsOwnIff`).
- *Record bodies* are padded to four bytes and the authenticator body is a bare tag, unlike sections 4 and 5.6 of
  RFC 8915; the model follows the code.

## Model

| member | source | states |
|---|---|---|
| `Bytes.Padded` | ntp-server/bins/server.py:967-971 | A padded body is 4-byte aligned, starts with the body, and is the body itself when that was aligned |
| `Bytes.PaddedIs` | ntp-server/bins/server.py:967-971 | Fewer than four bytes are added, all of them zero |
| `Bytes.PairAt` | ntp-server/bins/server.py:289 | A pair of packed 16-bit numbers is read back wherever it sits in a stream, and what follows it starts four bytes later |
| `Bytes.UnpackPackBE` | ntp-server/bins/server.py:345 | A number that fits its width survives big-endian packing |
| `Bytes.UnpackFirst` | ntp-server/bins/server.py:370 | The first byte of a packed number is the most significant |
| `Bytes.U16IsBigEndian` | ntp-server/bins/server.py:289 | Two bytes at any offset are read as 256 times the first plus the second |
| `NtsKeRecords.ParseAll` | ntp-server/bins/server.py:306-317 | The record loop returns the records of the stream up to the first one that does not decode |
| `NtsKeRecords.EncodeLayout` | ntp-server/bins/server.py:255-277 | Byte for byte: critical bit and type, length of the unpadded body, the body, zeros up to a multiple of four |
| `NtsKeRecords.DecodeIff` | ntp-server/bins/server.py:280-303 | A record decodes exactly when its header and body are there, padded or not, to the type, flag and body at those offsets |
| `NtsKeRecords.DecodeEncode` | ntp-server/bins/server.py:240-303 | An encoded record decodes to itself wherever it sits, and the next offset is exactly past its padding |
| `NtsKeRecords.RecordsFromEncoded` | ntp-server/bins/server.py:279-317 | Concatenated encodings parse back from any starting offset |
| `NtsKeRecords.ParseEncoded` | ntp-server/bins/server.py:240-317 | For every list of records with 15-bit types and 16-bit lengths, parsing the concatenated encodings returns that list |
| `NtsKeRecords.ExtractAuthToken` | ntp-server/bins/server.py:538-556 | The loop returns the token that the row below characterises |
| `NtsKeRecords.AuthTokenIff` | ntp-server/bins/server.py:538-556 | For every list of records, the token of the encoded request is a text if and only if that is non-empty and what the first record of type 16384 decodes to, wherever that record comes |
| `Cookies.PlaintextFields` | ntp-server/bins/server.py:367-370 | The plaintext of full-length keys splits at the offsets that unsealing uses into the same keys, algorithm and expiry |
| `Cookies.UnsealSealed` | ntp-server/bins/server.py:337-382 | A cookie met by any later key ring gives back its keys exactly while its master key is held and the expiry is not past; otherwise nothing |
| `Cookies.UnsealIff` | ntp-server/bins/server.py:354-382 | A cookie that a held key opens unseals if and only if the plaintext has at least 74 bytes and its expiry is not past; the keys are its first two 32-byte parts |
| `Cookies.WireLayout` | ntp-server/bins/server.py:401-402 | Byte for byte: length of what follows, version, ciphertext |
| `Cookies.RotatedHistory` | ntp-server/bins/server.py:415-428 | Rotation keeps the ring equal to what the rotation times predict: version `v` is gone exactly when the rotation after the one that replaced it came more than an hour later |
| `Cookies.InitialRingHistory` | ntp-server/bins/server.py:332-335 | A fresh manager holds version 0 and agrees with the empty rotation history |
| `Cookies.SpacedRingIsCurrentAndPrevious` | ntp-server/bins/server.py:415-428 | When rotations are more than a day apart the held versions are exactly the current and the previous one |
| `Cookies.WireRoundTrip` | ntp-server/bins/server.py:384-413 | The wire form of every encodable cookie decodes to it whatever bytes follow, so extension-field padding is harmless |
| `Cookies.CookieManager.constructor` | ntp-server/bins/server.py:332-335 | The manager starts with one key, version 0 and an hour of grace |
| `Cookies.CookieManager.RotateKey` | ntp-server/bins/server.py:415-428 | Rotating in place has the effect whose history is characterised above |
| `ExtensionFields.ParseFields` | ntp-server/bins/server.py:881-899 | The dictionary has exactly the field types present before the first malformed field, each with the body of its last occurrence |
| `ExtensionFields.ExtractAuthenticator` | ntp-server/bins/server.py:812-831 | The loop returns the first authenticator and all bytes before it, and nothing when a malformed field comes first |
| `ExtensionFields.FoundIsFirst` | ntp-server/bins/server.py:824-831 | A found authenticator is the first one the dictionary walker also reads, at the same offset |
| `ExtensionFields.FirstIsFound` | ntp-server/bins/server.py:824-831 | Conversely, the first authenticator among the walked fields is the one extracted |
| `ExtensionFields.WalkersAgree` | ntp-server/bins/server.py:812-831 | Whenever extraction succeeds, the fields before the authenticator are exactly what the dictionary walker reads in the authenticated prefix, at the same offsets |
| `ExtensionFields.UsedFieldIsAuthenticated` | ntp-server/bins/server.py:1037-1073 | The field the server uses lies in the authenticated prefix if and only if no field of its type follows the authenticator, and then prefix and packet give the same body |
| `ExtensionFields.LookupAligned` | ntp-server/bins/server.py:889-897 | Every body in the dictionary is aligned and short enough to be framed again |
| `ExtensionFields.WalkFrames` | ntp-server/bins/server.py:965-974 | Walking framed fields gives each one back with its own type, body and offset |
| `ExtensionFields.FrameLayout` | ntp-server/bins/server.py:973-974 | Byte for byte: type, length of the whole field, body |
| `ExtensionFields.WalkExtended` | ntp-server/bins/server.py:965-974 | A field framed after others is walked after them, and leaves them as they were |
| `NtpResponder.AuthenticIff` | ntp-server/bins/server.py:1037-1070 | A datagram is authentic if and only if the cookie it presents unseals to keys whose C2S key makes its tag |
| `NtpResponder.NtpUdpServer.HandleRequest` | ntp-server/bins/server.py:1015-1075 | The handler limits first, then drops, raises or answers as judged, and changes nothing but the limiter |
| `NtpResponder.NtpUdpServer.Receive` | ntp-server/bins/server.py:1087-1102 | One turn of the receive loop: a reply is sent, a drop is silent, and an exception ends service for good |
| `NtpResponder.PacketReadsBack` | ntp-server/bins/server.py:946-974 | Both walkers read a protected packet: identifier and cookie padded, and an authenticator over exactly the bytes before it |
| `NtpResponder.Mac` | ntp-server/bins/server.py:989-994 | The tag has sixteen bytes and opens, under the same key and associated data, as a sealed empty plaintext |
| `NtpHeaders.HeaderBuiltIff` | ntp-server/bins/server.py:920-944 | A response header is packed if and only if the echoed 64-bit origin is below 2^64 - 1024, so that the double it passes through does not round up to 2^64, and the clock lies between 1970 and the end of the 32-bit era in 2036 |
| `NtpHeaders.OriginOverflowsIff` | ntp-server/bins/server.py:860-861 | Rounding to 53 significant bits takes a 64-bit origin out of 64 bits exactly for the last 1024 values |
| `NtpHeaders.OriginEchoedIff` | ntp-server/bins/server.py:941 | The origin comes back unchanged if and only if it is a double |
| `NtpHeaders.HeaderReadsBack` | ntp-server/bins/server.py:926-944 | Every field of a packed header at its own offset: leap, version, mode, stratum, poll, precision, delays and the four timestamps |
| `NtpHeaders.TimestampsAreClose` | ntp-server/bins/server.py:921-942 | The transmit timestamp is the time since 1900, the receive timestamp the time since 1970, each to within 2^-32 s |
| `NtpHeaders.RoundedIsNearest` | ntp-server/bins/server.py:861 | The echoed origin is the nearest double, the even one of two |
| `NtpResponder.ResponseReadsBack` | ntp-server/bins/server.py:907-963 | Every response that is built yields the echoed identifier, a cookie that decodes despite padding and unseals to the same keys, and a tag over all preceding bytes under the S2C key |
| `NtpResponder.TrailingCookieIsUsed` | ntp-server/bins/server.py:881-899 | A cookie field appended after the authenticator replaces the authenticated one in the dictionary while the extracted authenticator stays the same |
| `NtpResponder.ResponseBuilt` | ntp-server/bins/server.py:920-963 | For full-length keys a response is built if and only if its header can be packed and the current master key is held under a one-byte version |
| `NtpResponder.FailsIff` | ntp-server/bins/server.py:1037-1075 | The handler raises if and only if the cookie field has a zero length prefix in a datagram with an authenticator, or the datagram is authentic and its origin or the clock does not fit a header, or no cookie can be sealed |
| `KeyEstablishment.BuildKeResponse` | ntp-server/bins/server.py:694-730 | The response is the encoding of next-protocol, AEAD, one record per cookie and end of message |
| `KeyEstablishment.ResponseParses` | ntp-server/bins/server.py:694-730 | Parsing the response gives those records, each cookie record decoding to its cookie, and a critical end of message |
| `KeyEstablishment.HandleClient` | ntp-server/bins/server.py:596-684 | Empty, unadmitted, bad-key and unsealable requests get their own outcome; an admitted one gets eight sealings of its keys |
| `KeyEstablishment.AdmittedIff` | ntp-server/bins/server.py:622-631 | For every list of records the encoded request is admitted if and only if its first record of the token type holds a token that verifies |
| `KeyEstablishment.RefusalParses` | ntp-server/bins/server.py:625-628 | A client that parses a refusal finds a critical error record with body 0, 1 and a critical end of message |
| `KeyEstablishment.EstablishedCookiesUnseal` | ntp-server/bins/server.py:669-678 | A client that parses the response holds eight cookies, each unsealing to its session keys |
| `NtsRuns.EntryUnseals` | ntp-server/bins/server.py:354-382 | In every reachable state a sealed cookie unseals to its keys if and only if it has not expired and its key was not retired |
| `NtsRuns.AuthenticIffHeld` | ntp-server/bins/server.py:1037-1070 | In every state that satisfies the invariant a datagram is authentic if and only if the holder of a live logged cookie authenticated it |
| `NtsRuns.AnswerRefreshes` | ntp-server/bins/server.py:953-961 | An answer goes to the holder of a live cookie of the log and seals a refresh of that very cookie |
| `NtsRuns.StepKeepsInv` | ntp-server/bins/server.py:1015-1075 | Key establishment, datagrams, rotation and passing time each keep the invariant that ties key ring and issued cookies to the history |
| `NtsRuns.RunKeepsInv` | ntp-server/bins/server.py:1015-1075 | Hence every possible run keeps it |
| `NtsRuns.ReachableInv` | ntp-server/bins/server.py:332-335 | Every state reachable from a fresh server satisfies it |
| `NtsRuns.Lineage` | ntp-server/bins/server.py:953-956 | Any chain of refreshes leads back to a cookie of an admitted key establishment with the same keys |
| `NtsRuns.AnsweredIff` | ntp-server/bins/server.py:1015-1102 | In every reachable state a datagram is answered if and only if no earlier datagram ended the receive loop, its source is within its rate, the master-key version fits a byte, its origin and the clock fit a header, and it presents a live cookie of this server with the MAC of the preceding bytes under that cookie's C2S key |
| `NtsRuns.LimitedIff` | ntp-server/bins/server.py:784-803 | After any run a source is limited if and only if a window it opened is open and has had as many of its datagrams as the limit, counted from the datagrams received |
| `NtsRuns.ServingIff` | ntp-server/bins/server.py:1087-1102 | After any run the server still serves if and only if no datagram of the run raised |
| `NtsRuns.RaisesIff` | ntp-server/bins/server.py:1015-1102 | In every reachable state a datagram raises if and only if it reaches the handler and either has a zero cookie length prefix or comes from a live holder while no response can be packed |
| `NtsRuns.StoppedForGood` | ntp-server/bins/server.py:1087-1102 | Once the loop has ended, no continuation of the run answers anything |
| `NtsRuns.OneDatagramEndsService` | ntp-server/bins/server.py:1087-1102 | A datagram of any header, a cookie field of four zero bytes and an empty authenticator is possible in every state, seals nothing, and from a source within its rate silences every later datagram of every continuation |
| `NtsRuns.AnsweredDescendsFromExchange` | ntp-server/bins/server.py:1015-1075 | The keys of an answered datagram descend through refreshed cookies from one admitted key establishment, and the answer extends that chain by one |
| `NtsRuns.SpacedNeverRetiresLive` | ntp-server/bins/server.py:415-428 | With rotations more than a day apart, only expired cookies lose their key |
| `NtsRuns.RotationSparesLiveCookies` | ntp-server/bins/server.py:1215-1220 | In every run with rotations more than a day apart, the ring is the current and previous version and every cookie ever sealed unseals to its keys until its expiry and never after |
| `NtsRuns.LifetimeGapKillsCookie` | ntp-server/bins/server.py:1215-1220 | The proviso is needed: a run whose rotations come exactly 86400 s after the start and after one another, as the server schedules them, refuses a cookie that has not expired |
| `NtsRuns.LiveCookieIsServed` | ntp-server/bins/server.py:907-963 | In every reachable state the request that the holder of a live cookie builds is no forgery and is answered if and only if the server is serving and ready for it; the answer carries its identifier, a fresh cookie for the same keys and a tag it can verify |
| `UdpRateLimit.Limiter.RateLimited` | ntp-server/bins/server.py:784-803 | The decision and the whole new table, pruning included |
| `UdpRateLimit.RefusedIff` | ntp-server/bins/server.py:784-803 | On every trace a request is refused if and only if it falls into the window its source last opened and that window has had at least `limit` of its requests, counted from the trace |
| `UdpRateLimit.WithinLimitIsAnswered` | ntp-server/bins/server.py:800-803 | A source with fewer than `limit` requests in the last window length is answered |
| `UdpRateLimit.TableStaysSmall` | ntp-server/bins/server.py:796-797 | A request that opens a window leaves a table within the limit, or one with only sources seen within ten windows |
| `UdpRateLimit.SmallTableKeepsAll` | ntp-server/bins/server.py:796-797 | While the table is within the limit nobody is forgotten |
| `UdpRateLimit.Limiter.Prune` | ntp-server/bins/server.py:805-810 | Exactly the windows older than ten window lengths go |
| `UdpRateLimit.ForgetsStep` | ntp-server/bins/server.py:784-810 | One request keeps a pruned table and a full one in agreement on everything that can still matter |
| `UdpRateLimit.PruningUnobservable` | ntp-server/bins/server.py:784-810 | On every trace with a non-decreasing clock the pruned limiter decides as one that is never pruned |
| `UdpRateLimit.AnswersBounded` | ntp-server/bins/server.py:784-803 | In any interval of length L a source gets at most max(1, limit) * (floor(L / window) + 2) requests through |
| `TokenBuckets.Allow` | dns-server/app/services/rate_limiter.py:24-37 | A request is allowed if and only if old tokens and refill make a whole token; tokens stay between zero and the burst; what is left plus what was granted is what was there plus the refill, or the burst when that is less |
| `TokenBuckets.InMemoryBackend.CheckAndConsume` | dns-server/app/services/rate_limiter.py:78-101 | The decision and the whole new table: eviction of the oldest, a full bucket for a newcomer, the caller moved last |
| `TokenBuckets.InMemoryBackend.GetRetryAfter` | dns-server/app/services/rate_limiter.py:103-117 | The exact least wait: an identity left alone is accepted from then on and at no earlier time |
| `TokenBuckets.RetryAfterIsExact` | dns-server/app/services/rate_limiter.py:103-117 | The lemma behind it, for every table |
| `TokenBuckets.AfterWellKept` | dns-server/app/services/rate_limiter.py:83-101 | Every request leaves each known identity listed exactly once |
| `TokenBuckets.TouchNewest` | dns-server/app/services/rate_limiter.py:83-101 | Evicting the oldest and moving the caller last commutes with keeping only the newest entries |
| `TokenBuckets.OrderIsRecency` | dns-server/app/services/rate_limiter.py:78-101 | After any requests the order is the distinct identities by most recent use, cut to the last `max_keys` |
| `TokenBuckets.KeptIffRecent` | dns-server/app/services/rate_limiter.py:83-98 | An identity is still known if and only if fewer than `max_keys` distinct others came since its last request |
| `TokenBuckets.BucketsAgree` | dns-server/app/services/rate_limiter.py:78-101 | For an identity used often enough the bounded table holds the bucket an unbounded one would |
| `TokenBuckets.DecidedAsUnbounded` | dns-server/app/services/rate_limiter.py:78-101 | An identity with fewer than `max_keys` others between its requests gets the decisions of unlimited memory |
| `TokenBuckets.CreditAfter` | dns-server/app/services/rate_limiter.py:24-37 | A request takes from an identity's credit exactly what it was granted, and nothing from anyone else's |
| `TokenBuckets.AcceptedWithinCredit` | dns-server/app/services/rate_limiter.py:24-37 | From any sound table, accepted requests never exceed the credit at the start plus what is refilled |
| `TokenBuckets.AcceptedBounded` | dns-server/app/services/rate_limiter.py:88-101 | Over any stretch of a run in which an identity is not evicted it gets at most burst + rps * (t - s) requests through |
| `TokenBuckets.BoundHoldsIff` | dns-server/app/services/rate_limiter.py:78-101 | For every table size and every set of identities: each identity keeps to burst + rps * (t - s) in every stretch of every run over that set if and only if the table has room for the whole set |
| `TokenBuckets.RoomyRun` | dns-server/app/services/rate_limiter.py:83-98 | A table with room for all identities of a run evicts none of them |
| `TokenBuckets.TurnsAllAccepted` | dns-server/app/services/rate_limiter.py:83-98 | One identity more than the table holds, taking turns at one instant: each is granted every one of its turns, however many |
| `TokenBuckets.PacedNeverRefused` | dns-server/app/services/rate_limiter.py:24-37 | Whatever others do, and evicted or not, an identity that spaces its requests by 1 / rps is never refused |
| `TokenBuckets.RetryAfterIsEnough` | dns-server/app/main.py:205-216 | After a refusal, waiting the emitted Retry-After with no request of one's own guarantees acceptance, even if the bucket was evicted meanwhile |
| `ValkeyWindows.ValkeyBackend.CheckAndConsume` | dns-server/app/services/rate_limiter.py:139-160 | The decision and the new store for each outcome of INCR and EXPIRE; every store error denies |
| `ValkeyWindows.StoreCounts` | dns-server/app/services/rate_limiter.py:144-151 | In every trace the store holds the true count of each window under a key that outlives the window |
| `ValkeyWindows.CounterIsTrueCount` | dns-server/app/services/rate_limiter.py:144-153 | The value INCR returns is one more than the requests counted in that window so far, for any interleaving of clients |
| `ValkeyWindows.AcceptedIff` | dns-server/app/services/rate_limiter.py:146-160 | A request is accepted if and only if the store answers it and its identity has made fewer than `max_requests` in that window |
| `ValkeyWindows.ValkeyBackend.constructor` | dns-server/app/services/rate_limiter.py:133-137 | The limit is the whole part of rate times window, and at least one |
| `ValkeyWindows.WindowBound` | dns-server/app/services/rate_limiter.py:137-153 | No window accepts more than `max_requests` of an identity |
| `ValkeyWindows.ShortIntervalBound` | dns-server/app/services/rate_limiter.py:137-153 | No interval as short as a window sees more than twice that |
| `ValkeyWindows.ValkeyBackend.GetRetryAfter` | dns-server/app/services/rate_limiter.py:162-179 | A wait is advertised if and only if a working store would refuse now |
| `ValkeyWindows.RetryAfterIsEnough` | dns-server/app/services/rate_limiter.py:162-179 | An identity that waits the advertised time, zero included, is accepted if the store works |
| `LeaseTable.FindFreeIp` | dhcp-server/app/db.py:124-149 | The least address of the range without an active row, or none exactly when every address has one |
| `LeaseTable.GetOffer` | dhcp-server/app/db.py:66-109 | Which of current lease, reservation, wish and free address is offered, and that an offer other than a reservation would be validated for that client at the same instant whenever live leases are unique |
| `LeaseTable.ValidateIs` | dhcp-server/app/db.py:169-192 | Each reason for turning an address down, if and only if: no address; outside the range; or the first active row there of another client has not run out |
| `LeaseTable.DhcpDatabase.Request` | dhcp-server/bins/server.py:293-300 | Validation, then the upsert; a rejected request changes nothing, and an unknown pool raises after the row is written |
| `LeaseTable.DhcpDatabase.CreateLease` | dhcp-server/app/db.py:208-239 | Every row of the client is renewed, or one is added when it has none |
| `LeaseTable.DhcpDatabase.ReleaseLease` | dhcp-server/app/db.py:271-283 | Exactly the client's rows become released, and it says whether there was one |
| `LeaseTable.DhcpDatabase.GetLease` | dhcp-server/app/db.py:299-316 | The client's first row if it has not run out and the pool is known; a first row that ran out is marked expired |
| `LeaseTable.DhcpDatabase.ExpireOldLeases` | dhcp-server/app/db.py:352-371 | Exactly the pool's active rows that ran out become expired, and the count returned is how many active rows that cost |
| `LeaseTable.SweepConserves` | dhcp-server/app/db.py:354-371 | Active rows before a sweep are those after it plus those it reports |
| `LeaseTable.DhcpDatabase.GetPoolStats` | dhcp-server/app/db.py:388-403 | When rows keep to the invariant the three numbers count addresses: those held, those in the range, and those in the range that nobody holds, so none is negative |
| `LeaseTable.StatsCountAddresses` | dhcp-server/app/db.py:391-403 | The counting behind it, by pigeonhole |
| `LeaseRuns.StepTidy` | dhcp-server/app/db.py:208-234 | Every step keeps one row per client and every address in range, swept or not |
| `LeaseRuns.RunTidy` | dhcp-server/app/db.py:208-234 | Hence so does every run |
| `LeaseRuns.ValidatedIsFree` | dhcp-server/app/db.py:169-192 | On swept rows a validated address has no active row of another client |
| `LeaseRuns.StepKeepsInv` | dhcp-server/app/db.py:341-371 | With the sweep before each Request every step also keeps at most one active row per address |
| `LeaseRuns.RunKeepsInv` | dhcp-server/app/db.py:341-371 | Hence so does every such run |
| `LeaseTable.CountIsHeld` | dhcp-server/app/db.py:391-396 | The active count is the number of distinct addresses held, when addresses are unique |
| `LeaseTable.HeldIff` | dhcp-server/app/db.py:391-396 | An address is held if and only if an active row of the pool at it has time left |
| `LeaseTable.AddressCount` | dhcp-server/app/db.py:398-399 | The range has exactly the computed number of addresses |
| `LeaseRuns.SweptRunsAreSafe` | dhcp-server/app/db.py:153-192 | From an empty table, every run that sweeps before each Request has one row per client, addresses in range, one live lease per address, and active <= total |
| `LeaseRuns.RequestKeepsUniqueIff` | dhcp-server/app/db.py:177-192 | Without the sweep, an accepted Request keeps live leases unique if and only if no live lease of another client hides behind an expired first conflicting row |
| `LeaseRuns.UnsweptRunSharesAddress` | dhcp-server/app/db.py:177-192 | A four-step run without sweeps that leaves two clients with live leases on one address |
| `DhcpPackets.BuildResponsePacket` | squawk-client-go/pkg/dhcp/interceptor.go:273-381 | The packet is header, option TLVs, DNS option and End when that fits 300 bytes; the builder panics exactly when it does not |
| `DhcpPackets.PutHeader` | squawk-client-go/pkg/dhcp/interceptor.go:277-318 | The first 240 bytes are the BOOTP header with the magic cookie |
| `DhcpPackets.PutBaseOptions` | squawk-client-go/pkg/dhcp/interceptor.go:320-360 | The options before DNS are the TLV encoding of their list, unparsable addresses left out |
| `DhcpPackets.PutDns` | squawk-client-go/pkg/dhcp/interceptor.go:362-374 | The DNS option as written, and running past the buffer exactly when it would not fit |
| `DhcpPackets.TlvsAppend` | squawk-client-go/pkg/dhcp/interceptor.go:323-360 | Encoding options one after another is encoding their list |
| `DhcpParsing.ParseDhcpMessage` | squawk-client-go/pkg/dhcp/interceptor.go:422-497 | Too short, bad magic, a slice that panics because the byte-typed bound wraps or runs past the buffer, or the parsed message |
| `DhcpParsing.ParseOptions` | squawk-client-go/pkg/dhcp/interceptor.go:449-493 | The loop collects the options before End or a truncated one, and each field is that of its last long-enough option |
| `DhcpParsing.OptionsFromTlvs` | squawk-client-go/pkg/dhcp/interceptor.go:449-493 | Encoded options are read back in order, and reading goes on where they end |
| `DhcpParsing.AnyPacketReads` | squawk-client-go/pkg/dhcp/interceptor.go:449-493 | In any packet, options with padding between them are read in order up to the end, an end marker or an option that does not fit |
| `DhcpParsing.FixedFieldsAt` | squawk-client-go/pkg/dhcp/interceptor.go:427-440 | The offset every fixed field of a parsed packet comes from |
| `DhcpParsing.PanicsIff` | squawk-client-go/pkg/dhcp/interceptor.go:439 | Slicing the hardware address panics if and only if its length is 228 or more or runs past the buffer |
| `DhcpParsing.OptionFieldsAt` | squawk-client-go/pkg/dhcp/interceptor.go:470-485 | Message type, server identifier, requested address and host name are those of the last option of their code that is long enough |
| `DhcpParsing.OptionFieldsMissing` | squawk-client-go/pkg/dhcp/interceptor.go:470-485 | And are unset when there is none |
| `DhcpParsing.ResponseOptionsIff` | squawk-client-go/pkg/dhcp/interceptor.go:362-374 | The options of a response read back exactly if and only if there is no DNS server or the length byte counts the servers that parsed |
| `DhcpParsing.LengthByteExact` | squawk-client-go/pkg/dhcp/interceptor.go:365 | For fewer than 64 servers that is the case if and only if every one of them parses |
| `DhcpParsing.BuiltPacketParses` | squawk-client-go/pkg/dhcp/interceptor.go:422-497 | Every packet that fits, with parsable servers, parses back to a reply with its transaction and message type, the octets of the assigned address and of the gateway in network order, the first six hardware bytes and no other field set |
| `DhcpParsing.BuiltPacketOptions` | squawk-client-go/pkg/dhcp/interceptor.go:320-374 | And to options that carry, each under its own code only, message type, lease time in seconds, gateway as server identifier and router, mask, and the octets of every DNS server in order |
| `DhcpParsing.SevenServersFit` | squawk-client-go/pkg/dhcp/interceptor.go:275 | Seven parsed servers always fit the buffer; eight never do when the lease names a gateway and a mask |
| `DomainNames.JoinSplit` | dns-server/app/services/ioc_checker.py:131-133 | Joining the labels of a name gives the name |
| `DomainNames.AncestorsAreDomains` | dns-server/app/services/ioc_checker.py:131-134 | The joins of trailing labels are exactly the domains that a name is or lies under by suffix |
| `DomainNames.AncestorsShrink` | dns-server/app/services/selective_router.py:135-139 | Fewer labels make a shorter name, so the first hit is the longest |
| `DomainNames.FeedFormIs` | dns-server/app/services/ioc_checker.py:118 | The feed form is the part of a name between surrounding blanks and before trailing dots, letter for letter, without capitals |
| `DomainNames.PolicyFormIs` | dns-server/app/utils/domain_policy.py:11-13 | The policy form is the part of a name before trailing dots, letter for letter, without capitals |
| `DomainNames.FeedFormIgnores` | dns-server/app/services/ioc_checker.py:54 | Names that agree but for case, surrounding blanks and trailing dots have one feed form |
| `DomainNames.CaseIsIgnored` | dns-server/app/utils/domain_policy.py:13 | Names that differ only in case have one feed form and one policy form |
| `DomainNames.TrailingDotIgnored` | dns-server/app/utils/domain_policy.py:13 | A trailing dot never changes the policy form |
| `DomainNames.FeedDotIgnoredIff` | dns-server/app/services/ioc_checker.py:118 | A trailing dot leaves the feed form unchanged if and only if the name does not end in a blank, or is all blank |
| `ThreatFeeds.IocChecker.LoadFeeds` | dns-server/app/services/ioc_checker.py:25-65 | After loading, a name is listed if and only if some non-empty entry that is no address equals it or is above it, wildcards stripped |
| `ThreatFeeds.IocChecker.IsBlocked` | dns-server/app/services/ioc_checker.py:106-140 | Set lookups on label joins block exactly the names that are, or lie under, a listed domain |
| `ThreatFeeds.EntryBlocksIff` | dns-server/app/services/ioc_checker.py:49-65 | A feed entry blocks exactly the names that are its domain or end in a dot and its domain, whatever the case, blanks and dots of either |
| `ThreatFeeds.SpellingsAlike` | dns-server/app/services/ioc_checker.py:118 | Names spelled alike are blocked alike and allowed alike |
| `ThreatFeeds.IocChecker.CheckWildcard` | dns-server/app/services/ioc_checker.py:142-158 | Exactly the names at or under a wildcard's base match |
| `ThreatFeeds.SubdomainsAreListed` | dns-server/app/services/ioc_checker.py:130-138 | Blocking is closed under subdomains |
| `ThreatFeeds.PlainAndWildcardAlike` | dns-server/app/services/ioc_checker.py:142-158 | In any feeds an entry `x` may be replaced by `*.x` without changing what is blocked |
| `ThreatFeeds.MatchesPolicy` | dns-server/app/utils/domain_policy.py:16-62 | No list allows all; otherwise a name is allowed if and only if some entry equals it or is a wildcard it lies strictly under |
| `ThreatFeeds.EntryAllowsIff` | dns-server/app/utils/domain_policy.py:43-60 | An allowlist entry allows exactly itself and, as a wildcard, what ends in a dot and its base, whatever the case and trailing dots of either |
| `ThreatFeeds.ListAllowsIff` | dns-server/app/utils/domain_policy.py:45-62 | A list allows exactly what one of its entries allows |
| `ThreatFeeds.WildcardsDifferAtApex` | dns-server/app/utils/domain_policy.py:52-60 | The same wildcard, loaded as a feed and given as an allowlist, covers the same normalised names except its own apex, which only the feed covers |
| `ThreatFeeds.SomeNameIsRefused` | dns-server/app/utils/domain_policy.py:35-62 | Every list, however long, leaves some name out |
| `Zones.SelectiveRouter.LoadZones` | dns-server/app/services/selective_router.py:19-35 | The table holds exactly the listed names, each with the last zone of that name |
| `Zones.SelectiveRouter.FindZoneForDomain` | dns-server/app/services/selective_router.py:128-141 | The zone found is the one with the longest name that the domain is or lies under |
| `Zones.NearestIsLongest` | dns-server/app/services/selective_router.py:134-141 | Walking up the labels finds the longest name |
| `Zones.SelectiveRouter.GetZoneRecords` | dns-server/app/services/selective_router.py:111-126 | The records of that zone |
| `Zones.FindZoneName` | dns-server/app/main.py:409-420 | The first listed zone the domain is or lies under |
| `Zones.FirstIsLongest` | dns-server/app/main.py:409-420 | With distinct names, children listed first, the first match is the longest match |
| `Zones.CheckedIsServedIff` | dns-server/app/main.py:409-420 | With distinct names, the zone checked is the zone served for every domain if and only if no zone is listed after one above it |
| `Zones.ParentShadowsChild` | dns-server/app/main.py:409-420 | A zone listed after one above it is served for its own name but not the one checked |
| `Zones.ServedZoneGateIff` | dns-server/app/utils/resilience.py:58-131 | Then the gate opens if and only if the zone served is public, or the mode and the caller's teams permit it, or its name is empty |
| `Zones.SyncAgreesIff` | dns-server/app/main.py:387-393 | After a sync the loaded zones are those configured if and only if zones were sent or none had been loaded |
| `Zones.SyncsAgreeIff` | dns-server/app/main.py:380-393 | Over any sequence of syncs that is so at the end if and only if the last list has zones or none ever had |
| `QueryPipeline.DnsServer.DnsQuery` | dns-server/app/main.py:186-339 | The reply and the whole new state for every branch, in the order of the handler |
| `QueryPipeline.DnsServer.PassesChecks` | dns-server/app/main.py:218-274 | Zone gate, domain policy and name feeds together allow exactly the permitted names |
| `QueryPipeline.DnsServer.Fetch` | dns-server/app/main.py:293-325 | A fetched answer with a blocked address is denied and not cached; only a success is cached |
| `QueryPipeline.FromZoneIs` | dns-server/app/services/dns_resolver.py:107-129 | A zone answers with exactly the values of its records of that name and type, in order, with status 0; with none, status 3 and no answer |
| `QueryPipeline.FreshReplyIs` | dns-server/app/main.py:293-339 | An allowed query within its rate that is not cached gets its zone's records or else the public answer, unless that names a blocked address |
| `QueryPipeline.RefusedReplyIs` | dns-server/app/main.py:223-274 | A refusal has status 3, no answer, and leaves the cache alone |
| `QueryPipeline.StoredIsServed` | dns-server/app/services/cache_manager.py:61-82 | A successful answer is given again to every allowed query of the same question until it expires |
| `QueryPipeline.IdentityIs` | dns-server/app/main.py:189-203 | A query counts for the subject of a token that names no key and that the single key accepts, else for the client's address |
| `QueryPipeline.TooManyIff` | dns-server/app/main.py:199-216 | After any run a query gets status 429 if and only if the token-bucket backend, fed the named queries of the run, refuses its identity |
| `QueryPipeline.WaitIsHonoured` | dns-server/app/main.py:212-216 | A query told to wait is within its rate after that many seconds, whoever else asks meanwhile |
| `QueryPipeline.NextClean` | dns-server/app/main.py:276-325 | One query keeps every cached entry successful, free of blocked addresses and accounted for by an allowed query |
| `QueryPipeline.RunClean` | dns-server/app/main.py:276-325 | Hence so does every run from an empty cache |
| `QueryPipeline.ServedAnswersPassed` | dns-server/app/main.py:199-339 | After any run, a non-empty answer goes only to a query that passed the limiter, the zone gate, its token's policy and the name feeds, and names no blocked address |
| `QueryPipeline.KeyIsItsOwnIff` | dns-server/app/services/cache_manager.py:43 | A question shares its cache key with no other question if and only if neither its name nor its type has a colon |
| `QueryPipeline.CacheServesSameQuestion` | dns-server/app/services/cache_manager.py:29-85 | Whatever else was asked in the run, a cache hit for a question without a colon is what an earlier allowed query of the same name and type resolved to, less than the cache lifetime ago |
| `QueryPipeline.GateIff` | dns-server/app/utils/resilience.py:58-131 | With distinct zones listed children first, a query for a name in a zone passes the gate if and only if its caller may use that zone |
| `QueryPipeline.ZoneAnswersOnlyToPermitted` | dns-server/app/utils/resilience.py:58-131 | In every run with such zones, an answer to a question without a colon for a name in a zone with records, cached or not, is exactly that zone's values for that name and type and goes only to a caller who may use the zone |
| `QueryPipeline.DnsServer.Sync` | dns-server/app/main.py:387-397 | The new configuration, and what stays loaded when a list is empty |
| `QueryPipeline.RemovedZonesStayServed` | dns-server/app/main.py:387-393 | After a sync to no zones, records of the old ones are answered to any caller |
| `Tokens.SingleKeyVerifiesIff` | dns-server/app/utils/jwt_verify.py:58-129 | With the single key alone a token verifies if and only if it names no key and that key accepts it |
| `Tokens.NamedKeyVerifiesIff` | dns-server/app/utils/jwt_verify.py:73-80 | With a key set, a token that names a key verifies if and only if the key of that name accepts it |
| `Tokens.AnyKeyVerifiesIff` | dns-server/app/utils/jwt_verify.py:82-129 | A token that names none verifies if and only if some key accepts it and every earlier key is empty or shows a bad signature |
| `QueryPipeline.PolicyEnforcedIff` | dns-server/app/main.py:239-258 | The domain list of a token that opens zones binds its queries if and only if it has no list, or it names no key and the single key accepts it |

## Left out

- TLS, sockets, HTTP and gRPC plumbing, feature flags, logging, metrics and request counters: they surround the decisions modelled here.
- AES-SIV, HMAC, JWT and certificate internals: foreign libraries, entering as functions with stated laws or as parameters.
- Whether the timestamps of a response mean what section 8 of RFC 5905 asks: the header is modelled byte for byte, with the origin's rounding, but the code copies the wrong request field and leaves the epoch offset out of another.
- Floating-point rounding elsewhere: the clock, and time and tokens in the limiters, are reals.
- Socket errors while receiving or sending, which also end the receive loop.
- Instants within one step: all clock readings of one step agree, so the eight cookies of a key establishment are sealed at the same instant.
- Clocks before 1970: the model takes the floor where the code truncates (cookie expiry, window index, timestamps), which agree from the epoch on.
- Bucket objects: the in-memory backend holds buckets by value, so aliasing between a bucket handed out and the one stored is not captured.
- SQL details: rows are read in insertion order, which the database does not promise; addresses are integers; hostname, lease start and pool settings are left out; a step is atomic.
- Unicode: lower-casing and trimming cover ASCII only.
- The address side of the feeds: which texts are addresses, and which answers are blocked, are abstract predicates.
- JSON and redis failures in the cache beyond "up or down for this query", and the TTL of zone records.
- `selective_router.py`'s own permission methods, which the query handler does not call, and the unwired gRPC query servicer, which would cache without looking at addresses.
- The manager client: token validity, refresh outcome and configuration age are inputs of a query.
- DHCP offer and decline packets other than through the shared builder, and sending packets.
