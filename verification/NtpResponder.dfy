/** The NTS-protected UDP responder: which datagrams it answers, and with what (sections 5.6 and 5.7
    of RFC 8915), and how one that raises ends its receive loop. */
module NtpResponder {
  import opened Basics
  import opened Bytes
  import opened Cookies
  import opened NtpHeaders
  import opened ExtensionFields
  import opened UdpRateLimit

  /** The authenticator: the AES-SIV tag of an empty plaintext over the preceding bytes. */
  function Mac(siv: Siv, key: Bytes, aad: Bytes): (tag: Bytes)
    ensures |tag| == 16 && siv.open(key, tag, aad) == Some([])
  {
    var sealed := siv.seal(key, [], aad);
    assert sealed[..16] == sealed;
    sealed[..16]
  }

  // ----- building a protected packet

  function ProtectedSpecs(uid: Bytes, wireCookie: Bytes): (specs: seq<Spec>)
    ensures Fits(uid, wireCookie) ==> AllFramable(specs)
  {
    var cookie := Spec(NTS_COOKIE, Padded(wireCookie));
    assert [cookie][1..] == [];
    if uid == [] then [cookie]
    else
      var id := Spec(UNIQUE_IDENTIFIER, Padded(uid));
      assert [id, cookie][1..] == [cookie];
      assert [cookie] == [] || (Framable(cookie) && AllFramable([])) ==> AllFramable([cookie]);
      [id, cookie]
  }

  predicate Fits(uid: Bytes, wireCookie: Bytes) {
    |Padded(uid)| + 4 < 0x10000 && |Padded(wireCookie)| + 4 < 0x10000
  }

  /** Everything the authenticator of a protected packet covers. */
  function Covered(header: Bytes, uid: Bytes, wireCookie: Bytes): Bytes
    requires Fits(uid, wireCookie)
  {
    header + Frames(ProtectedSpecs(uid, wireCookie))
  }

  /** A packet with an optional identifier, a cookie and an authenticator under `key`. */
  function ProtectedPacket(siv: Siv, header: Bytes, uid: Bytes, wireCookie: Bytes, key: Bytes): Bytes
    requires Fits(uid, wireCookie)
  {
    var covered := Covered(header, uid, wireCookie);
    covered + Frame(Spec(NTS_AUTHENTICATOR, Mac(siv, key, covered)))
  }

  /** `build_ntp_response` to a request whose origin timestamp is `origin`. */
  function BuildResponse(siv: Siv, ring: Keyring, origin: nat, keys: SessionKeys, uid: Bytes, now: real): Attempt<Bytes> {
    var header := ReplyHeader(origin, now);
    if header.Raised? || |Padded(uid)| + 4 >= 0x10000 then Raised
    else
      match Seal(siv, ring, keys, now)
      case Raised => Raised
      case Returned(cookie) =>
        if !Encodable(cookie) || !Fits(uid, WireEncode(cookie)) || keys.aeadId != AES_SIV_CMAC_256 then Raised
        else Returned(ProtectedPacket(siv, header.value, uid, WireEncode(cookie), keys.s2c))
  }

  // ----- judging a datagram

  /** What a datagram that passed the rate limit gets. */
  datatype Verdict =
    | Dropped
    | Crashed
    | Authentic(keys: SessionKeys, uid: Bytes, cookie: Cookie)

  predicate Verifies(siv: Siv, keys: SessionKeys, a: Authenticator) {
    keys.aeadId == AES_SIV_CMAC_256 && a.tag == Mac(siv, keys.c2s, a.aad)
  }

  function Judge(siv: Siv, ring: Keyring, data: Bytes, now: real): Verdict {
    if |data| < HEADER_LENGTH then Dropped
    else
      var field := Lookup(data, NTS_COOKIE);
      if field.None? || field.value == [] || Extracted(data).None? then Dropped
      else
        match WireDecode(field.value)
        case Raised => Crashed
        case Returned(None) => Dropped
        case Returned(Some(cookie)) =>
          var keys := Unseal(siv, ring, cookie, now);
          if keys.None? || !Verifies(siv, keys.value, Extracted(data).value) then Dropped
          else
            var uid := Lookup(data, UNIQUE_IDENTIFIER);
            Authentic(keys.value, if uid.Some? then uid.value else [], cookie)
  }

  /** `data` carries cookie `c` in the field the server reads. */
  predicate Presents(data: Bytes, c: Cookie) {
    Lookup(data, NTS_COOKIE).Some? && WireDecode(Lookup(data, NTS_COOKIE).value) == Returned(Some(c))
  }

  /** `data` carries an authenticator made with the C2S key of `keys`. */
  predicate Authenticates(siv: Siv, keys: SessionKeys, data: Bytes) {
    Extracted(data).Some? && Verifies(siv, keys, Extracted(data).value)
  }

  /** A datagram is authentic exactly when it presents a cookie that unseals to keys it is authenticated under. */
  lemma {:induction false} AuthenticIff(siv: Siv, ring: Keyring, data: Bytes, now: real, c: Cookie, keys: SessionKeys)
    ensures (&& |data| >= HEADER_LENGTH
             && Presents(data, c)
             && Unseal(siv, ring, c, now) == Some(keys)
             && Authenticates(siv, keys, data))
            <==> (var v := Judge(siv, ring, data, now); v.Authentic? && v.cookie == c && v.keys == keys)
  {
    assert WireDecode([]) == Returned(None);
  }

  datatype Reaction = Silent | Failed | Replies(response: Bytes)

  function React(siv: Siv, ring: Keyring, data: Bytes, now: real): Reaction {
    match Judge(siv, ring, data, now)
    case Dropped => Silent
    case Crashed => Failed
    case Authentic(keys, uid, _) =>
      var built := BuildResponse(siv, ring, OriginOf(data), keys, uid, now);
      if built.Raised? then Failed else Replies(built.value)
  }

  class NtpUdpServer {
    const cookieManager: CookieManager
    const limiter: Limiter
    var serving: bool

    constructor (cookieManager: CookieManager, limiter: Limiter)
      ensures this.cookieManager == cookieManager && this.limiter == limiter && serving
    {
      this.cookieManager := cookieManager;
      this.limiter := limiter;
      serving := true;
    }

    /** One turn of the receive loop: an exception leaves the loop and closes the socket. */
    method Receive(data: Bytes, source: string, now: real) returns (sent: Option<Bytes>)
      modifies this`serving, limiter
      ensures !old(serving) ==> sent == None && !serving && limiter.state == old(limiter.state)
      ensures old(serving) ==>
                var r := if Refused(limiter.limit, Entry(old(limiter.state), source), now) then Silent
                         else React(cookieManager.siv, cookieManager.Ring(), data, now);
                && limiter.state == After(limiter.limit, limiter.maxTracked, old(limiter.state), source, now)
                && sent == (if r.Replies? then Some(r.response) else None)
                && serving == !r.Failed?
    {
      if !serving {
        return None;
      }
      var r := HandleRequest(data, source, now);
      serving := !r.Failed?;
      sent := if r.Replies? then Some(r.response) else None;
    }

    method HandleRequest(data: Bytes, source: string, now: real) returns (r: Reaction)
      modifies limiter
      ensures limiter.state == After(limiter.limit, limiter.maxTracked, old(limiter.state), source, now)
      ensures r == if Refused(limiter.limit, Entry(old(limiter.state), source), now) then Silent
                   else React(cookieManager.siv, cookieManager.Ring(), data, now)
    {
      var limited := limiter.RateLimited(source, now);
      if limited {
        return Silent;
      }
      if |data| < HEADER_LENGTH {
        return Silent;
      }
      var fields := ParseFields(data);
      if NTS_COOKIE !in fields || fields[NTS_COOKIE] == [] {
        return Silent;
      }
      var authenticator := ExtractAuthenticator(data);
      if authenticator.None? {
        return Silent;
      }
      var decoded := WireDecode(fields[NTS_COOKIE]);
      if decoded.Raised? {
        return Failed;
      }
      if decoded.value.None? {
        return Silent;
      }
      var siv, ring := cookieManager.siv, cookieManager.Ring();
      var keys := Unseal(siv, ring, decoded.value.value, now);
      if keys.None? || !Verifies(siv, keys.value, authenticator.value) {
        return Silent;
      }
      var uid := if UNIQUE_IDENTIFIER in fields then fields[UNIQUE_IDENTIFIER] else [];
      var built := BuildResponse(siv, ring, OriginOf(data), keys.value, uid, now);
      r := if built.Raised? then Failed else Replies(built.value);
    }
  }

  // ----- reading a protected packet back

  /** The fields of a protected packet, in order. */
  lemma {:induction false} PacketFields(siv: Siv, header: Bytes, uid: Bytes, wireCookie: Bytes, key: Bytes)
    requires |header| == HEADER_LENGTH && Fits(uid, wireCookie)
    ensures var covered := Covered(header, uid, wireCookie);
            var fs := Walk(ProtectedPacket(siv, header, uid, wireCookie, key), HEADER_LENGTH);
            var n := |fs|;
            && n == (if uid == [] then 2 else 3)
            && (uid != [] ==> fs[0].ftype == UNIQUE_IDENTIFIER && fs[0].body == Padded(uid))
            && fs[n - 2].ftype == NTS_COOKIE && fs[n - 2].body == Padded(wireCookie)
            && fs[n - 1] == Field(|covered|, NTS_AUTHENTICATOR, Mac(siv, key, covered))
  {
    var covered := Covered(header, uid, wireCookie);
    var first := ProtectedSpecs(uid, wireCookie);
    var auth := Spec(NTS_AUTHENTICATOR, Mac(siv, key, covered));
    assert covered[HEADER_LENGTH..] == Frames(first);
    WalkExtended(covered, HEADER_LENGTH, first, auth);
    WalkFrames(covered, HEADER_LENGTH, first);
    ProtectedPlaced(HEADER_LENGTH, uid, wireCookie);
  }

  lemma {:induction false} ProtectedPlaced(n: nat, uid: Bytes, wireCookie: Bytes)
    ensures var o := n + 4 + |Padded(uid)|;
            Placed(n, ProtectedSpecs(uid, wireCookie))
            == if uid == [] then [Field(n, NTS_COOKIE, Padded(wireCookie))]
               else [Field(n, UNIQUE_IDENTIFIER, Padded(uid)), Field(o, NTS_COOKIE, Padded(wireCookie))]
  {
    var c := Spec(NTS_COOKIE, Padded(wireCookie));
    PlacedOne(n, c);
    if uid != [] {
      var o := n + 4 + |Padded(uid)|;
      assert ProtectedSpecs(uid, wireCookie)[1..] == [c];
      PlacedOne(o, c);
    }
  }

  lemma {:induction false} PlacedOne(n: nat, s: Spec)
    ensures Placed(n, [s]) == [Field(n, s.ftype, s.body)]
  {
  }

  lemma {:induction false} PickFromTwo(a: Field, b: Field, t: nat)
    ensures LastOf([a, b], t) == if b.ftype == t then Some(b) else if a.ftype == t then Some(a) else None
  {
    assert [a, b][..1] == [a] && [a][..0] == [];
    assert LastOf([a], t) == if a.ftype == t then Some(a) else None;
  }

  lemma {:induction false} PickFromThree(a: Field, b: Field, c: Field, t: nat)
    ensures LastOf([a, b, c], t) == if c.ftype == t then Some(c) else LastOf([a, b], t)
  {
    assert [a, b, c][..2] == [a, b];
  }

  /** Both readers understand a protected packet: identifier and cookie come back padded, and the
      authenticator covers exactly the bytes before it and is the MAC under the packet's key. */
  lemma {:induction false} PacketReadsBack(siv: Siv, header: Bytes, uid: Bytes, wireCookie: Bytes, key: Bytes)
    requires |header| == HEADER_LENGTH && Fits(uid, wireCookie)
    ensures var packet := ProtectedPacket(siv, header, uid, wireCookie, key);
            var covered := Covered(header, uid, wireCookie);
            && |packet| == |covered| + 20
            && Lookup(packet, UNIQUE_IDENTIFIER) == (if uid == [] then None else Some(Padded(uid)))
            && Lookup(packet, NTS_COOKIE) == Some(Padded(wireCookie))
            && Extracted(packet) == Some(Authenticator(covered, Mac(siv, key, covered)))
  {
    PacketFields(siv, header, uid, wireCookie, key);
    var packet := ProtectedPacket(siv, header, uid, wireCookie, key);
    var fs := Walk(packet, HEADER_LENGTH);
    var covered := Covered(header, uid, wireCookie);
    assert packet[..|covered|] == covered;
    FirstIsFound(packet, HEADER_LENGTH, |fs| - 1);
    if uid == [] {
      assert fs == [fs[0], fs[1]];
      PickFromTwo(fs[0], fs[1], UNIQUE_IDENTIFIER);
      PickFromTwo(fs[0], fs[1], NTS_COOKIE);
    } else {
      assert fs == [fs[0], fs[1], fs[2]];
      PickFromThree(fs[0], fs[1], fs[2], UNIQUE_IDENTIFIER);
      PickFromTwo(fs[0], fs[1], UNIQUE_IDENTIFIER);
      PickFromThree(fs[0], fs[1], fs[2], NTS_COOKIE);
      PickFromTwo(fs[0], fs[1], NTS_COOKIE);
    }
  }

  /** A field framed after a protected packet is walked after the packet's own fields. */
  lemma {:induction false} TrailingField(siv: Siv, header: Bytes, uid: Bytes, wireCookie: Bytes, key: Bytes, s: Spec)
    requires |header| == HEADER_LENGTH && Fits(uid, wireCookie) && Framable(s)
    ensures var packet := ProtectedPacket(siv, header, uid, wireCookie, key);
            Walk(packet + Frame(s), HEADER_LENGTH) == Walk(packet, HEADER_LENGTH) + [Field(|packet|, s.ftype, s.body)]
  {
    var covered := Covered(header, uid, wireCookie);
    var auth := Spec(NTS_AUTHENTICATOR, Mac(siv, key, covered));
    var first := ProtectedSpecs(uid, wireCookie);
    var packet := ProtectedPacket(siv, header, uid, wireCookie, key);
    FramesAppend(first, auth);
    assert packet[HEADER_LENGTH..] == Frames(first) + Frame(auth);
    WalkExtended(packet, HEADER_LENGTH, first + [auth], s);
  }

  /** A cookie field placed after the authenticator replaces the authenticated one in the dictionary,
      while the authenticator found stays the same. */
  lemma {:induction false} TrailingCookieIsUsed(siv: Siv, header: Bytes, wireCookie: Bytes, key: Bytes, other: Bytes)
    requires |header| == HEADER_LENGTH && Fits([], wireCookie) && |Padded(other)| + 4 < 0x10000
    ensures var packet := ProtectedPacket(siv, header, [], wireCookie, key);
            var extended := packet + BuildField(NTS_COOKIE, other);
            && Extracted(extended) == Extracted(packet)
            && Lookup(extended, NTS_COOKIE) == Some(Padded(other))
  {
    var packet := ProtectedPacket(siv, header, [], wireCookie, key);
    var extended := packet + BuildField(NTS_COOKIE, other);
    var covered := Covered(header, [], wireCookie);
    TrailingField(siv, header, [], wireCookie, key, Spec(NTS_COOKIE, Padded(other)));
    PacketFields(siv, header, [], wireCookie, key);
    PacketReadsBack(siv, header, [], wireCookie, key);
    var fs := Walk(extended, HEADER_LENGTH);
    assert fs == [fs[0], fs[1], fs[2]];
    PickFromThree(fs[0], fs[1], fs[2], NTS_COOKIE);
    FirstIsFound(extended, HEADER_LENGTH, 1);
    assert extended[..|covered|] == covered;
  }

  /** A client reading a response finds its identifier, a cookie that unseals to its own session keys,
      and an authenticator that verifies under its S2C key. */
  lemma {:induction false} ResponseReadsBack(siv: Siv, ring: Keyring, origin: nat, keys: SessionKeys, uid: Bytes, now: real)
    requires FullLength(keys)
    requires BuildResponse(siv, ring, origin, keys, uid, now).Returned?
    ensures var response := BuildResponse(siv, ring, origin, keys, uid, now).value;
            && Lookup(response, UNIQUE_IDENTIFIER) == (if uid == [] then None else Some(Padded(uid)))
            && Lookup(response, NTS_COOKIE).Some?
            && WireDecode(Lookup(response, NTS_COOKIE).value) == Returned(Some(Seal(siv, ring, keys, now).value))
            && Unseal(siv, ring, Seal(siv, ring, keys, now).value, now) == Some(keys)
            && Extracted(response).Some?
            && Extracted(response).value.aad == response[..|response| - 20]
            && Extracted(response).value.tag == Mac(siv, keys.s2c, response[..|response| - 20])
  {
    var response := BuildResponse(siv, ring, origin, keys, uid, now).value;
    var header := ReplyHeader(origin, now).value;
    var cookie := Seal(siv, ring, keys, now).value;
    PacketReadsBack(siv, header, uid, WireEncode(cookie), keys.s2c);
    WireRoundTrip(cookie, Zeros(PadLength(|WireEncode(cookie)|)));
    UnsealSealed(siv, ring, keys, now, ring, now);
    assert response[..|response| - 20] == Covered(header, uid, WireEncode(cookie));
  }

  // ----- when the handler raises

  /** The cookie field of a datagram with an authenticator has a zero length prefix. */
  predicate EmptyCookieBody(data: Bytes) {
    && |data| >= HEADER_LENGTH
    && Extracted(data).Some?
    && Lookup(data, NTS_COOKIE).Some?
    && |Lookup(data, NTS_COOKIE).value| >= 3
    && UnpackU16(Lookup(data, NTS_COOKIE).value[..2]) == 0
  }

  /** The current master key is held and its version fits a byte. */
  predicate HasCurrentKey(ring: Keyring) {
    ring.version < 256 && ring.version in ring.keys
  }

  /** `handle_request` raises exactly when the cookie's length prefix is zero, or the datagram is authentic but
      its origin or the clock does not fit a header, or the master-key version does not fit a byte. */
  lemma {:induction false} FailsIff(siv: Siv, ring: Keyring, data: Bytes, now: real)
    ensures React(siv, ring, data, now).Failed?
            <==> || EmptyCookieBody(data)
                 || (&& |data| >= HEADER_LENGTH && Judge(siv, ring, data, now).Authentic?
                     && !(Replyable(OriginOf(data), now) && HasCurrentKey(ring)))
  {
    var v := Judge(siv, ring, data, now);
    if v.Authentic? {
      AuthenticIff(siv, ring, data, now, v.cookie, v.keys);
      AuthenticFits(siv, ring, data, now);
      ResponseBuilt(siv, ring, OriginOf(data), v.keys, v.uid, now);
    }
  }

  /** An authentic datagram's keys and identifier fit the response. */
  lemma {:induction false} AuthenticFits(siv: Siv, ring: Keyring, data: Bytes, now: real)
    requires Judge(siv, ring, data, now).Authentic?
    ensures var v := Judge(siv, ring, data, now);
            FullLength(v.keys) && v.keys.aeadId == AES_SIV_CMAC_256 && |Padded(v.uid)| + 4 < 0x10000
  {
    if Lookup(data, UNIQUE_IDENTIFIER).Some? {
      LookupAligned(data, UNIQUE_IDENTIFIER);
    }
  }

  /** When a response is built at all. */
  lemma {:induction false} ResponseBuilt(siv: Siv, ring: Keyring, origin: nat, keys: SessionKeys, uid: Bytes, now: real)
    requires origin < TWO_64
    requires FullLength(keys) && keys.aeadId == AES_SIV_CMAC_256
    requires |Padded(uid)| + 4 < 0x10000
    ensures BuildResponse(siv, ring, origin, keys, uid, now).Returned?
            <==> Replyable(origin, now) && HasCurrentKey(ring)
  {
    HeaderBuiltIff(origin, now);
    Pow256Of8();
    assert Replyable(origin, now) ==> 0 <= Expiry(now) < TWO_64;
  }
}
