/** The NTS-KE exchange: the bearer-token gate, the eight sealed cookies and the response stream. */
module KeyEstablishment {
  import opened Basics
  import opened Bytes
  import opened Cookies
  import opened NtsKeRecords

  const COOKIES_PER_SESSION := 8
  const NTPV4 := 0

  /** Code that is foreign to the exchange: UTF-8 decoding with trimming, and `verify_jwt` for scope `ntp:client`. */
  datatype Gate = Gate(decodeText: Bytes -> Option<string>, verify: string -> bool)

  predicate Admitted(gate: Gate, request: Bytes) {
    var token := AuthToken(gate.decodeText, request);
    token.Some? && gate.verify(token.value)
  }

  /** A cookie fits a record when its wire form does. */
  predicate Sendable(c: Cookie) {
    Encodable(c) && |WireEncode(c)| < 0x10000
  }

  predicate AllSendable(cookies: seq<Cookie>) {
    forall i :: 0 <= i < |cookies| ==> Sendable(cookies[i])
  }

  function CookieRecord(c: Cookie): Record
    requires Sendable(c)
  {
    Record(NEW_COOKIE, WireEncode(c), false)
  }

  function CookieRecords(cookies: seq<Cookie>): (rs: seq<Record>)
    requires AllSendable(cookies)
    ensures |rs| == |cookies|
    ensures forall i :: 0 <= i < |rs| ==> WellFormed(rs[i]) && rs[i] == CookieRecord(cookies[i])
  {
    seq(|cookies|, i requires 0 <= i < |cookies| => CookieRecord(cookies[i]))
  }

  function ResponseRecords(aeadId: nat, cookies: seq<Cookie>): (rs: seq<Record>)
    requires aeadId < 0x10000 && AllSendable(cookies)
    ensures forall r <- rs :: WellFormed(r)
  {
    [Record(NEXT_PROTOCOL, PackU16(NTPV4), true), Record(AEAD_ALGORITHM, PackU16(aeadId), false)]
    + CookieRecords(cookies)
    + [Record(END_OF_MESSAGE, [], true)]
  }

  /** `_build_nts_ke_response` */
  method BuildKeResponse(aeadId: nat, cookies: seq<Cookie>) returns (response: Bytes)
    requires aeadId < 0x10000 && AllSendable(cookies)
    ensures response == EncodeAll(ResponseRecords(aeadId, cookies))
  {
    var nextProtocol := Record(NEXT_PROTOCOL, PackU16(NTPV4), true);
    var aead := Record(AEAD_ALGORITHM, PackU16(aeadId), false);
    response := [];
    ghost var sent: seq<Record> := [];
    response := response + Encode(nextProtocol);
    EncodeAllAppend(sent, nextProtocol);
    sent := sent + [nextProtocol];
    response := response + Encode(aead);
    EncodeAllAppend(sent, aead);
    sent := sent + [aead];
    for i := 0 to |cookies|
      invariant sent == [nextProtocol, aead] + CookieRecords(cookies)[..i]
      invariant forall r <- sent :: WellFormed(r)
      invariant response == EncodeAll(sent)
    {
      EncodeAllAppend(sent, CookieRecord(cookies[i]));
      response := response + Encode(CookieRecord(cookies[i]));
      sent := sent + [CookieRecord(cookies[i])];
    }
    var end := Record(END_OF_MESSAGE, [], true);
    EncodeAllAppend(sent, end);
    assert CookieRecords(cookies)[..|cookies|] == CookieRecords(cookies);
    assert sent + [end] == ResponseRecords(aeadId, cookies);
    response := response + Encode(end);
  }

  datatype KeReaction =
    | Ignored
    | Rejected(response: Bytes)
    | ExportFailed
    | Established(keys: SessionKeys, cookies: seq<Cookie>, response: Bytes)

  function RejectionRecords(): seq<Record> {
    [Record(ERROR_RECORD, PackU16(1), true), Record(END_OF_MESSAGE, [], true)]
  }

  function Establish(siv: Siv, ring: Keyring, gate: Gate, request: Bytes, c2s: Bytes, s2c: Bytes, now: real): KeReaction {
    var keys := SessionKeys(c2s, s2c, AES_SIV_CMAC_256);
    if request == [] then Ignored
    else if !Admitted(gate, request) then Rejected(EncodeAll(RejectionRecords()))
    else if !FullLength(keys) || !CanSeal(ring, keys, now) then ExportFailed
    else
      var cookies := seq(COOKIES_PER_SESSION, _ => Seal(siv, ring, keys, now).value);
      Established(keys, cookies, EncodeAll(ResponseRecords(AES_SIV_CMAC_256, cookies)))
  }

  lemma {:induction false} TwoEncoded(a: Record, b: Record)
    requires WellFormed(a) && WellFormed(b)
    ensures EncodeAll([a, b]) == Encode(a) + Encode(b)
  {
    EncodeAllAppend([], a);
    EncodeAllAppend([a], b);
    assert [a] + [b] == [a, b] && [] + [a] == [a];
  }

  /** `handle_client`, given the keys the TLS exporter returned. */
  method HandleClient(manager: CookieManager, gate: Gate, request: Bytes, c2s: Bytes, s2c: Bytes, now: real)
      returns (r: KeReaction)
    ensures r == Establish(manager.siv, manager.Ring(), gate, request, c2s, s2c, now)
  {
    if request == [] {
      return Ignored;
    }
    var token := ExtractAuthToken(gate.decodeText, request);
    if token.None? || !gate.verify(token.value) {
      var refusal, end := Record(ERROR_RECORD, PackU16(1), true), Record(END_OF_MESSAGE, [], true);
      TwoEncoded(refusal, end);
      return Rejected(Encode(refusal) + Encode(end));
    }
    var keys := SessionKeys(c2s, s2c, AES_SIV_CMAC_256);
    if |c2s| != SESSION_KEY_LENGTH || |s2c| != SESSION_KEY_LENGTH {
      return ExportFailed;
    }
    var sealed := SealCookies(manager.siv, manager.Ring(), keys, now);
    if sealed.Raised? {
      return ExportFailed;
    }
    var response := BuildKeResponse(AES_SIV_CMAC_256, sealed.value);
    r := Established(keys, sealed.value, response);
  }

  method SealCookies(siv: Siv, ring: Keyring, keys: SessionKeys, now: real) returns (r: Attempt<seq<Cookie>>)
    ensures r == if !CanSeal(ring, keys, now) then Raised
                 else Returned(seq(COOKIES_PER_SESSION, _ => Seal(siv, ring, keys, now).value))
  {
    var cookies: seq<Cookie> := [];
    for i := 0 to COOKIES_PER_SESSION
      invariant |cookies| == i
      invariant i > 0 ==> CanSeal(ring, keys, now)
      invariant forall j :: 0 <= j < i ==> cookies[j] == Seal(siv, ring, keys, now).value
    {
      var sealed := Seal(siv, ring, keys, now);
      if sealed.Raised? {
        return Raised;
      }
      cookies := cookies + [sealed.value];
    }
    assert cookies == seq(COOKIES_PER_SESSION, _ => Seal(siv, ring, keys, now).value);
    r := Returned(cookies);
  }

  /** The record parser reads a response back as next-protocol, AEAD, one record per cookie and a
      critical end of message, and each cookie record decodes to its cookie. */
  lemma {:induction false} ResponseParses(aeadId: nat, cookies: seq<Cookie>)
    requires aeadId < 0x10000 && AllSendable(cookies)
    ensures var rs := RecordsFrom(EncodeAll(ResponseRecords(aeadId, cookies)), 0);
            && |rs| == |cookies| + 3
            && rs[0] == Record(1, [0, 0], true)
            && rs[1] == Record(4, [aeadId / 256, aeadId % 256], false)
            && rs[|rs| - 1] == Record(0, [], true)
            && forall i :: 0 <= i < |cookies| ==>
                 && rs[2 + i].rtype == 5
                 && !rs[2 + i].critical
                 && WireDecode(rs[2 + i].body) == Returned(Some(cookies[i]))
  {
    ParseEncoded(ResponseRecords(aeadId, cookies));
    forall i | 0 <= i < |cookies|
      ensures WireDecode(WireEncode(cookies[i])) == Returned(Some(cookies[i]))
    {
      WireRoundTrip(cookies[i], []);
      assert WireEncode(cookies[i]) + [] == WireEncode(cookies[i]);
    }
  }

  /** An admitted client that parses the response holds eight cookies, each unsealing to its session keys. */
  lemma {:induction false} EstablishedCookiesUnseal(siv: Siv, ring: Keyring, gate: Gate, request: Bytes, c2s: Bytes, s2c: Bytes, now: real)
    requires Establish(siv, ring, gate, request, c2s, s2c, now).Established?
    ensures var e := Establish(siv, ring, gate, request, c2s, s2c, now);
            var rs := RecordsFrom(e.response, 0);
            && |rs| == 11
            && exists c :: Unseal(siv, ring, c, now) == Some(SessionKeys(c2s, s2c, 15))
                           && forall i :: 2 <= i < 10 ==> WireDecode(rs[i].body) == Returned(Some(c))
  {
    var e := Establish(siv, ring, gate, request, c2s, s2c, now);
    ResponseParses(AES_SIV_CMAC_256, e.cookies);
    UnsealSealed(siv, ring, e.keys, now, ring, now);
    var rs, c := RecordsFrom(e.response, 0), Seal(siv, ring, e.keys, now).value;
    forall i | 2 <= i < 10 ensures WireDecode(rs[i].body) == Returned(Some(c)) {
      var j := i - 2;
      assert e.cookies[j] == c && rs[2 + j] == rs[i];
    }
  }

  /** A request is admitted exactly when its first record of the token type holds a token that verifies. */
  lemma {:induction false} AdmittedIff(gate: Gate, rs: seq<Record>)
    requires forall r <- rs :: WellFormed(r)
    ensures Admitted(gate, EncodeAll(rs))
            <==> exists i :: 0 <= i < |rs| && IsFirstToken(rs, i) && Verified(gate, rs[i].body)
  {
    var token := AuthToken(gate.decodeText, EncodeAll(rs));
    if token.Some? {
      AuthTokenIff(gate.decodeText, rs, token.value);
    }
    if exists i :: 0 <= i < |rs| && IsFirstToken(rs, i) && Verified(gate, rs[i].body) {
      var i :| 0 <= i < |rs| && IsFirstToken(rs, i) && Verified(gate, rs[i].body);
      AuthTokenIff(gate.decodeText, rs, gate.decodeText(rs[i].body).value);
    }
  }

  /** A client that parses a refusal finds a critical error record with code 1 and a critical end of message. */
  lemma {:induction false} RefusalParses(siv: Siv, ring: Keyring, gate: Gate, request: Bytes, c2s: Bytes, s2c: Bytes, now: real)
    requires request != [] && !Admitted(gate, request)
    ensures var r := Establish(siv, ring, gate, request, c2s, s2c, now);
            r.Rejected? && RecordsFrom(r.response, 0) == [Record(2, [0, 1], true), Record(0, [], true)]
  {
    RefusalRecords(RejectionRecords());
  }

  lemma {:induction false} RefusalRecords(rs: seq<Record>)
    requires rs == RejectionRecords()
    ensures RecordsFrom(EncodeAll(rs), 0) == [Record(2, [0, 1], true), Record(0, [], true)]
  {
    ParseEncoded(rs);
  }

  /** A record body holds a token that verifies. */
  predicate Verified(gate: Gate, body: Bytes) {
    var text := gate.decodeText(body);
    text.Some? && text.value != "" && gate.verify(text.value)
  }
}
