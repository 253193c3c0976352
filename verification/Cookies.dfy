/** NTS cookies: sealing session keys under a rotating master key, and the cookie's wire format. */
module Cookies {
  import opened Basics
  import opened Bytes

  const AES_SIV_CMAC_256 := 15
  const SESSION_KEY_LENGTH := 32
  const COOKIE_LIFETIME := 86400.0
  const GRACE_PERIOD := 3600.0

  // ----- AES-SIV

  /** AES-SIV with one associated-data string: `seal(key, plaintext, aad)` and `open(key, sealed, aad)`. */
  datatype SivOps = SivOps(seal: (Bytes, Bytes, Bytes) -> Bytes,
                           open: (Bytes, Bytes, Bytes) -> Option<Bytes>)

  /** The algebra of RFC 5297: sealing is deterministic and adds a 16-byte tag; opening accepts
      exactly the sealings of a plaintext. Unforgeability is not a law: runs state it as a hypothesis. */
  ghost predicate Lawful(s: SivOps) {
    && (forall k, p, a :: |s.seal(k, p, a)| == |p| + 16)
    && (forall k, c, a, p :: s.open(k, c, a) == Some(p) <==> c == s.seal(k, p, a))
  }

  /** A degenerate cipher that obeys the laws, so they are consistent. */
  const TAG_ONLY := SivOps((k, p, a) => Zeros(16) + p,
                           (k, c, a) => if |c| >= 16 && c[..16] == Zeros(16) then Some(c[16..]) else None)

  lemma TagOnlyIsLawful()
    ensures Lawful(TAG_ONLY)
  {
    forall k: Bytes, c: Bytes, a: Bytes, p: Bytes
      ensures TAG_ONLY.open(k, c, a) == Some(p) <==> c == TAG_ONLY.seal(k, p, a)
    {
      if |c| >= 16 {
        assert c == c[..16] + c[16..];
      }
    }
  }

  type Siv = s: SivOps | Lawful(s) ghost witness (TagOnlyIsLawful(); TAG_ONLY)

  // ----- session keys and cookies

  datatype SessionKeys = SessionKeys(c2s: Bytes, s2c: Bytes, aeadId: nat)

  datatype Cookie = Cookie(version: nat, sealed: Bytes)

  predicate FullLength(k: SessionKeys) {
    |k.c2s| == SESSION_KEY_LENGTH && |k.s2c| == SESSION_KEY_LENGTH && k.aeadId < 0x10000
  }

  function Expiry(now: real): int {
    (now + COOKIE_LIFETIME).Floor
  }

  function Plaintext(k: SessionKeys, expiry: nat): (p: Bytes)
    requires k.aeadId < 0x10000
    ensures |p| == |k.c2s| + |k.s2c| + 10
  {
    k.c2s + k.s2c + PackU16(k.aeadId) + PackBE(expiry, 8)
  }

  // ----- the master-key ring

  datatype Keyring = Keyring(version: nat, keys: map<nat, Bytes>, graceEnds: real)

  function InitialRing(now: real, key: Bytes): Keyring {
    Keyring(0, map[0 := key], now + GRACE_PERIOD)
  }

  function Rotated(ring: Keyring, now: real, newKey: Bytes): Keyring {
    var kept := if now > ring.graceEnds && ring.version >= 1 then ring.keys - {ring.version - 1} else ring.keys;
    Keyring(ring.version + 1, kept[ring.version + 1 := newKey], now + GRACE_PERIOD)
  }

  /** Whether `seal_cookie` returns: `struct.pack` raises for a version over one byte or a clock
      outside 64 bits, and the current version must have a key. */
  predicate CanSeal(ring: Keyring, k: SessionKeys, now: real) {
    && k.aeadId < 0x10000
    && 0 <= Expiry(now) < Pow256(8)
    && ring.version < 256
    && ring.version in ring.keys
  }

  function Seal(siv: Siv, ring: Keyring, k: SessionKeys, now: real): Attempt<Cookie> {
    if !CanSeal(ring, k, now) then Raised
    else
      var sealed := siv.seal(ring.keys[ring.version], Plaintext(k, Expiry(now)), [ring.version]);
      Returned(Cookie(ring.version, sealed))
  }

  function Unseal(siv: Siv, ring: Keyring, cookie: Cookie, now: real): Option<SessionKeys> {
    if cookie.version !in ring.keys || cookie.version >= 256 then None
    else
      match siv.open(ring.keys[cookie.version], cookie.sealed, [cookie.version])
      case None => None
      case Some(p) =>
        if |p| < 74 then None
        else if now > UnpackBE(p[66..74]) as real then None
        else Some(SessionKeys(p[..32], p[32..64], UnpackU16(p[64..66])))
  }

  /** What unsealing requires and gives, of any cookie: a held key that opens it, at least 74 bytes of plaintext, and
      an expiry that is not past. */
  lemma {:induction false} UnsealIff(siv: Siv, ring: Keyring, c: Cookie, now: real, p: Bytes)
    requires c.version < 256 && c.version in ring.keys && siv.open(ring.keys[c.version], c.sealed, [c.version]) == Some(p)
    ensures Unseal(siv, ring, c, now).Some? <==> |p| >= 74 && now <= UnpackBE(p[66..74]) as real
    ensures Unseal(siv, ring, c, now).Some? ==>
              Unseal(siv, ring, c, now).value == SessionKeys(p[..32], p[32..64], UnpackBE(p[64..66]))
  {
    if |p| >= 74 {
      U16IsBigEndian(p, 64);
      assert UnpackU16(p[64..66]) == U16At(p, 64);
    }
  }

  /** Nor does anything else unseal. */
  lemma {:induction false} UnsealNeedsKey(siv: Siv, ring: Keyring, c: Cookie, now: real)
    requires c.version !in ring.keys || c.version >= 256 || siv.open(ring.keys[c.version], c.sealed, [c.version]).None?
    ensures Unseal(siv, ring, c, now) == None
  {
  }

  /** What the plaintext of a full-length cookie parses to. */
  lemma PlaintextFields(k: SessionKeys, expiry: nat)
    requires FullLength(k) && expiry < Pow256(8)
    ensures var p := Plaintext(k, expiry);
            |p| == 74 && p[..32] == k.c2s && p[32..64] == k.s2c
            && UnpackU16(p[64..66]) == k.aeadId && UnpackBE(p[66..74]) == expiry
  {
    UnpackPackBE(expiry, 8);
    FourParts(k.c2s, k.s2c, PackU16(k.aeadId), PackBE(expiry, 8));
  }

  lemma FourParts(a: Bytes, b: Bytes, c: Bytes, d: Bytes)
    requires |a| == 32 && |b| == 32 && |c| == 2 && |d| == 8
    ensures var p := a + b + c + d;
            |p| == 74 && p[..32] == a && p[32..64] == b && p[64..66] == c && p[66..74] == d
  {
  }

  /** A sealed cookie, met later by any ring, gives back its keys exactly while it has not expired and
      its master key is still held. */
  lemma UnsealSealed(siv: Siv, ring: Keyring, k: SessionKeys, t: real, later: Keyring, now: real)
    requires FullLength(k) && Seal(siv, ring, k, t).Returned?
    requires ring.version in later.keys ==> later.keys[ring.version] == ring.keys[ring.version]
    ensures var cookie := Seal(siv, ring, k, t).value;
            Unseal(siv, later, cookie, now)
              == if ring.version in later.keys && now <= Expiry(t) as real then Some(k) else None
  {
    PlaintextFields(k, Expiry(t));
    var key := ring.keys[ring.version];
    var p := Plaintext(k, Expiry(t));
    assert siv.open(key, siv.seal(key, p, [ring.version]), [ring.version]) == Some(p);
  }

  // ----- rotation history

  /** Key `v` has been retired: the rotation after the one that replaced it came once the grace
      period was over. `rotations[i]` is the time of the rotation from version `i` to `i + 1`. */
  predicate Retired(rotations: seq<real>, v: nat) {
    v + 1 < |rotations| && rotations[v + 1] > rotations[v] + GRACE_PERIOD
  }

  /** `ring` is what rotating at the times `rotations` leaves, when version `i` was given key `masters[i]`. */
  ghost predicate RingAfter(ring: Keyring, start: real, rotations: seq<real>, masters: seq<Bytes>) {
    && ring.version == |rotations|
    && |masters| == |rotations| + 1
    && ring.graceEnds == (if rotations == [] then start else rotations[|rotations| - 1]) + GRACE_PERIOD
    && (forall v: nat :: v in ring.keys <==> v <= ring.version && !Retired(rotations, v))
    && (forall v: nat :: v in ring.keys ==> ring.keys[v] == masters[v])
  }

  lemma InitialRingHistory(now: real, key: Bytes)
    ensures RingAfter(InitialRing(now, key), now, [], [key])
  {
  }

  lemma RotatedHistory(ring: Keyring, start: real, rotations: seq<real>, masters: seq<Bytes>, now: real, newKey: Bytes)
    requires RingAfter(ring, start, rotations, masters)
    ensures RingAfter(Rotated(ring, now, newKey), start, rotations + [now], masters + [newKey])
  {
    var next := Rotated(ring, now, newKey);
    var times := rotations + [now];
    forall v: nat
      ensures v in next.keys <==> v <= next.version && !Retired(times, v)
    {
      if v + 1 < |rotations| {
        assert Retired(times, v) <==> Retired(rotations, v);
      }
    }
  }

  /** Consecutive rotations are more than a cookie lifetime apart. */
  predicate Spaced(rotations: seq<real>) {
    forall i :: 0 < i < |rotations| ==> rotations[i] > rotations[i - 1] + COOKIE_LIFETIME
  }

  /** With rotations spaced by more than a lifetime the ring holds the current version and the one before it. */
  lemma SpacedRingIsCurrentAndPrevious(ring: Keyring, start: real, rotations: seq<real>, masters: seq<Bytes>)
    requires RingAfter(ring, start, rotations, masters) && Spaced(rotations) && rotations != []
    ensures ring.keys.Keys == {ring.version - 1, ring.version}
  {
    forall v: nat
      ensures v in ring.keys <==> v == ring.version - 1 || v == ring.version
    {
      if v + 1 < |rotations| {
        assert rotations[v + 1] > rotations[v] + COOKIE_LIFETIME;
      }
    }
  }

  // ----- wire format

  predicate Encodable(c: Cookie) {
    c.version < 256 && |c.sealed| + 1 < 0x10000
  }

  function WireEncode(c: Cookie): (b: Bytes)
    requires Encodable(c)
    ensures |b| == |c.sealed| + 3
  {
    PackU16(|c.sealed| + 1) + [c.version] + c.sealed
  }

  /** `wire_decode`; raises when the length prefix is zero, as it then indexes an empty body. */
  function WireDecode(data: Bytes): Attempt<Option<Cookie>> {
    if |data| < 3 then Returned(None)
    else
      var bodyLength := UnpackU16(data[..2]);
      if 2 + bodyLength > |data| then Returned(None)
      else if bodyLength == 0 then Raised
      else Returned(Some(Cookie(data[2], data[3..2 + bodyLength])))
  }

  /** The layout: length of what follows, version, ciphertext. */
  lemma {:induction false} WireLayout(c: Cookie)
    requires Encodable(c)
    ensures var b := WireEncode(c);
            UnpackBE(b[0..2]) == 1 + |c.sealed| && b[2] == c.version && b[3..] == c.sealed
  {
    var b := WireEncode(c);
    U16IsBigEndian(b, 0);
    assert UnpackU16(b[..2]) == 1 + |c.sealed|;
  }

  /** The wire form survives any trailing padding. */
  lemma WireRoundTrip(c: Cookie, trailing: Bytes)
    requires Encodable(c)
    ensures WireDecode(WireEncode(c) + trailing) == Returned(Some(c))
  {
    var data := WireEncode(c) + trailing;
    assert data[..2] == PackU16(|c.sealed| + 1);
    assert data[3..3 + |c.sealed|] == c.sealed;
  }

  // ----- the manager

  class CookieManager {
    const siv: Siv
    var masterKeyVersion: nat
    var masterKeys: map<nat, Bytes>
    var previousKeyExpiresAt: real

    constructor (siv: Siv, now: real, key: Bytes)
      ensures this.siv == siv && Ring() == InitialRing(now, key)
    {
      this.siv := siv;
      masterKeyVersion := 0;
      masterKeys := map[0 := key];
      previousKeyExpiresAt := now + GRACE_PERIOD;
    }

    function Ring(): Keyring
      reads this
    {
      Keyring(masterKeyVersion, masterKeys, previousKeyExpiresAt)
    }

    method RotateKey(now: real, newKey: Bytes)
      modifies this
      ensures Ring() == Rotated(old(Ring()), now, newKey)
    {
      if now > previousKeyExpiresAt {
        var oldVersion := masterKeyVersion - 1;
        if oldVersion in masterKeys && oldVersion >= 0 {
          masterKeys := masterKeys - {oldVersion};
        }
      }
      masterKeyVersion := masterKeyVersion + 1;
      masterKeys := masterKeys[masterKeyVersion := newKey];
      previousKeyExpiresAt := now + GRACE_PERIOD;
    }
  }
}
