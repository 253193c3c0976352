/** The header of a response (section 7.3 of RFC 5905). Each timestamp is packed into 64 bits, which raises for a
    clock or an echoed origin that does not fit. */
module NtpHeaders {
  import opened Basics
  import opened Bytes

  const HEADER_LENGTH := 48
  const EPOCH_OFFSET := 2208988800
  const TWO_32 := 0x1_0000_0000
  const TWO_53 := 0x20_0000_0000_0000
  const TWO_64 := 0x1_0000_0000_0000_0000

  // ----- the echoed origin passes through a double

  /** The spacing of the doubles around `n`, which have 53 significant bits. */
  function Spacing(n: nat): (u: nat)
    ensures u >= 1
  {
    if n < TWO_53 then 1 else 2 * Spacing(n / 2)
  }

  /** `n` as a double, the even neighbour when halfway; scaling by powers of two changes nothing. */
  function Rounded(n: nat): nat {
    var u := Spacing(n);
    var down, rest := n / u, n % u;
    if 2 * rest < u || (2 * rest == u && down % 2 == 0) then down * u else (down + 1) * u
  }

  lemma {:induction false} RoundedIsSame(n: nat)
    ensures Rounded(n) == n <==> n % Spacing(n) == 0
  {
    var u := Spacing(n);
    var down, rest := n / u, n % u;
    assert n == down * u + rest;
    assert (down + 1) * u == down * u + u;
  }

  function Doubled(k: nat): nat { if k == 0 then 1 else 2 * Doubled(k - 1) }

  lemma {:induction false} SpacingAt(n: nat, k: nat)
    requires k >= 1 && Doubled(k) * (TWO_53 / 2) <= n < Doubled(k) * TWO_53
    ensures Spacing(n) == Doubled(k)
    decreases k
  {
    if k > 1 {
      SpacingAt(n / 2, k - 1);
    }
  }

  lemma {:induction false} SpacingGrows(n: nat, m: nat)
    requires n <= m
    ensures Spacing(n) <= Spacing(m)
    decreases m
  {
    if n >= TWO_53 {
      SpacingGrows(n / 2, m / 2);
    }
  }

  /** A 64-bit origin leaves 64 bits exactly when it rounds up to the next power of two. */
  lemma {:induction false} OriginOverflowsIff(n: nat)
    requires n < TWO_64
    ensures Rounded(n) < TWO_64 <==> n < TWO_64 - 1024
  {
    assert Doubled(11) == 2048;
    if n >= TWO_64 / 2 {
      SpacingAt(n, 11);
    } else {
      SpacingAt(TWO_64 / 2, 11);
      SpacingGrows(n, TWO_64 / 2);
      RoundedIsNearest(n);
    }
  }

  /** A double is at most half a spacing away, and of two equally near the one with an even quotient is taken. */
  lemma {:induction false} RoundedIsNearest(n: nat)
    ensures var u, r := Spacing(n), Rounded(n);
            && r % u == 0
            && -(u as int) <= 2 * (r - n) <= u
            && (2 * (r - n) == u || 2 * (n - r) == u ==> (r / u) % 2 == 0)
  {
    var u := Spacing(n);
    var down := n / u;
    assert n == down * u + n % u;
    assert (down + 1) * u == down * u + u;
    MultipleOf(down, u);
    MultipleOf(down + 1, u);
  }

  lemma MultipleOf(k: nat, u: nat)
    requires u >= 1
    ensures k * u % u == 0 && k * u / u == k
  {
    DivideExactly(k * u, u, k, 0);
  }

  // ----- the header

  /** The transmit and reference timestamp: seconds since 1900 and a 32-bit fraction. */
  function Transmit(now: real): int {
    (now.Floor + EPOCH_OFFSET) * TWO_32 + ((now - now.Floor as real) * TWO_32 as real).Floor
  }

  /** The receive timestamp, which lacks the epoch offset. */
  function Receive(now: real): int { (now * TWO_32 as real).Floor }

  predicate Fits64(n: int) { 0 <= n < TWO_64 }

  /** `struct.pack` of version 4, mode 4, stratum 2, poll 3, precision -20, root delay and dispersion, and the
      four timestamps. */
  function ReplyHeader(origin: nat, now: real): (h: Attempt<Bytes>)
    ensures h.Returned? ==> |h.value| == HEADER_LENGTH
  {
    if !Fits64(Transmit(now)) || !Fits64(Rounded(origin)) || !Fits64(Receive(now)) then Raised
    else
      Returned([36, 2, 3, 236] + PackBE(65, 4) + PackBE(65, 4) + Zeros(4)
               + Timestamps(Transmit(now), Rounded(origin), Receive(now)))
  }

  /** Reference, origin, receive and transmit timestamp. */
  function Timestamps(sent: nat, origin: nat, received: nat): (b: Bytes)
    ensures |b| == 32
  {
    PackBE(sent, 8) + PackBE(origin, 8) + PackBE(received, 8) + PackBE(sent, 8)
  }

  /** The origin timestamp of a request. */
  function OriginOf(data: Bytes): (origin: nat)
    requires |data| >= HEADER_LENGTH
    ensures origin < TWO_64
  {
    UnpackBounded(data[24..32]);
    assert Pow256(8) == TWO_64 by { Pow256Of8(); }
    UnpackBE(data[24..32])
  }

  lemma Pow256Of8()
    ensures Pow256(8) == TWO_64
  {
    assert Pow256(4) == TWO_32 by { assert Pow256(2) == 0x10000; }
    assert Pow256(6) == 0x10000 * Pow256(4);
  }

  lemma {:induction false} UnpackBounded(b: Bytes)
    ensures UnpackBE(b) < Pow256(|b|)
    decreases |b|
  {
    if b != [] {
      UnpackBounded(b[..|b| - 1]);
    }
  }

  /** Seconds since 1970 at which the 32-bit seconds since 1900 run out. */
  const ERA_END := 2085978496.0

  predicate Replyable(origin: nat, now: real) {
    origin < TWO_64 - 1024 && 0.0 <= now < ERA_END
  }

  /** A header is packed exactly when the echoed origin does not round up to 2^64 and the clock is within the era. */
  lemma {:induction false} HeaderBuiltIff(origin: nat, now: real)
    requires origin < TWO_64
    ensures ReplyHeader(origin, now).Returned? <==> Replyable(origin, now)
  {
    OriginOverflowsIff(origin);
    ClockFitsIff(now);
  }

  lemma {:induction false} ClockFitsIff(now: real)
    ensures Fits64(Transmit(now)) && Fits64(Receive(now)) <==> 0.0 <= now < ERA_END
  {
    var s := now.Floor;
    var f := ((now - s as real) * TWO_32 as real).Floor;
    assert 0 <= f < TWO_32;
    assert Transmit(now) == (s + EPOCH_OFFSET) * TWO_32 + f;
  }

  /** The transmit timestamp is the time since 1900 to within 2^-32 s, the receive timestamp the time since 1970. */
  lemma {:induction false} TimestampsAreClose(now: real)
    ensures var sent, received, since1900 := Transmit(now), Receive(now), (now + 2208988800.0) * 4294967296.0;
            && sent as real <= since1900 < (sent + 1) as real
            && received as real <= now * 4294967296.0 < (received + 1) as real
  {
    var s := now.Floor;
    var f := ((now - s as real) * TWO_32 as real).Floor;
    assert Transmit(now) == (s + EPOCH_OFFSET) * TWO_32 + f;
    assert (now + 2208988800.0) * 4294967296.0 == (s + EPOCH_OFFSET) as real * 4294967296.0 + (now - s as real) * 4294967296.0;
  }

  /** Every field of a packed header. */
  lemma {:induction false} HeaderReadsBack(origin: nat, now: real)
    requires Replyable(origin, now)
    ensures ReplyHeader(origin, now).Returned?
    ensures var h := ReplyHeader(origin, now).value;
            && h[0] == 4 * 8 + 4 && h[1] == 2 && h[2] == 3 && h[3] == 256 - 20
            && UnpackBE(h[4..8]) == 65 && UnpackBE(h[8..12]) == 65 && UnpackBE(h[12..16]) == 0
            && UnpackBE(h[16..24]) == Transmit(now) == UnpackBE(h[40..48])
            && UnpackBE(h[24..32]) == Rounded(origin)
            && UnpackBE(h[32..40]) == Receive(now)
  {
    HeaderBuiltIff(origin, now);
    HeaderSlices(ReplyHeader(origin, now).value, origin, now);
    Pow256Of8();
    UnpackPackBE(Transmit(now), 8);
    UnpackPackBE(Rounded(origin), 8);
    UnpackPackBE(Receive(now), 8);
    assert Pow256(4) == 0x1_0000_0000 by { assert Pow256(2) == 0x10000; }
    UnpackPackBE(65, 4);
    UnpackPackBE(0, 4);
    assert PackBE(0, 4) == Zeros(4) by { assert PackBE(0, 2) == [0, 0]; }
  }

  lemma {:induction false} HeaderSlices(h: Bytes, origin: nat, now: real)
    requires ReplyHeader(origin, now) == Returned(h)
    ensures h[4..8] == PackBE(65, 4) && h[8..12] == PackBE(65, 4) && h[12..16] == Zeros(4)
    ensures h[16..24] == PackBE(Transmit(now), 8) && h[24..32] == PackBE(Rounded(origin), 8)
    ensures h[32..40] == PackBE(Receive(now), 8) && h[40..48] == PackBE(Transmit(now), 8)
  {
    var times := Timestamps(Transmit(now), Rounded(origin), Receive(now));
    FiveParts([36, 2, 3, 236], PackBE(65, 4), PackBE(65, 4), Zeros(4), times);
    TimestampSlices(Transmit(now), Rounded(origin), Receive(now));
    assert h[16..] == times;
    assert h[16..24] == times[0..8] && h[24..32] == times[8..16];
    assert h[32..40] == times[16..24] && h[40..48] == times[24..32];
  }

  lemma FiveParts(a: Bytes, b: Bytes, c: Bytes, d: Bytes, e: Bytes)
    requires |a| == |b| == |c| == |d| == 4
    ensures var h := a + b + c + d + e;
            h[4..8] == b && h[8..12] == c && h[12..16] == d && h[16..] == e
  {
  }

  lemma TimestampSlices(sent: nat, origin: nat, received: nat)
    ensures var b := Timestamps(sent, origin, received);
            && b[0..8] == PackBE(sent, 8) && b[8..16] == PackBE(origin, 8)
            && b[16..24] == PackBE(received, 8) && b[24..32] == PackBE(sent, 8)
  {
  }

  /** The origin is echoed exactly when it is a double. */
  lemma {:induction false} OriginEchoedIff(origin: nat, now: real)
    requires Replyable(origin, now)
    ensures ReplyHeader(origin, now).Returned?
    ensures OriginOf(ReplyHeader(origin, now).value) == origin <==> origin % Spacing(origin) == 0
  {
    HeaderBuiltIff(origin, now);
    var h := ReplyHeader(origin, now).value;
    HeaderSlices(h, origin, now);
    Pow256Of8();
    UnpackPackBE(Rounded(origin), 8);
    RoundedIsSame(origin);
  }
}
