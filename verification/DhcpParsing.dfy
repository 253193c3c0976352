/** The DHCP interceptor's parser, and what it recovers from the packets the builder makes. */
module DhcpParsing {
  import opened Basics
  import opened Bytes
  import opened DhcpPackets

  datatype Message = Message(op: byte, htype: byte, hlen: byte, hops: byte, xid: nat, secs: nat, flags: nat,
                             ciaddr: Bytes, yiaddr: Bytes, siaddr: Bytes, giaddr: Bytes, chaddr: Bytes,
                             options: seq<DhcpOption>, messageType: byte, serverId: Option<Bytes>,
                             requestedIp: Option<Bytes>, hostname: Bytes)

  datatype Parse = TooShort | BadMagic | ParsePanics | Parsed(message: Message)

  // ----- options

  /** The options from `offset`: padding is skipped, and an end marker or a truncated option stops. */
  function OptionsFrom(data: Bytes, offset: nat): seq<DhcpOption>
    decreases |data| - offset
  {
    if offset >= |data| || data[offset] == OPT_END then []
    else if data[offset] == OPT_PAD then OptionsFrom(data, offset + 1)
    else if offset + 1 >= |data| || offset + 2 + data[offset + 1] > |data| then []
    else
      var end := offset + 2 + data[offset + 1];
      [DhcpOption(data[offset], data[offset + 2..end])] + OptionsFrom(data, end)
  }

  /** The value of the last option `code` with at least `least` bytes. */
  function LastValue(opts: seq<DhcpOption>, code: byte, least: nat): (v: Option<Bytes>)
    ensures v.Some? ==> |v.value| >= least
  {
    if opts == [] then None
    else if opts[|opts| - 1].code == code && |opts[|opts| - 1].value| >= least then Some(opts[|opts| - 1].value)
    else LastValue(opts[..|opts| - 1], code, least)
  }

  function FirstFour(v: Option<Bytes>): Option<Bytes>
    requires v.Some? ==> |v.value| >= 4
  {
    if v.Some? then Some(v.value[..4]) else None
  }

  /** The message fields that options set. */
  function WithOptions(m: Message, opts: seq<DhcpOption>): Message {
    var kind := LastValue(opts, OPT_MESSAGE_TYPE, 1);
    var host := LastValue(opts, OPT_HOSTNAME, 0);
    m.(options := opts,
       messageType := if kind.Some? then kind.value[0] else 0,
       serverId := FirstFour(LastValue(opts, OPT_SERVER_IDENTIFIER, 4)),
       requestedIp := FirstFour(LastValue(opts, OPT_REQUESTED_IP, 4)),
       hostname := if host.Some? then host.value else [])
  }

  /** The fixed fields; `chaddr` is the hardware address already cut out. */
  function FixedFields(data: Bytes, chaddr: Bytes): Message
    requires |data| >= OPTIONS_OFFSET
  {
    Message(data[0], data[1], data[2], data[3], UnpackBE(data[4..8]), UnpackBE(data[8..10]), UnpackBE(data[10..12]),
            data[12..16], data[16..20], data[20..24], data[24..28], chaddr, [], 0, None, None, [])
  }

  /** The end of the hardware address: a byte addition, which wraps. */
  function HardwareEnd(hlen: byte): nat { (28 + hlen) % 256 }

  function ParseMessage(data: Bytes, spare: Bytes): Parse {
    if |data| < OPTIONS_OFFSET then TooShort
    else
      var end := HardwareEnd(data[2]);
      if end < 28 || end > |data| + |spare| then ParsePanics
      else
        var fixed := FixedFields(data, (data + spare)[28..end]);
        if |data| == OPTIONS_OFFSET then Parsed(fixed)
        else if data[236..240] != MAGIC_COOKIE then BadMagic
        else Parsed(WithOptions(fixed, OptionsFrom(data, OPTIONS_OFFSET)))
  }

  /** `parseDHCPMessage`; `spare` is the capacity of the receive buffer beyond the datagram. */
  method ParseDhcpMessage(data: Bytes, spare: Bytes) returns (r: Parse)
    ensures r == ParseMessage(data, spare)
  {
    if |data| < OPTIONS_OFFSET {
      return TooShort;
    }
    var end := HardwareEnd(data[2]);
    if end < 28 || end > |data| + |spare| {
      return ParsePanics;
    }
    var message := FixedFields(data, (data + spare)[28..end]);
    if |data| > OPTIONS_OFFSET {
      if data[236..240] != MAGIC_COOKIE {
        return BadMagic;
      }
      message := ParseOptions(data, message);
    }
    r := Parsed(message);
  }

  /** The option loop. */
  method ParseOptions(data: Bytes, fixed: Message) returns (message: Message)
    requires fixed == WithOptions(fixed, [])
    ensures message == WithOptions(fixed, OptionsFrom(data, OPTIONS_OFFSET))
  {
    message := fixed;
    var offset := OPTIONS_OFFSET;
    while offset < |data|
      invariant message == WithOptions(fixed, message.options)
      invariant message.options + OptionsFrom(data, offset) == OptionsFrom(data, OPTIONS_OFFSET)
      decreases |data| - offset
    {
      var code := data[offset];
      if code == OPT_END {
        break;
      }
      if code == OPT_PAD {
        offset := offset + 1;
        continue;
      }
      if offset + 1 >= |data| {
        break;
      }
      var length := data[offset + 1];
      if offset + 2 + length > |data| {
        break;
      }
      message := TakeOption(fixed, message, code, data[offset + 2..offset + 2 + length]);
      offset := offset + 2 + length;
    }
    assert message.options + [] == message.options;
  }

  /** One turn of the option switch. */
  method TakeOption(fixed: Message, message: Message, code: byte, value: Bytes) returns (m: Message)
    requires message == WithOptions(fixed, message.options)
    ensures m == WithOptions(fixed, message.options + [DhcpOption(code, value)])
  {
    m := message;
    if code == OPT_MESSAGE_TYPE {
      if |value| >= 1 {
        m := m.(messageType := value[0]);
      }
    } else if code == OPT_SERVER_IDENTIFIER {
      if |value| >= 4 {
        m := m.(serverId := Some(value[..4]));
      }
    } else if code == OPT_REQUESTED_IP {
      if |value| >= 4 {
        m := m.(requestedIp := Some(value[..4]));
      }
    } else if code == OPT_HOSTNAME {
      m := m.(hostname := value);
    }
    m := m.(options := m.options + [DhcpOption(code, value)]);
    var o := DhcpOption(code, value);
    LastValueSnoc(message.options, o, OPT_MESSAGE_TYPE, 1);
    LastValueSnoc(message.options, o, OPT_SERVER_IDENTIFIER, 4);
    LastValueSnoc(message.options, o, OPT_REQUESTED_IP, 4);
    LastValueSnoc(message.options, o, OPT_HOSTNAME, 0);
  }

  lemma {:induction false} LastValueSnoc(opts: seq<DhcpOption>, o: DhcpOption, code: byte, least: nat)
    ensures LastValue(opts + [o], code, least)
            == if o.code == code && |o.value| >= least then Some(o.value) else LastValue(opts, code, least)
  {
    assert (opts + [o])[..|opts|] == opts;
  }

  // ----- reading encoded options back

  /** Options a TLV stream can carry as themselves. */
  predicate Plain(opts: seq<DhcpOption>) {
    forall o <- opts :: o.code != OPT_PAD && o.code != OPT_END && |o.value| < 256
  }

  /** `part` sits in `data` at offset `n`. */
  predicate Holds(data: Bytes, n: nat, part: Bytes) {
    n + |part| <= |data| && data[n..n + |part|] == part
  }

  lemma HoldsSplit(data: Bytes, n: nat, a: Bytes, b: Bytes)
    requires Holds(data, n, a + b)
    ensures Holds(data, n, a) && Holds(data, n + |a|, b)
  {
    var part := data[n..n + |a + b|];
    assert part[..|a|] == a && part[|a|..] == b;
  }

  lemma {:induction false} OptionsFromTlv(data: Bytes, n: nat, o: DhcpOption)
    requires o.code != OPT_PAD && o.code != OPT_END && |o.value| < 256 && Holds(data, n, Tlv(o))
    ensures OptionsFrom(data, n) == [o] + OptionsFrom(data, n + |Tlv(o)|)
  {
    var part := data[n..n + |Tlv(o)|];
    assert part[0] == data[n] && part[1] == data[n + 1];
    assert data[n + 2..n + 2 + |o.value|] == part[2..];
  }

  /** Encoded options are read back in order, and reading goes on where they end. */
  lemma {:induction false} OptionsFromTlvs(data: Bytes, n: nat, opts: seq<DhcpOption>, more: seq<DhcpOption>)
    requires Plain(opts) && Short(opts) && Holds(data, n, Tlvs(opts))
    requires more == OptionsFrom(data, n + |Tlvs(opts)|)
    ensures OptionsFrom(data, n) == opts + more
    decreases |opts|
  {
    if opts == [] {
      assert opts + more == more;
    } else {
      var next := TlvsStep(data, n, opts);
      OptionsFromTlvs(data, next, opts[1..], more);
      HeadFirst(opts, more);
    }
  }

  /** The first of some encoded options is read, and the others sit where it ends. */
  lemma {:induction false} TlvsStep(data: Bytes, n: nat, opts: seq<DhcpOption>) returns (next: nat)
    requires opts != [] && Plain(opts) && Short(opts) && Holds(data, n, Tlvs(opts))
    ensures Plain(opts[1..]) && Short(opts[1..]) && Holds(data, next, Tlvs(opts[1..]))
    ensures next + |Tlvs(opts[1..])| == n + |Tlvs(opts)|
    ensures OptionsFrom(data, n) == [opts[0]] + OptionsFrom(data, next)
  {
    var o := opts[0];
    HoldsSplit(data, n, Tlv(o), Tlvs(opts[1..]));
    OptionsFromTlv(data, n, o);
    next := n + |Tlv(o)|;
  }

  lemma HeadFirst(opts: seq<DhcpOption>, more: seq<DhcpOption>)
    requires opts != []
    ensures [opts[0]] + (opts[1..] + more) == opts + more
  {
  }

  lemma BaseOptionsPlain(lease: Lease, msgType: byte)
    ensures Plain(BaseOptions(lease, msgType)) && Short(BaseOptions(lease, msgType))
  {
  }

  /** The options of a response whose DNS servers all parsed. */
  function AllOptions(lease: Lease, msgType: byte): seq<DhcpOption> {
    BaseOptions(lease, msgType) + (if lease.dns == [] then [] else [DhcpOption(OPT_DNS, DnsBytes(lease.dns))])
  }

  /** The response's options are read back exactly when the DNS length byte counts the addresses that follow it. */
  lemma {:induction false} ResponseOptionsIff(xid: nat, chaddr: Bytes, lease: Lease, msgType: byte)
    ensures OptionsFrom(Response(xid, chaddr, lease, msgType), OPTIONS_OFFSET) == AllOptions(lease, msgType)
            <==> lease.dns == [] || LengthByte(|lease.dns|) == 4 * DhcpPackets.Parsed(lease.dns)
  {
    var base, data := BaseOptions(lease, msgType), Response(xid, chaddr, lease, msgType);
    var o := ResponseSplit(xid, chaddr, lease, msgType);
    OptionsFromTlvs(data, OPTIONS_OFFSET, base, OptionsFrom(data, o));
    TailOptions(data, o, lease.dns);
    SamePrefix(base, OptionsFrom(data, o), if lease.dns == [] then [] else [DhcpOption(OPT_DNS, DnsBytes(lease.dns))]);
  }

  /** Where the options of a response sit. */
  lemma {:induction false} ResponseSplit(xid: nat, chaddr: Bytes, lease: Lease, msgType: byte) returns (o: nat)
    ensures var base, data := BaseOptions(lease, msgType), Response(xid, chaddr, lease, msgType);
            && Plain(base) && Short(base) && Holds(data, OPTIONS_OFFSET, Tlvs(base))
            && o == OPTIONS_OFFSET + |Tlvs(base)| <= |data|
            && data[o..] == DnsPart(lease.dns) + [OPT_END]
  {
    BaseOptionsPlain(lease, msgType);
    var header, base := Header(xid, chaddr, lease), Tlvs(BaseOptions(lease, msgType));
    ThreeParts(header, base, DnsPart(lease.dns), [OPT_END]);
    o := OPTIONS_OFFSET + |base|;
  }

  lemma ThreeParts(a: Bytes, b: Bytes, c: Bytes, d: Bytes)
    ensures var h := a + b + c + d;
            h[|a|..|a| + |b|] == b && h[|a| + |b|..] == c + d
  {
  }

  lemma SamePrefix<T>(a: seq<T>, b: seq<T>, c: seq<T>)
    ensures a + b == a + c <==> b == c
  {
    assert (a + b)[|a|..] == b && (a + c)[|a|..] == c;
  }

  /** A DNS option reads back as itself exactly when its length byte counts the addresses that follow it. */
  lemma {:induction false} DnsOptionIff(data: Bytes, o: nat, value: Bytes, length: byte)
    requires o <= |data| && data[o..] == [OPT_DNS, length] + value + [OPT_END]
    requires length % 4 == 0 && |value| % 4 == 0
    ensures OptionsFrom(data, o) == [DhcpOption(OPT_DNS, value)] <==> length == |value|
  {
    DnsOptionBytes(data, o, value, length);
    if length <= |value| {
      var got, more := data[o + 2..o + 2 + length], OptionsFrom(data, o + 2 + length);
      assert OptionsFrom(data, o) == [DhcpOption(OPT_DNS, got)] + more;
      if length == |value| {
        assert more == [];
      } else {
        assert OptionsFrom(data, o)[0].value == got && |got| == length;
      }
    } else {
      assert OptionsFrom(data, o) == [];
    }
  }

  lemma {:induction false} DnsOptionBytes(data: Bytes, o: nat, value: Bytes, length: byte)
    requires o <= |data| && data[o..] == [OPT_DNS, length] + value + [OPT_END]
    ensures |data| == o + 3 + |value|
    ensures data[o] == OPT_DNS && data[o + 1] == length && data[o + 2 + |value|] == OPT_END
    ensures data[o + 2..o + 2 + |value|] == value
  {
  }

  /** Reading the last stretch of a response, from its DNS option on. */
  lemma {:induction false} TailOptions(data: Bytes, o: nat, dns: seq<NetIp>)
    requires o <= |data| && data[o..] == DnsPart(dns) + [OPT_END]
    ensures dns == [] ==> OptionsFrom(data, o) == []
    ensures dns != [] ==>
              (OptionsFrom(data, o) == [DhcpOption(OPT_DNS, DnsBytes(dns))]
               <==> LengthByte(|dns|) == 4 * DhcpPackets.Parsed(dns))
  {
    if dns == [] {
      assert data[o] == data[o..][0];
    } else {
      LengthByteIsMultiple(|dns|);
      DnsOptionIff(data, o, DnsBytes(dns), LengthByte(|dns|));
    }
  }

  lemma {:induction false} LengthByteExact(dns: seq<NetIp>)
    requires dns != [] && |dns| < 64
    ensures LengthByte(|dns|) == 4 * DhcpPackets.Parsed(dns) <==> forall ip <- dns :: !ip.NotAnIp?
  {
    AllParsedIff(dns);
  }

  // ----- the round trip

  lemma HeaderSlices(head: Bytes, hardware: Bytes, rest: Bytes)
    requires |head| == 28 && |hardware| == 6
    ensures var data := head + hardware + Zeros(202) + MAGIC_COOKIE + rest;
            && data[..4] == head[..4] && data[4..8] == head[4..8]
            && data[8..16] == head[8..16] && data[24..28] == head[24..28]
            && data[16..20] == head[16..20] && data[20..24] == head[20..24]
            && data[28..34] == hardware && data[236..240] == MAGIC_COOKIE
  {
  }

  lemma {:induction false} AddressSlices(xid: nat, lease: Lease)
    ensures var head := HeaderAddresses(xid, lease);
            && head[..4] == [2, 1, 6, 0] && head[4..8] == PackBE(xid, 4) && head[8..16] == Zeros(8)
            && head[16..20] == Four(lease.clientIp) && head[20..24] == Four(lease.gateway) && head[24..28] == Zeros(4)
  {
    SixParts([2, 1, 6, 0], PackBE(xid, 4), Zeros(8), Four(lease.clientIp), Four(lease.gateway), Zeros(4));
  }

  lemma SixParts(a: Bytes, b: Bytes, c: Bytes, d: Bytes, e: Bytes, f: Bytes)
    requires |a| == 4 && |b| == 4 && |c| == 8 && |d| == 4 && |e| == 4 && |f| == 4
    ensures var h := a + b + c + d + e + f;
            h[..4] == a && h[4..8] == b && h[8..16] == c && h[16..20] == d && h[20..24] == e && h[24..28] == f
  {
    var left := a + b + c;
    var right := d + e + f;
    var h := a + b + c + d + e + f;
    assert h[..16] == left && h[16..28] == right;
    assert left[..4] == a && left[4..8] == b && left[8..16] == c;
    assert right[0..4] == d && right[4..8] == e && right[8..12] == f;
  }

  lemma {:induction false} HeaderFields(xid: nat, chaddr: Bytes, lease: Lease, rest: Bytes)
    requires xid < 0x1_0000_0000
    ensures var data := Header(xid, chaddr, lease) + rest;
            && data[0] == 2 && data[1] == 1 && data[2] == 6 && data[3] == 0
            && data[8..16] == Zeros(8) && data[24..28] == Zeros(4)
            && UnpackBE(data[4..8]) == xid
            && data[16..20] == Four(lease.clientIp)
            && data[20..24] == Four(lease.gateway)
            && data[28..34] == SixBytes(chaddr)
            && data[236..240] == MAGIC_COOKIE
  {
    var head := HeaderAddresses(xid, lease);
    AddressSlices(xid, lease);
    var data := Header(xid, chaddr, lease) + rest;
    HeaderSlices(head, SixBytes(chaddr), rest);
    assert data[..4] == [2, 1, 6, 0] && data[0] == data[..4][0] && data[1] == data[..4][1] && data[2] == data[..4][2]
           && data[3] == data[..4][3];
    assert Pow256(4) == 0x1_0000_0000 by {
      assert Pow256(2) == 65536;
    }
    UnpackPackBE(xid, 4);
  }

  lemma {:induction false} LastValueSkips(opts: seq<DhcpOption>, more: seq<DhcpOption>, code: byte, least: nat)
    requires forall o <- more :: o.code != code
    ensures LastValue(opts + more, code, least) == LastValue(opts, code, least)
    decreases |more|
  {
    if more == [] {
      assert opts + more == opts;
    } else {
      var n := |more| - 1;
      assert (opts + more)[..|opts + more| - 1] == opts + more[..n];
      LastValueSkips(opts, more[..n], code, least);
    }
  }

  lemma {:induction false} LastValueHere(opts: seq<DhcpOption>, o: DhcpOption, least: nat)
    requires |o.value| >= least
    ensures LastValue(opts + [o], o.code, least) == Some(o.value)
  {
  }

  /** The options after the server identifier. */
  function LaterOptions(lease: Lease): seq<DhcpOption> {
    [DhcpOption(OPT_LEASE_TIME, LeaseTimeBytes(lease))]
    + AddressOption(OPT_SUBNET_MASK, lease.subnetMask)
    + AddressOption(OPT_ROUTER, lease.gateway)
    + (if lease.dns == [] then [] else [DhcpOption(OPT_DNS, DnsBytes(lease.dns))])
  }

  lemma {:induction false} OptionsSplit(lease: Lease, msgType: byte)
    ensures AllOptions(lease, msgType)
            == [DhcpOption(OPT_MESSAGE_TYPE, [msgType])] + AddressOption(OPT_SERVER_IDENTIFIER, lease.gateway) + LaterOptions(lease)
  {
  }

  lemma {:induction false} LaterCodes(lease: Lease)
    ensures forall o <- LaterOptions(lease) :: o.code != OPT_MESSAGE_TYPE && o.code != OPT_SERVER_IDENTIFIER
  {
  }

  lemma {:induction false} KindAndServer(lease: Lease, msgType: byte)
    ensures LastValue(AllOptions(lease, msgType), OPT_MESSAGE_TYPE, 1) == Some([msgType])
    ensures LastValue(AllOptions(lease, msgType), OPT_SERVER_IDENTIFIER, 4)
            == if lease.gateway.NotAnIp? then None else Some(Four(lease.gateway))
  {
    var kind := DhcpOption(OPT_MESSAGE_TYPE, [msgType]);
    var server := AddressOption(OPT_SERVER_IDENTIFIER, lease.gateway);
    var after := LaterOptions(lease);
    OptionsSplit(lease, msgType);
    LaterCodes(lease);
    LastValueSkips([kind] + server, after, OPT_MESSAGE_TYPE, 1);
    LastValueSkips([kind] + server, after, OPT_SERVER_IDENTIFIER, 4);
    LastValueSkips([kind], server, OPT_MESSAGE_TYPE, 1);
    if lease.gateway.NotAnIp? {
      assert [kind] + server == [kind];
    } else {
      LastValueHere([kind], server[0], 4);
    }
    assert [kind][..0] == [];
  }

  lemma {:induction false} ParseMessageOf(data: Bytes, spare: Bytes)
    requires |data| > OPTIONS_OFFSET && data[2] == 6 && data[236..240] == MAGIC_COOKIE
    ensures ParseMessage(data, spare)
            == Parsed(WithOptions(FixedFields(data, data[28..34]), OptionsFrom(data, OPTIONS_OFFSET)))
  {
  }

  lemma {:induction false} RecoveredFields(data: Bytes, chaddr: Bytes, lease: Lease, msgType: byte)
    requires |data| >= OPTIONS_OFFSET
    ensures var m := WithOptions(FixedFields(data, chaddr), AllOptions(lease, msgType));
            && m.messageType == msgType
            && m.serverId == (if lease.gateway.NotAnIp? then None else Some(Four(lease.gateway)))
            && m.options == AllOptions(lease, msgType)
            && m.chaddr == chaddr
            && m.xid == UnpackBE(data[4..8]) && m.yiaddr == data[16..20] && m.siaddr == data[20..24]
  {
    KindAndServer(lease, msgType);
    assert Four(lease.gateway)[..4] == Four(lease.gateway);
  }

  /** The four bytes that stand for an address, if its text parsed: in network order, zeros without a 4-byte form. */
  function Octets(ip: NetIp): Option<Bytes> {
    match ip
    case V4(a, b, c, d) => Some([a, b, c, d])
    case V6 => Some([0, 0, 0, 0])
    case NotAnIp => None
  }

  /** The only value that options with this code have, or that there is no such option. */
  predicate Sole(opts: seq<DhcpOption>, code: byte, value: Option<Bytes>) {
    && (value.None? <==> forall o <- opts :: o.code != code)
    && (value.Some? ==> forall o <- opts :: o.code == code ==> o.value == value.value)
  }

  lemma FourIsOctets(ip: NetIp)
    ensures Four(ip) == if ip.NotAnIp? then [0, 0, 0, 0] else Octets(ip).value
  {
  }

  lemma {:induction false} DnsBytesAt(dns: seq<NetIp>, k: nat)
    requires k < |dns| && forall ip <- dns :: !ip.NotAnIp?
    ensures |DnsBytes(dns)| == 4 * |dns| && DnsBytes(dns)[4 * k..4 * k + 4] == Octets(dns[k]).value
    decreases |dns|
  {
    AllParsedIff(dns);
    FourIsOctets(dns[0]);
    var rest := DnsBytes(dns[1..]);
    assert DnsBytes(dns) == Four(dns[0]) + rest;
    if k > 0 {
      DnsBytesAt(dns[1..], k - 1);
      FourLater(Four(dns[0]), rest, 4 * (k - 1));
    }
  }

  lemma FourLater(first: Bytes, rest: Bytes, i: nat)
    requires |first| == 4 && i + 4 <= |rest|
    ensures (first + rest)[i + 4..i + 8] == rest[i..i + 4]
  {
  }

  function Concat(parts: seq<seq<DhcpOption>>): seq<DhcpOption> {
    if parts == [] then [] else parts[0] + Concat(parts[1..])
  }

  /** Part `i` holds only options of the `i`th code. */
  predicate Coded(parts: seq<seq<DhcpOption>>, codes: seq<byte>) {
    |parts| == |codes| && forall i :: 0 <= i < |parts| ==> forall o <- parts[i] :: o.code == codes[i]
  }

  lemma {:induction false} NotInConcat(parts: seq<seq<DhcpOption>>, codes: seq<byte>, code: byte)
    requires Coded(parts, codes) && code !in codes
    ensures forall o <- Concat(parts) :: o.code != code
    decreases |parts|
  {
    if parts != [] {
      NotInConcat(parts[1..], codes[1..], code);
    }
  }

  /** What options of one code say is said by their own part. */
  lemma {:induction false} SoleInConcat(parts: seq<seq<DhcpOption>>, codes: seq<byte>, i: nat, value: Option<Bytes>)
    requires Coded(parts, codes) && (forall j, k :: 0 <= j < k < |codes| ==> codes[j] != codes[k])
    requires i < |parts| && Sole(parts[i], codes[i], value)
    ensures Sole(Concat(parts), codes[i], value)
    decreases |parts|
  {
    if i == 0 {
      NotInConcat(parts[1..], codes[1..], codes[0]);
      SoleAppend(parts[0], Concat(parts[1..]), codes[0], value, None);
    } else {
      SoleInConcat(parts[1..], codes[1..], i - 1, value);
      SoleAppend(parts[0], Concat(parts[1..]), codes[i], None, value);
    }
  }

  lemma {:induction false} SoleAppend(a: seq<DhcpOption>, b: seq<DhcpOption>, code: byte, u: Option<Bytes>, v: Option<Bytes>)
    requires Sole(a, code, u) && Sole(b, code, v) && (u.None? || v.None?)
    ensures Sole(a + b, code, if u.Some? then u else v)
  {
    assert forall o :: o in a + b <==> o in a || o in b;
  }

  /** The six parts of a response's options. */
  function Parts(lease: Lease, msgType: byte): seq<seq<DhcpOption>> {
    [[DhcpOption(OPT_MESSAGE_TYPE, [msgType])],
     AddressOption(OPT_SERVER_IDENTIFIER, lease.gateway),
     [DhcpOption(OPT_LEASE_TIME, LeaseTimeBytes(lease))],
     AddressOption(OPT_SUBNET_MASK, lease.subnetMask),
     AddressOption(OPT_ROUTER, lease.gateway),
     if lease.dns == [] then [] else [DhcpOption(OPT_DNS, DnsBytes(lease.dns))]]
  }

  lemma {:induction false} PartsConcat(lease: Lease, msgType: byte)
    ensures Concat(Parts(lease, msgType)) == AllOptions(lease, msgType)
  {
    var p := Parts(lease, msgType);
    ConcatSix(p);
    RegroupSix(p[0], p[1], p[2], p[3], p[4], p[5]);
  }

  lemma RegroupSix<T>(a: seq<T>, b: seq<T>, c: seq<T>, d: seq<T>, e: seq<T>, f: seq<T>)
    ensures a + (b + (c + (d + (e + f)))) == a + b + c + d + e + f
  {
  }

  lemma {:induction false} ConcatSix(p: seq<seq<DhcpOption>>)
    requires |p| == 6
    ensures Concat(p) == p[0] + (p[1] + (p[2] + (p[3] + (p[4] + p[5]))))
  {
    assert Concat(p[6..]) == [] && Concat(p[5..]) == p[5] + Concat(p[5..][1..]) && p[5..][1..] == p[6..];
    assert p[4..][1..] == p[5..] && p[3..][1..] == p[4..] && p[2..][1..] == p[3..] && p[1..][1..] == p[2..];
    assert p[5] + [] == p[5];
    assert Concat(p[4..]) == p[4] + p[5];
    assert Concat(p[3..]) == p[3] + Concat(p[4..]);
    assert Concat(p[2..]) == p[2] + Concat(p[3..]);
    assert Concat(p[1..]) == p[1] + Concat(p[2..]);
  }

  /** The options of a response, code by code. */
  lemma {:induction false} OptionValues(lease: Lease, msgType: byte)
    ensures var opts := AllOptions(lease, msgType);
            && Sole(opts, 53, Some([msgType])) && Sole(opts, 51, Some(LeaseTimeBytes(lease)))
            && Sole(opts, 54, Octets(lease.gateway)) && Sole(opts, 3, Octets(lease.gateway))
            && Sole(opts, 1, Octets(lease.subnetMask))
            && Sole(opts, 6, if lease.dns == [] then None else Some(DnsBytes(lease.dns)))
  {
    PartsSole(lease, msgType);
    SoleOption(lease, msgType, 0, Some([msgType]));
    SoleOption(lease, msgType, 1, Octets(lease.gateway));
    SoleOption(lease, msgType, 2, Some(LeaseTimeBytes(lease)));
    SoleOption(lease, msgType, 3, Octets(lease.subnetMask));
    SoleOption(lease, msgType, 4, Octets(lease.gateway));
    SoleOption(lease, msgType, 5, if lease.dns == [] then None else Some(DnsBytes(lease.dns)));
  }

  const CODES: seq<byte> := [53, 54, 51, 1, 3, 6]

  lemma {:induction false} SoleOption(lease: Lease, msgType: byte, i: nat, value: Option<Bytes>)
    requires i < 6 && Sole(Parts(lease, msgType)[i], CODES[i], value)
    ensures Sole(AllOptions(lease, msgType), CODES[i], value)
  {
    PartsSole(lease, msgType);
    PartsConcat(lease, msgType);
    SoleInConcat(Parts(lease, msgType), CODES, i, value);
  }

  lemma {:induction false} PartsSole(lease: Lease, msgType: byte)
    ensures var p := Parts(lease, msgType);
            && Coded(p, CODES)
            && Sole(p[0], 53, Some([msgType])) && Sole(p[1], 54, Octets(lease.gateway))
            && Sole(p[2], 51, Some(LeaseTimeBytes(lease))) && Sole(p[3], 1, Octets(lease.subnetMask))
            && Sole(p[4], 3, Octets(lease.gateway))
            && Sole(p[5], 6, if lease.dns == [] then None else Some(DnsBytes(lease.dns)))
  {
    AddressIsSole(54, lease.gateway);
    AddressIsSole(1, lease.subnetMask);
    AddressIsSole(3, lease.gateway);
  }

  lemma {:induction false} AddressIsSole(code: byte, ip: NetIp)
    ensures Sole(AddressOption(code, ip), code, Octets(ip))
    ensures forall o <- AddressOption(code, ip) :: o.code == code
  {
    FourIsOctets(ip);
  }

  lemma {:induction false} LeaseTimeRead(lease: Lease)
    ensures UnpackBE(LeaseTimeBytes(lease)) == lease.leaseTime % 0x1_0000_0000
  {
    assert Pow256(4) == 0x1_0000_0000 by {
      assert Pow256(2) == 65536;
    }
    UnpackPackBE(lease.leaseTime % 0x1_0000_0000, 4);
  }

  /** For every lease whose DNS servers all parse, a built packet parses to a reply of its transaction and message
      type with the assigned and the server address, the hardware address and no other header field set. */
  lemma {:induction false} BuiltPacketParses(xid: nat, chaddr: Bytes, lease: Lease, msgType: byte, spare: Bytes)
    requires xid < 0x1_0000_0000
    requires |Response(xid, chaddr, lease, msgType)| <= BUFFER_LENGTH
    requires forall ip <- lease.dns :: !ip.NotAnIp?
    ensures var r := ParseMessage(Response(xid, chaddr, lease, msgType), spare);
            && r.Parsed?
            && r.message.op == 2 && r.message.htype == 1 && r.message.hlen == 6 && r.message.hops == 0
            && r.message.xid == xid && r.message.secs == 0 && r.message.flags == 0
            && r.message.messageType == msgType
            && r.message.ciaddr == [0, 0, 0, 0] && r.message.giaddr == [0, 0, 0, 0]
            && r.message.yiaddr == (if lease.clientIp.NotAnIp? then [0, 0, 0, 0] else Octets(lease.clientIp).value)
            && r.message.siaddr == (if lease.gateway.NotAnIp? then [0, 0, 0, 0] else Octets(lease.gateway).value)
            && |r.message.chaddr| == 6
            && (forall i :: 0 <= i < 6 ==> r.message.chaddr[i] == if i < |chaddr| then chaddr[i] else 0)
            && r.message.serverId == Octets(lease.gateway)
            && r.message.options == AllOptions(lease, msgType)
  {
    var data := Response(xid, chaddr, lease, msgType);
    ServersFewEnough(xid, chaddr, lease, msgType);
    ResponseOptionsIff(xid, chaddr, lease, msgType);
    ResponseHeader(xid, chaddr, lease, msgType);
    ParseMessageOf(data, spare);
    RecoveredFields(data, data[28..34], lease, msgType);
    FourIsOctets(lease.gateway);
    HeaderRead(data, xid, chaddr, lease);
  }

  lemma {:induction false} HeaderRead(data: Bytes, xid: nat, chaddr: Bytes, lease: Lease)
    requires |data| >= OPTIONS_OFFSET && data[8..16] == Zeros(8) && data[24..28] == Zeros(4)
    requires data[0] == 2 && data[1] == 1 && data[2] == 6 && data[3] == 0 && UnpackBE(data[4..8]) == xid
    requires data[16..20] == Four(lease.clientIp) && data[20..24] == Four(lease.gateway)
    requires data[28..34] == SixBytes(chaddr)
    ensures var m := FixedFields(data, data[28..34]);
            && m.op == 2 && m.htype == 1 && m.hlen == 6 && m.hops == 0
            && m.xid == xid && m.secs == 0 && m.flags == 0
            && m.ciaddr == [0, 0, 0, 0] && m.giaddr == [0, 0, 0, 0]
            && m.yiaddr == (if lease.clientIp.NotAnIp? then [0, 0, 0, 0] else Octets(lease.clientIp).value)
            && m.siaddr == (if lease.gateway.NotAnIp? then [0, 0, 0, 0] else Octets(lease.gateway).value)
            && |m.chaddr| == 6
            && (forall i :: 0 <= i < 6 ==> m.chaddr[i] == if i < |chaddr| then chaddr[i] else 0)
  {
    FourIsOctets(lease.clientIp);
    FourIsOctets(lease.gateway);
    ZeroFields(data);
  }

  lemma {:induction false} ZeroFields(data: Bytes)
    requires |data| >= OPTIONS_OFFSET && data[8..16] == Zeros(8) && data[24..28] == Zeros(4)
    ensures UnpackBE(data[8..10]) == 0 && UnpackBE(data[10..12]) == 0
    ensures data[12..16] == [0, 0, 0, 0] && data[24..28] == [0, 0, 0, 0]
  {
    var z := data[8..16];
    assert data[8] == z[0] && data[9] == z[1] && data[10] == z[2] && data[11] == z[3];
    U16IsBigEndian(data, 8);
    U16IsBigEndian(data, 10);
    assert data[12..16] == z[4..8];
  }

  /** And its options carry, each under its own code only, the message type, the lease time in seconds, the gateway as
      server identifier and router, the mask, and every DNS server in order. */
  lemma {:induction false} BuiltPacketOptions(xid: nat, chaddr: Bytes, lease: Lease, msgType: byte, spare: Bytes)
      returns (time: Bytes, servers: Bytes)
    requires xid < 0x1_0000_0000
    requires |Response(xid, chaddr, lease, msgType)| <= BUFFER_LENGTH
    requires forall ip <- lease.dns :: !ip.NotAnIp?
    ensures ParseMessage(Response(xid, chaddr, lease, msgType), spare).Parsed?
    ensures var opts := ParseMessage(Response(xid, chaddr, lease, msgType), spare).message.options;
            && Sole(opts, 53, Some([msgType]))
            && Sole(opts, 54, Octets(lease.gateway)) && Sole(opts, 3, Octets(lease.gateway))
            && Sole(opts, 1, Octets(lease.subnetMask))
            && Sole(opts, 51, Some(time)) && UnpackBE(time) == lease.leaseTime % 0x1_0000_0000
            && Sole(opts, 6, if lease.dns == [] then None else Some(servers))
            && |servers| == 4 * |lease.dns|
            && forall k :: 0 <= k < |lease.dns| ==> servers[4 * k..4 * k + 4] == Octets(lease.dns[k]).value
  {
    BuiltPacketParses(xid, chaddr, lease, msgType, spare);
    OptionValues(lease, msgType);
    LeaseTimeRead(lease);
    time, servers := LeaseTimeBytes(lease), DnsBytes(lease.dns);
    ServersInOrder(lease.dns);
  }

  lemma {:induction false} ServersInOrder(dns: seq<NetIp>)
    requires forall ip <- dns :: !ip.NotAnIp?
    ensures |DnsBytes(dns)| == 4 * |dns|
    ensures forall k :: 0 <= k < |dns| ==> DnsBytes(dns)[4 * k..4 * k + 4] == Octets(dns[k]).value
  {
    AllParsedIff(dns);
    forall k | 0 <= k < |dns| ensures DnsBytes(dns)[4 * k..4 * k + 4] == Octets(dns[k]).value {
      DnsBytesAt(dns, k);
    }
  }

  // ----- any packet

  /** The parser panics exactly for a hardware length that wraps the byte-typed bound or runs past the buffer. */
  lemma {:induction false} PanicsIff(data: Bytes, spare: Bytes)
    ensures ParseMessage(data, spare).ParsePanics?
            <==> |data| >= 240 && (data[2] >= 228 || 28 + (data[2] as int) > |data| + |spare|)
  {
  }

  /** Where each fixed field of any parsed packet comes from. */
  lemma {:induction false} FixedFieldsAt(data: Bytes, spare: Bytes)
    requires ParseMessage(data, spare).Parsed?
    ensures |data| >= 240
    ensures var m := ParseMessage(data, spare).message;
            && m.op == data[0] && m.htype == data[1] && m.hlen == data[2] && m.hops == data[3]
            && m.xid == UnpackBE(data[4..8]) && m.secs == U16At(data, 8) && m.flags == U16At(data, 10)
            && m.ciaddr == data[12..16] && m.yiaddr == data[16..20] && m.siaddr == data[20..24] && m.giaddr == data[24..28]
            && m.chaddr == (data + spare)[28..28 + data[2] as int]
  {
    U16IsBigEndian(data, 8);
    U16IsBigEndian(data, 10);
  }

  /** Encoded options, each after some padding. */
  function Stream(opts: seq<DhcpOption>, pads: seq<nat>): Bytes
    requires |pads| == |opts| && Short(opts)
  {
    if opts == [] then [] else Zeros(pads[0]) + (Tlv(opts[0]) + Stream(opts[1..], pads[1..]))
  }

  lemma {:induction false} ZerosSkipped(data: Bytes, n: nat, k: nat)
    requires Holds(data, n, Zeros(k))
    ensures OptionsFrom(data, n) == OptionsFrom(data, n + k)
    decreases k
  {
    if k > 0 {
      var zeros := data[n..n + k];
      assert data[n] == zeros[0] == 0;
      assert data[n + 1..n + k] == zeros[1..] == Zeros(k - 1);
      ZerosSkipped(data, n + 1, k - 1);
    }
  }

  lemma {:induction false} StreamReads(data: Bytes, n: nat, opts: seq<DhcpOption>, pads: seq<nat>, more: seq<DhcpOption>)
    requires |pads| == |opts| && Plain(opts) && Short(opts) && Holds(data, n, Stream(opts, pads))
    requires more == OptionsFrom(data, n + |Stream(opts, pads)|)
    ensures OptionsFrom(data, n) == opts + more
    decreases |opts|
  {
    if opts == [] {
      assert opts + more == more;
    } else {
      var next := StreamStep(data, n, opts, pads);
      StreamReads(data, next, opts[1..], pads[1..], more);
      HeadFirst(opts, more);
    }
  }

  lemma {:induction false} StreamStep(data: Bytes, n: nat, opts: seq<DhcpOption>, pads: seq<nat>) returns (next: nat)
    requires opts != [] && |pads| == |opts| && Plain(opts) && Short(opts) && Holds(data, n, Stream(opts, pads))
    ensures Plain(opts[1..]) && Short(opts[1..]) && Holds(data, next, Stream(opts[1..], pads[1..]))
    ensures next + |Stream(opts[1..], pads[1..])| == n + |Stream(opts, pads)|
    ensures OptionsFrom(data, n) == [opts[0]] + OptionsFrom(data, next)
  {
    next := OptionAfterPads(data, n, pads[0], opts[0], Stream(opts[1..], pads[1..]));
  }

  lemma {:induction false} OptionAfterPads(data: Bytes, n: nat, k: nat, o: DhcpOption, rest: Bytes) returns (next: nat)
    requires o.code != OPT_PAD && o.code != OPT_END && |o.value| < 256 && Holds(data, n, Zeros(k) + (Tlv(o) + rest))
    ensures Holds(data, next, rest) && next == n + k + |Tlv(o)|
    ensures OptionsFrom(data, n) == [o] + OptionsFrom(data, next)
  {
    PadsThen(data, n, k, Tlv(o) + rest);
    OptionThen(data, n + k, o, rest);
    next := n + k + |Tlv(o)|;
  }

  lemma {:induction false} PadsThen(data: Bytes, n: nat, k: nat, rest: Bytes)
    requires Holds(data, n, Zeros(k) + rest)
    ensures Holds(data, n + k, rest) && OptionsFrom(data, n) == OptionsFrom(data, n + k)
  {
    HoldsSplit(data, n, Zeros(k), rest);
    ZerosSkipped(data, n, k);
  }

  lemma {:induction false} OptionThen(data: Bytes, n: nat, o: DhcpOption, rest: Bytes)
    requires o.code != OPT_PAD && o.code != OPT_END && |o.value| < 256 && Holds(data, n, Tlv(o) + rest)
    ensures Holds(data, n + |Tlv(o)|, rest) && OptionsFrom(data, n) == [o] + OptionsFrom(data, n + |Tlv(o)|)
  {
    HoldsSplit(data, n, Tlv(o), rest);
    OptionsFromTlv(data, n, o);
  }

  /** Reading stops at the end of the packet, at an end marker, and at an option that does not fit. */
  predicate StopsAt(data: Bytes, n: nat) {
    || n >= |data| || data[n] == 255
    || (data[n] != 0 && (n + 1 == |data| || n + 2 + data[n + 1] as int > |data|))
  }

  /** In any packet, options with padding between them are read in order up to where reading stops. */
  lemma {:induction false} AnyPacketReads(data: Bytes, opts: seq<DhcpOption>, pads: seq<nat>)
    requires |pads| == |opts| && Plain(opts) && Short(opts) && Holds(data, 240, Stream(opts, pads))
    requires StopsAt(data, 240 + |Stream(opts, pads)|)
    ensures OptionsFrom(data, 240) == opts
  {
    StreamReads(data, 240, opts, pads, []);
    assert opts + [] == opts;
  }

  /** Option `i` is the last with this code that is long enough. */
  predicate LastSuch(opts: seq<DhcpOption>, code: byte, least: nat, i: nat)
    requires i < |opts|
  {
    && opts[i].code == code && |opts[i].value| >= least
    && forall j :: i < j < |opts| ==> !(opts[j].code == code && |opts[j].value| >= least)
  }

  lemma {:induction false} LastValueAt(opts: seq<DhcpOption>, code: byte, least: nat, i: nat)
    requires i < |opts| && LastSuch(opts, code, least, i)
    ensures LastValue(opts, code, least) == Some(opts[i].value)
    decreases |opts|
  {
    var n := |opts| - 1;
    if i < n {
      assert opts[..n][i] == opts[i];
      LastValueAt(opts[..n], code, least, i);
    }
  }

  lemma {:induction false} LastValueNone(opts: seq<DhcpOption>, code: byte, least: nat)
    requires forall o <- opts :: !(o.code == code && |o.value| >= least)
    ensures LastValue(opts, code, least) == None
    decreases |opts|
  {
    if opts != [] {
      LastValueNone(opts[..|opts| - 1], code, least);
    }
  }

  /** Which option each of the remaining fields comes from: the last of its code that is long enough. */
  lemma {:induction false} OptionFieldsAt(m: Message, opts: seq<DhcpOption>, i: nat)
    requires i < |opts|
    ensures var w, value := WithOptions(m, opts), opts[i].value;
            && (LastSuch(opts, 53, 1, i) ==> w.messageType == value[0])
            && (LastSuch(opts, 54, 4, i) ==> w.serverId == Some(value[..4]))
            && (LastSuch(opts, 50, 4, i) ==> w.requestedIp == Some(value[..4]))
            && (LastSuch(opts, 12, 0, i) ==> w.hostname == value)
  {
    if LastSuch(opts, 53, 1, i) { LastValueAt(opts, 53, 1, i); }
    if LastSuch(opts, 54, 4, i) { LastValueAt(opts, 54, 4, i); }
    if LastSuch(opts, 50, 4, i) { LastValueAt(opts, 50, 4, i); }
    if LastSuch(opts, 12, 0, i) { LastValueAt(opts, 12, 0, i); }
  }

  /** And what they are when there is none. */
  lemma {:induction false} OptionFieldsMissing(m: Message, opts: seq<DhcpOption>)
    ensures var w := WithOptions(m, opts);
            && ((forall o <- opts :: !(o.code == 53 && |o.value| >= 1)) ==> w.messageType == 0)
            && ((forall o <- opts :: !(o.code == 54 && |o.value| >= 4)) ==> w.serverId == None)
            && ((forall o <- opts :: !(o.code == 50 && |o.value| >= 4)) ==> w.requestedIp == None)
            && ((forall o <- opts :: o.code != 12) ==> w.hostname == [])
  {
    if forall o <- opts :: !(o.code == 53 && |o.value| >= 1) { LastValueNone(opts, 53, 1); }
    if forall o <- opts :: !(o.code == 54 && |o.value| >= 4) { LastValueNone(opts, 54, 4); }
    if forall o <- opts :: !(o.code == 50 && |o.value| >= 4) { LastValueNone(opts, 50, 4); }
    if forall o <- opts :: o.code != 12 { LastValueNone(opts, 12, 0); }
  }

  lemma {:induction false} ResponseHeader(xid: nat, chaddr: Bytes, lease: Lease, msgType: byte)
    requires xid < 0x1_0000_0000
    ensures var data := Response(xid, chaddr, lease, msgType);
            && |data| > OPTIONS_OFFSET
            && data[0] == 2 && data[1] == 1 && data[2] == 6 && data[3] == 0
            && data[8..16] == Zeros(8) && data[24..28] == Zeros(4)
            && UnpackBE(data[4..8]) == xid
            && data[16..20] == Four(lease.clientIp)
            && data[20..24] == Four(lease.gateway)
            && data[28..34] == SixBytes(chaddr)
            && data[236..240] == MAGIC_COOKIE
  {
    BaseOptionsShort(lease, msgType);
    var rest := Tlvs(BaseOptions(lease, msgType)) + DnsPart(lease.dns) + [OPT_END];
    assert Response(xid, chaddr, lease, msgType) == Header(xid, chaddr, lease) + rest;
    HeaderFields(xid, chaddr, lease, rest);
  }

  /** In a response that fits, the length byte of fully parsed servers is exact. */
  lemma {:induction false} ServersFewEnough(xid: nat, chaddr: Bytes, lease: Lease, msgType: byte)
    requires |Response(xid, chaddr, lease, msgType)| <= BUFFER_LENGTH
    requires forall ip <- lease.dns :: !ip.NotAnIp?
    ensures lease.dns == [] || LengthByte(|lease.dns|) == 4 * DhcpPackets.Parsed(lease.dns)
  {
    BaseOptionsShort(lease, msgType);
    AllParsedIff(lease.dns);
  }

  /** A response with at most seven parsed DNS servers always fits the buffer; an eighth never does when the
      lease also names a gateway and a mask. */
  lemma {:induction false} SevenServersFit(xid: nat, chaddr: Bytes, lease: Lease, msgType: byte)
    ensures DhcpPackets.Parsed(lease.dns) <= 7 ==> |Response(xid, chaddr, lease, msgType)| <= BUFFER_LENGTH
    ensures !lease.gateway.NotAnIp? && !lease.subnetMask.NotAnIp? && DhcpPackets.Parsed(lease.dns) >= 8 ==>
              |Response(xid, chaddr, lease, msgType)| > BUFFER_LENGTH
  {
    BaseTlvs(lease, msgType);
    AddressTlvLength(OPT_SERVER_IDENTIFIER, lease.gateway);
    AddressTlvLength(OPT_SUBNET_MASK, lease.subnetMask);
    AddressTlvLength(OPT_ROUTER, lease.gateway);
  }

  lemma AddressTlvLength(code: byte, ip: NetIp)
    ensures Short(AddressOption(code, ip))
    ensures |Tlvs(AddressOption(code, ip))| == if ip.NotAnIp? then 0 else 6
  {
  }
}
