/** The DHCP interceptor's packets (section 2 of RFC 2131, section 2 of RFC 2132): a response is written
    into a fixed 300-byte buffer at a moving offset, and the parser reads options back. */
module DhcpPackets {
  import opened Basics
  import opened Bytes

  const BUFFER_LENGTH := 300
  const ADDRESSES_END := 28
  const OPTIONS_OFFSET := 240

  const OPT_PAD := 0
  const OPT_SUBNET_MASK := 1
  const OPT_ROUTER := 3
  const OPT_DNS := 6
  const OPT_HOSTNAME := 12
  const OPT_REQUESTED_IP := 50
  const OPT_LEASE_TIME := 51
  const OPT_MESSAGE_TYPE := 53
  const OPT_SERVER_IDENTIFIER := 54
  const OPT_END := 255

  const MAGIC_COOKIE: Bytes := [99, 130, 83, 99]

  /** What `net.ParseIP` makes of a text: nothing, an IPv4 address, or an address with no 4-byte form. */
  datatype NetIp = NotAnIp | V4(a: byte, b: byte, c: byte, d: byte) | V6

  /** The four bytes left in a zeroed buffer after copying the address's 4-byte form into it. */
  function Four(ip: NetIp): (b: Bytes)
    ensures |b| == 4
  {
    match ip
    case V4(a, b, c, d) => [a, b, c, d]
    case _ => Zeros(4)
  }

  datatype Lease = Lease(clientIp: NetIp, gateway: NetIp, subnetMask: NetIp, leaseTime: int, dns: seq<NetIp>)

  datatype DhcpOption = DhcpOption(code: byte, value: Bytes)

  /** The first six bytes of a hardware address, zero-filled. */
  function SixBytes(b: Bytes): (r: Bytes)
    ensures |r| == 6
  {
    if |b| >= 6 then b[..6] else b + Zeros(6 - |b|)
  }

  // ----- what a response contains

  function Header(xid: nat, chaddr: Bytes, lease: Lease): (h: Bytes)
    ensures |h| == OPTIONS_OFFSET
  {
    HeaderAddresses(xid, lease) + SixBytes(chaddr) + Zeros(202) + MAGIC_COOKIE
  }

  /** The header up to the hardware address: the assigned address follows the client's own, left zero. */
  function HeaderAddresses(xid: nat, lease: Lease): (h: Bytes)
    ensures |h| == ADDRESSES_END
  {
    [2, 1, 6, 0] + PackBE(xid, 4) + Zeros(8) + Four(lease.clientIp) + Four(lease.gateway) + Zeros(4)
  }

  /** The option for an address, left out when its text did not parse. */
  function AddressOption(code: byte, ip: NetIp): seq<DhcpOption> {
    if ip.NotAnIp? then [] else [DhcpOption(code, Four(ip))]
  }

  /** `uint32(lease.LeaseTime)` in network order. */
  function LeaseTimeBytes(lease: Lease): (b: Bytes)
    ensures |b| == 4
  {
    PackBE(lease.leaseTime % 0x1_0000_0000, 4)
  }

  /** The options before the DNS servers. */
  function BaseOptions(lease: Lease, msgType: byte): seq<DhcpOption> {
    [DhcpOption(OPT_MESSAGE_TYPE, [msgType])]
    + AddressOption(OPT_SERVER_IDENTIFIER, lease.gateway)
    + [DhcpOption(OPT_LEASE_TIME, LeaseTimeBytes(lease))]
    + AddressOption(OPT_SUBNET_MASK, lease.subnetMask)
    + AddressOption(OPT_ROUTER, lease.gateway)
  }

  /** The addresses of the servers whose text parsed, one after another. */
  function DnsBytes(dns: seq<NetIp>): (b: Bytes)
    ensures |b| == 4 * Parsed(dns)
  {
    if dns == [] then [] else (if dns[0].NotAnIp? then [] else Four(dns[0])) + DnsBytes(dns[1..])
  }

  /** How many servers' texts parsed. */
  function Parsed(dns: seq<NetIp>): (n: nat)
    ensures n <= |dns|
  {
    if dns == [] then 0 else (if dns[0].NotAnIp? then 0 else 1) + Parsed(dns[1..])
  }

  lemma {:induction false} AllParsedIff(dns: seq<NetIp>)
    ensures Parsed(dns) == |dns| <==> forall ip <- dns :: !ip.NotAnIp?
    decreases |dns|
  {
    if dns != [] {
      AllParsedIff(dns[1..]);
      assert dns == [dns[0]] + dns[1..];
    }
  }

  function Tlv(o: DhcpOption): Bytes
    requires |o.value| < 256
  {
    [o.code, |o.value|] + o.value
  }

  predicate Short(opts: seq<DhcpOption>) {
    forall o <- opts :: |o.value| < 256
  }

  function Tlvs(opts: seq<DhcpOption>): Bytes
    requires Short(opts)
  {
    if opts == [] then [] else Tlv(opts[0]) + Tlvs(opts[1..])
  }

  /** The DNS option as written: its length byte counts every server, parsed or not. */
  function DnsPart(dns: seq<NetIp>): Bytes {
    if dns == [] then [] else [OPT_DNS, LengthByte(|dns|)] + DnsBytes(dns)
  }

  /** `byte(n * 4)` */
  function LengthByte(n: nat): byte { 4 * n % 256 }

  lemma LengthByteIsMultiple(n: nat)
    ensures LengthByte(n) == 4 * (n % 64)
  {
  }

  /** The whole response, were the buffer long enough. */
  function Response(xid: nat, chaddr: Bytes, lease: Lease, msgType: byte): Bytes {
    BaseOptionsShort(lease, msgType);
    Header(xid, chaddr, lease) + Tlvs(BaseOptions(lease, msgType)) + DnsPart(lease.dns) + [OPT_END]
  }

  // ----- the builder

  datatype Build = Panics | Built(packet: Bytes)

  /** Copies `bytes` into the buffer at `offset`, whose rest is still zero. */
  method Put(packet: array<byte>, offset: nat, bytes: Bytes) returns (end: nat)
    requires offset + |bytes| <= packet.Length && packet[offset..] == Zeros(packet.Length - offset)
    modifies packet
    ensures end == offset + |bytes|
    ensures packet[..end] == old(packet[..offset]) + bytes
    ensures packet[end..] == Zeros(packet.Length - end)
  {
    for i := 0 to |bytes|
      invariant packet[..offset + i] == old(packet[..offset]) + bytes[..i]
      invariant packet[offset + i..] == Zeros(packet.Length - offset - i)
    {
      packet[offset + i] := bytes[i];
      assert packet[..offset + i + 1] == packet[..offset + i] + [bytes[i]];
      assert bytes[..i + 1] == bytes[..i] + [bytes[i]];
    }
    end := offset + |bytes|;
    assert bytes[..|bytes|] == bytes;
  }

  method PutOption(packet: array<byte>, offset: nat, o: DhcpOption) returns (end: nat)
    requires |o.value| < 256 && offset + 2 + |o.value| <= packet.Length
    requires packet[offset..] == Zeros(packet.Length - offset)
    modifies packet
    ensures end == offset + 2 + |o.value|
    ensures packet[..end] == old(packet[..offset]) + Tlv(o)
    ensures packet[end..] == Zeros(packet.Length - end)
  {
    end := Put(packet, offset, [o.code, |o.value|]);
    end := Put(packet, end, o.value);
  }

  method PutHeader(packet: array<byte>, xid: nat, chaddr: Bytes, lease: Lease)
    requires packet.Length == BUFFER_LENGTH && packet[..] == Zeros(BUFFER_LENGTH)
    modifies packet
    ensures packet[..OPTIONS_OFFSET] == Header(xid, chaddr, lease)
    ensures packet[OPTIONS_OFFSET..] == Zeros(BUFFER_LENGTH - OPTIONS_OFFSET)
  {
    PutAddresses(packet, xid, lease);
    var offset := Put(packet, ADDRESSES_END, SixBytes(chaddr));
    offset := Put(packet, offset, Zeros(202));
    offset := Put(packet, offset, MAGIC_COOKIE);
  }

  method PutAddresses(packet: array<byte>, xid: nat, lease: Lease)
    requires packet.Length == BUFFER_LENGTH && packet[..] == Zeros(BUFFER_LENGTH)
    modifies packet
    ensures packet[..ADDRESSES_END] == HeaderAddresses(xid, lease)
    ensures packet[ADDRESSES_END..] == Zeros(BUFFER_LENGTH - ADDRESSES_END)
  {
    assert packet[0..] == packet[..] && packet[..0] == [];
    var offset := Put(packet, 0, [2, 1, 6, 0]);
    offset := Put(packet, offset, PackBE(xid, 4));
    offset := Put(packet, offset, Zeros(8));
    offset := Put(packet, offset, Four(lease.clientIp));
    offset := Put(packet, offset, Four(lease.gateway));
    offset := Put(packet, offset, Zeros(4));
  }

  lemma {:induction false} TlvsAppend(xs: seq<DhcpOption>, ys: seq<DhcpOption>)
    requires Short(xs) && Short(ys)
    ensures Short(xs + ys) && Tlvs(xs + ys) == Tlvs(xs) + Tlvs(ys)
    decreases |xs|
  {
    if xs == [] {
      assert xs + ys == ys;
    } else {
      assert (xs + ys)[0] == xs[0] && (xs + ys)[1..] == xs[1..] + ys;
      TlvsAppend(xs[1..], ys);
      Regroup(Tlv(xs[0]), Tlvs(xs[1..]), Tlvs(ys));
    }
  }

  lemma TlvsOne(o: DhcpOption)
    requires |o.value| < 256
    ensures Tlvs([o]) == Tlv(o)
  {
  }

  lemma BaseOptionsShort(lease: Lease, msgType: byte)
    ensures Short(BaseOptions(lease, msgType))
  {
  }

  /** Writes the option for an address unless its text did not parse. */
  method PutAddress(packet: array<byte>, offset: nat, code: byte, ip: NetIp) returns (end: nat)
    requires offset + 6 <= packet.Length && packet[offset..] == Zeros(packet.Length - offset)
    modifies packet
    ensures Short(AddressOption(code, ip))
    ensures offset <= end <= offset + 6
    ensures end == offset + |Tlvs(AddressOption(code, ip))|
    ensures packet[..end] == old(packet[..offset]) + Tlvs(AddressOption(code, ip))
    ensures packet[end..] == Zeros(packet.Length - end)
  {
    if ip.NotAnIp? {
      end := offset;
    } else {
      TlvsOne(DhcpOption(code, Four(ip)));
      end := PutOption(packet, offset, DhcpOption(code, Four(ip)));
    }
  }

  method PutBaseOptions(packet: array<byte>, lease: Lease, msgType: byte) returns (end: nat)
    requires packet.Length == BUFFER_LENGTH
    requires packet[OPTIONS_OFFSET..] == Zeros(BUFFER_LENGTH - OPTIONS_OFFSET)
    modifies packet
    ensures Short(BaseOptions(lease, msgType))
    ensures OPTIONS_OFFSET <= end <= OPTIONS_OFFSET + 27
    ensures end == OPTIONS_OFFSET + |Tlvs(BaseOptions(lease, msgType))|
    ensures packet[..end] == old(packet[..OPTIONS_OFFSET]) + Tlvs(BaseOptions(lease, msgType))
    ensures packet[end..] == Zeros(BUFFER_LENGTH - end)
  {
    var kind := DhcpOption(OPT_MESSAGE_TYPE, [msgType]);
    var time := DhcpOption(OPT_LEASE_TIME, LeaseTimeBytes(lease));
    end := PutOption(packet, OPTIONS_OFFSET, kind);
    end := PutAddress(packet, end, OPT_SERVER_IDENTIFIER, lease.gateway);
    end := PutOption(packet, end, time);
    end := PutAddress(packet, end, OPT_SUBNET_MASK, lease.subnetMask);
    end := PutAddress(packet, end, OPT_ROUTER, lease.gateway);
    BaseTlvs(lease, msgType);
    RegroupFive(old(packet[..OPTIONS_OFFSET]), Tlv(kind), Tlvs(AddressOption(OPT_SERVER_IDENTIFIER, lease.gateway)), Tlv(time),
                Tlvs(AddressOption(OPT_SUBNET_MASK, lease.subnetMask)), Tlvs(AddressOption(OPT_ROUTER, lease.gateway)));
  }

  lemma RegroupFive(p: Bytes, a: Bytes, b: Bytes, c: Bytes, d: Bytes, e: Bytes)
    ensures p + a + b + c + d + e == p + (a + b + c + d + e)
  {
  }

  lemma {:induction false} BaseTlvs(lease: Lease, msgType: byte)
    ensures Short(BaseOptions(lease, msgType))
    ensures Tlvs(BaseOptions(lease, msgType))
            == Tlv(DhcpOption(OPT_MESSAGE_TYPE, [msgType]))
               + Tlvs(AddressOption(OPT_SERVER_IDENTIFIER, lease.gateway))
               + Tlv(DhcpOption(OPT_LEASE_TIME, LeaseTimeBytes(lease)))
               + Tlvs(AddressOption(OPT_SUBNET_MASK, lease.subnetMask))
               + Tlvs(AddressOption(OPT_ROUTER, lease.gateway))
  {
    var kind := DhcpOption(OPT_MESSAGE_TYPE, [msgType]);
    var time := DhcpOption(OPT_LEASE_TIME, LeaseTimeBytes(lease));
    var server := AddressOption(OPT_SERVER_IDENTIFIER, lease.gateway);
    var mask := AddressOption(OPT_SUBNET_MASK, lease.subnetMask);
    var router := AddressOption(OPT_ROUTER, lease.gateway);
    TlvsOne(kind);
    TlvsOne(time);
    TlvsAppend([kind], server);
    TlvsAppend([kind] + server, [time]);
    TlvsAppend([kind] + server + [time], mask);
    TlvsAppend([kind] + server + [time] + mask, router);
  }

  lemma DnsBytesAppend(dns: seq<NetIp>, ip: NetIp)
    ensures DnsBytes(dns + [ip]) == DnsBytes(dns) + (if ip.NotAnIp? then [] else Four(ip))
  {
    if dns == [] {
      assert dns + [ip] == [ip] && [ip][1..] == [];
      assert DnsBytes([]) == [];
    } else {
      assert (dns + [ip])[1..] == dns[1..] + [ip];
      DnsBytesAppend(dns[1..], ip);
    }
  }

  lemma {:induction false} DnsBytesStep(front: Bytes, dns: seq<NetIp>, i: nat)
    requires i < |dns|
    ensures front + DnsBytes(dns[..i + 1])
            == front + DnsBytes(dns[..i]) + (if dns[i].NotAnIp? then [] else Four(dns[i]))
  {
    assert dns[..i + 1] == dns[..i] + [dns[i]];
    DnsBytesAppend(dns[..i], dns[i]);
  }

  lemma {:induction false} DnsBytesGrow(dns: seq<NetIp>, i: nat)
    requires i <= |dns|
    ensures |DnsBytes(dns[..i])| <= |DnsBytes(dns)|
    decreases |dns| - i
  {
    if i == |dns| {
      assert dns[..i] == dns;
    } else {
      assert dns[..i + 1] == dns[..i] + [dns[i]];
      DnsBytesAppend(dns[..i], dns[i]);
      DnsBytesGrow(dns, i + 1);
    }
  }

  /** Writes the addresses that parsed; fails exactly when one would run past the buffer. */
  method PutServers(packet: array<byte>, offset: nat, dns: seq<NetIp>) returns (fits: bool, end: nat)
    requires offset <= packet.Length && packet[offset..] == Zeros(packet.Length - offset)
    modifies packet
    ensures fits <==> offset + |DnsBytes(dns)| <= packet.Length
    ensures fits ==> end == offset + |DnsBytes(dns)|
    ensures fits ==> packet[..end] == old(packet[..offset]) + DnsBytes(dns)
    ensures fits ==> packet[end..] == Zeros(packet.Length - end)
  {
    ghost var front := packet[..offset];
    end := offset;
    for i := 0 to |dns|
      invariant offset <= end <= packet.Length
      invariant packet[..end] == front + DnsBytes(dns[..i])
      invariant packet[end..] == Zeros(packet.Length - end)
    {
      DnsBytesStep(front, dns, i);
      if !dns[i].NotAnIp? {
        if end + 4 > packet.Length {
          DnsBytesGrow(dns, i + 1);
          return false, end;
        }
        end := Put(packet, end, Four(dns[i]));
      }
    }
    assert dns[..|dns|] == dns;
    fits := true;
  }

  method PutDns(packet: array<byte>, offset: nat, dns: seq<NetIp>) returns (fits: bool, end: nat)
    requires offset + 2 <= packet.Length && packet[offset..] == Zeros(packet.Length - offset)
    modifies packet
    ensures fits <==> offset + |DnsPart(dns)| <= packet.Length
    ensures fits ==> end == offset + |DnsPart(dns)|
    ensures fits ==> packet[..end] == old(packet[..offset]) + DnsPart(dns)
    ensures fits ==> packet[end..] == Zeros(packet.Length - end)
  {
    if dns == [] {
      return true, offset;
    }
    ghost var front := packet[..offset];
    var prefix: Bytes := [OPT_DNS, LengthByte(|dns|)];
    Regroup(front, prefix, DnsBytes(dns));
    end := Put(packet, offset, prefix);
    fits, end := PutServers(packet, end, dns);
  }

  /** `buildResponsePacket`: the response itself when it fits the buffer, a panic exactly when it does not. */
  method BuildResponsePacket(xid: nat, chaddr: Bytes, lease: Lease, msgType: byte) returns (r: Build)
    ensures var whole := Response(xid, chaddr, lease, msgType);
            r == if |whole| <= BUFFER_LENGTH then Built(whole) else Panics
  {
    var packet := new byte[BUFFER_LENGTH](_ => 0);
    assert packet[..] == Zeros(BUFFER_LENGTH);
    PutHeader(packet, xid, chaddr, lease);
    var offset := PutBaseOptions(packet, lease, msgType);
    var fits, end := PutDns(packet, offset, lease.dns);
    if !fits || end >= BUFFER_LENGTH {
      return Panics;
    }
    end := Put(packet, end, [OPT_END]);
    r := Built(packet[..end]);
  }
}
