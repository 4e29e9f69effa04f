/** TCP/IP packets of the fake-TCP transport (packet.go): built byte by byte into one buffer
    and parsed back. Layouts follow section 3.1 of RFC 791, section 3.1 of RFC 9293 and, for
    the IPv6 pseudo header, section 8.1 of RFC 8200. */
module FakeTcp {
  import opened Wrappers
  import opened BigEndian
  import opened Checksum

  const IPV4_HEADER_LEN: int := 20
  const IPV6_HEADER_LEN: int := 40
  const TCP_HEADER_LEN: int := 20

  // ------------------------------------------------- big-endian fields

  function Get16(s: Bytes, k: nat): int
    requires k + 2 <= |s|
  {
    Word(s[k], s[k + 1])
  }

  function Get32(s: Bytes, k: nat): int
    requires k + 4 <= |s|
  {
    Get16(s, k) * U16 + Get16(s, k + 2)
  }

  // ------------------------------------------------- addresses

  /** An IPv4 address is four bytes long, or sixteen with the IPv4-mapped prefix. Addresses of any
      other length, a missing one among them, belong to neither family. */
  predicate Mapped(ip: Bytes) {
    |ip| == 16 && ip[..12] == [0, 0, 0, 0, 0, 0, 0, 0, 0, 0, 255, 255]
  }

  predicate IsAddress(ip: Bytes) {
    |ip| == 4 || |ip| == 16
  }

  function To4(ip: Bytes): (r: Option<Bytes>)
    ensures r.Some? ==> |r.value| == 4
  {
    if |ip| == 4 then Some(ip) else if Mapped(ip) then Some(ip[12..]) else None
  }

  function To16(ip: Bytes): (r: Option<Bytes>)
    ensures r.Some? ==> |r.value| == 16
  {
    if |ip| == 4 then Some([0, 0, 0, 0, 0, 0, 0, 0, 0, 0, 255, 255] + ip)
    else if |ip| == 16 then Some(ip)
    else None
  }

  /** The two forms of an IPv4 address are the same address; nothing else is one. */
  lemma IPv4Forms(ip: Bytes)
    ensures |ip| == 4 ==> To16(ip).Some? && To4(To16(ip).value) == Some(ip)
    ensures To4(ip).Some? <==> |ip| == 4 || (|ip| == 16 && ip[..12] == [0, 0, 0, 0, 0, 0, 0, 0, 0, 0, 255, 255])
    ensures |ip| == 16 && To4(ip).Some? ==> To16(To4(ip).value) == Some(ip)
  {
    if |ip| == 4 {
      var m := To16(ip).value;
      assert m[..12] == [0, 0, 0, 0, 0, 0, 0, 0, 0, 0, 255, 255] && m[12..] == ip;
    } else if |ip| == 16 && Mapped(ip) {
      assert ip == ip[..12] + ip[12..];
    }
  }

  /** What copying an address into a four-byte field of zeros leaves there. */
  function Field4(ip: Bytes): (r: Bytes)
    ensures |r| == 4
  {
    if To4(ip).Some? then To4(ip).value else [0, 0, 0, 0]
  }

  /** The same for a field of sixteen bytes; a missing address leaves zeros. */
  function Field16(ip: Bytes): (r: Bytes)
    ensures |r| == 16
  {
    if To16(ip).Some? then To16(ip).value else seq(16, _ => 0)
  }

  // ------------------------------------------------- the packet as a whole

  datatype Segment = Segment(srcPort: int, dstPort: int, seqNo: int, ackNo: int, flags: byte, payload: Bytes)

  predicate Syn(flags: byte) {
    flags / 2 % 2 == 1
  }

  /** SYN is the second lowest flag. */
  lemma SynBit(flags: byte)
    ensures Syn(flags) <==> flags % 4 == 2 || flags % 4 == 3
  {
  }

  function TcpHeaderLen(flags: byte): int {
    if Syn(flags) then TCP_HEADER_LEN + 4 else TCP_HEADER_LEN
  }

  function Patch(s: Bytes, k: nat, c: int): (r: Bytes)
    requires k + 2 <= |s|
    ensures |r| == |s| && forall i :: 0 <= i < |s| && i != k && i != k + 1 ==> r[i] == s[i]
  {
    s[k := B1(c)][k + 1 := B0(c)]
  }

  function IPv4Fixed(totalLen: int): (r: Bytes)
    ensures |r| == 12
  {
    [0x45, 0, B1(totalLen), B0(totalLen), 0, 0, 0x40, 0, 64, 6, 0, 0]
  }

  ghost function IPv4Blank(src: Bytes, dst: Bytes, totalLen: int): (r: Bytes)
    ensures |r| == 20
  {
    IPv4Fixed(totalLen) + Field4(src) + Field4(dst)
  }

  ghost function IPv4Header(src: Bytes, dst: Bytes, totalLen: int): (r: Bytes)
    ensures |r| == 20
  {
    var blank := IPv4Blank(src, dst, totalLen);
    Patch(blank, 10, Complement(WordSum(blank)))
  }

  function IPv6Fixed(payloadLen: int): (r: Bytes)
    ensures |r| == 8
  {
    [0x60, 0, 0, 0, B1(payloadLen), B0(payloadLen), 6, 64]
  }

  ghost function IPv6Header(src: Bytes, dst: Bytes, payloadLen: int): (r: Bytes)
    ensures |r| == 40
  {
    IPv6Fixed(payloadLen) + Field16(src) + Field16(dst)
  }

  function TcpFixed(t: Segment): (r: Bytes)
    ensures |r| == 20
  {
    [B1(t.srcPort), B0(t.srcPort), B1(t.dstPort), B0(t.dstPort),
     B1(Hi(t.seqNo)), B0(Hi(t.seqNo)), B1(Lo(t.seqNo)), B0(Lo(t.seqNo)),
     B1(Hi(t.ackNo)), B0(Hi(t.ackNo)), B1(Lo(t.ackNo)), B0(Lo(t.ackNo)),
     if Syn(t.flags) then 0x60 else 0x50, t.flags, 0xFF, 0xFF, 0, 0, 0, 0]
  }

  ghost function TcpBlank(t: Segment): (r: Bytes)
    ensures |r| == TcpHeaderLen(t.flags) + |t.payload|
  {
    TcpFixed(t) + (if Syn(t.flags) then [1, 3, 3, 14] else []) + t.payload
  }

  ghost function PseudoHeader(src: Bytes, dst: Bytes, tcpLen: int): (r: Bytes)
    ensures |r| == if To4(src).Some? then 12 else 40
  {
    if To4(src).Some? then Field4(src) + Field4(dst) + [0, 6] + Be16(tcpLen)
    else Field16(src) + Field16(dst) + Be32(tcpLen) + [0, 0, 0, 6]
  }

  ghost function TcpSegment(src: Bytes, dst: Bytes, t: Segment): (r: Bytes)
    ensures |r| == TcpHeaderLen(t.flags) + |t.payload|
  {
    var blank := TcpBlank(t);
    Patch(blank, 16, Complement(WordSum(PseudoHeader(src, dst, |blank|)) + WordSum(blank)))
  }

  ghost function Packet(src: Bytes, dst: Bytes, t: Segment): Bytes
  {
    var segment := TcpSegment(src, dst, t);
    (if To4(src).Some? then IPv4Header(src, dst, 20 + |segment|) else IPv6Header(src, dst, |segment|)) + segment
  }

  // ------------------------------------------------- parsing

  datatype TcpPacket = TcpPacket(srcIP: Bytes, dstIP: Bytes, srcPort: int, dstPort: int, seqNo: int, ackNo: int,
                                 flags: byte, window: int, payload: Bytes, isIPv6: bool)

  function ParseTCPPacket(buf: Bytes): Option<TcpPacket> {
    if |buf| < IPV4_HEADER_LEN then None
    else if buf[0] / 16 == 4 then
      if buf[9] != 6 then None else ParseSegment(buf[IPV4_HEADER_LEN..], buf[12..16], buf[16..20], false)
    else if buf[0] / 16 == 6 then
      if |buf| < IPV6_HEADER_LEN || buf[6] != 6 then None
      else ParseSegment(buf[IPV6_HEADER_LEN..], buf[8..24], buf[24..40], true)
    else None
  }

  function ParseSegment(tcp: Bytes, src: Bytes, dst: Bytes, isIPv6: bool): Option<TcpPacket> {
    if |tcp| < TCP_HEADER_LEN then None
    else
      var offset := tcp[12] / 16 * 4;
      Some(TcpPacket(src, dst, Get16(tcp, 0), Get16(tcp, 2), Get32(tcp, 4), Get32(tcp, 8), tcp[13], Get16(tcp, 14),
                     if offset < |tcp| then tcp[offset..] else [], isIPv6))
  }

  ghost predicate ValidSegment(t: Segment) {
    0 <= t.srcPort < U16 && 0 <= t.dstPort < U16 && 0 <= t.seqNo < U32 && 0 <= t.ackNo < U32
  }

  lemma SegmentPrefix(src: Bytes, dst: Bytes, t: Segment)
    ensures TcpSegment(src, dst, t)[..16] == TcpFixed(t)[..16]
    ensures TcpSegment(src, dst, t)[TcpHeaderLen(t.flags)..] == t.payload
  {
  }

  lemma PrefixBytes(t: Segment, tcp: Bytes, k: nat)
    requires |tcp| >= 16 && tcp[..16] == TcpFixed(t)[..16] && k < 16
    ensures tcp[k] == TcpFixed(t)[k]
  {
    assert tcp[k] == tcp[..16][k];
  }

  lemma Read16(s: Bytes, k: nat, v: int)
    requires k + 2 <= |s| && 0 <= v < U16 && s[k] == B1(v) && s[k + 1] == B0(v)
    ensures Get16(s, k) == v
  {
    WordOfBytes(v);
  }

  lemma Read32(s: Bytes, k: nat, hi: int, lo: int)
    requires k + 4 <= |s| && 0 <= hi < U16 && 0 <= lo < U16
    requires s[k] == B1(hi) && s[k + 1] == B0(hi) && s[k + 2] == B1(lo) && s[k + 3] == B0(lo)
    ensures Get32(s, k) == hi * U16 + lo
  {
    TwoWords(hi, lo);
  }

  lemma PortField(t: Segment, tcp: Bytes, k: nat, v: int)
    requires |tcp| >= 20 && tcp[..16] == TcpFixed(t)[..16] && 0 <= v < U16
    requires (k == 0 && v == t.srcPort) || (k == 2 && v == t.dstPort)
    ensures Get16(tcp, k) == v
  {
    PrefixBytes(t, tcp, k);
    PrefixBytes(t, tcp, k + 1);
    Read16(tcp, k, v);
  }

  lemma NumberField(t: Segment, tcp: Bytes, k: nat, v: int)
    requires |tcp| >= 20 && tcp[..16] == TcpFixed(t)[..16] && 0 <= v < U32
    requires (k == 4 && v == t.seqNo) || (k == 8 && v == t.ackNo)
    ensures Get32(tcp, k) == v
  {
    PrefixBytes(t, tcp, k);
    PrefixBytes(t, tcp, k + 1);
    PrefixBytes(t, tcp, k + 2);
    PrefixBytes(t, tcp, k + 3);
    TwoHalves(v);
    Read32(tcp, k, Hi(v), Lo(v));
  }

  lemma ControlFields(t: Segment, tcp: Bytes)
    requires |tcp| >= 20 && tcp[..16] == TcpFixed(t)[..16]
    ensures tcp[12] / 16 * 4 == TcpHeaderLen(t.flags) && tcp[13] == t.flags && Get16(tcp, 14) == 0xFFFF
  {
    PrefixBytes(t, tcp, 12);
    PrefixBytes(t, tcp, 13);
    PrefixBytes(t, tcp, 14);
    PrefixBytes(t, tcp, 15);
  }

  lemma ParseFields(t: Segment, tcp: Bytes, a: Bytes, b: Bytes, isIPv6: bool)
    requires ValidSegment(t) && |tcp| == TcpHeaderLen(t.flags) + |t.payload|
    requires tcp[..16] == TcpFixed(t)[..16] && tcp[TcpHeaderLen(t.flags)..] == t.payload
    ensures ParseSegment(tcp, a, b, isIPv6)
         == Some(TcpPacket(a, b, t.srcPort, t.dstPort, t.seqNo, t.ackNo, t.flags, 0xFFFF, t.payload, isIPv6))
  {
    PortField(t, tcp, 0, t.srcPort);
    PortField(t, tcp, 2, t.dstPort);
    NumberField(t, tcp, 4, t.seqNo);
    NumberField(t, tcp, 8, t.ackNo);
    ControlFields(t, tcp);
  }

  /** The segment is recovered field by field, with exactly its payload. */
  lemma SegmentRoundTrip(src: Bytes, dst: Bytes, t: Segment, a: Bytes, b: Bytes, isIPv6: bool)
    requires ValidSegment(t)
    ensures ParseSegment(TcpSegment(src, dst, t), a, b, isIPv6)
         == Some(TcpPacket(a, b, t.srcPort, t.dstPort, t.seqNo, t.ackNo, t.flags, 0xFFFF, t.payload, isIPv6))
  {
    SegmentPrefix(src, dst, t);
    ParseFields(t, TcpSegment(src, dst, t), a, b, isIPv6);
  }

  lemma IPv4RoundTrip(src: Bytes, dst: Bytes, rest: Bytes, totalLen: int)
    ensures var p := IPv4Header(src, dst, totalLen) + rest;
      p[0] == 0x45 && p[9] == 6 && p[12..16] == Field4(src) && p[16..20] == Field4(dst) && p[20..] == rest
  {
  }

  lemma IPv6RoundTrip(src: Bytes, dst: Bytes, rest: Bytes, payloadLen: int)
    ensures var p := IPv6Header(src, dst, payloadLen) + rest;
      p[0] == 0x60 && p[6] == 6 && p[8..24] == Field16(src) && p[24..40] == Field16(dst) && p[40..] == rest
  {
  }

  /** Parsing a built packet recovers the addresses (an IPv4 address as four bytes, an IPv6
      address as sixteen), ports, numbers, flags and payload. */
  lemma PacketRoundTrip(src: Bytes, dst: Bytes, t: Segment)
    requires IsAddress(src) && IsAddress(dst) && ValidSegment(t) && To4(src).Some? == To4(dst).Some?
    ensures var v6 := To4(src) == None;
      ParseTCPPacket(Packet(src, dst, t)) == Some(TcpPacket(
        if v6 then src else To4(src).value, if v6 then dst else To4(dst).value,
        t.srcPort, t.dstPort, t.seqNo, t.ackNo, t.flags, 0xFFFF, t.payload, v6))
  {
    var segment := TcpSegment(src, dst, t);
    if To4(src).Some? {
      IPv4RoundTrip(src, dst, segment, 20 + |segment|);
      SegmentRoundTrip(src, dst, t, Field4(src), Field4(dst), false);
    } else {
      IPv6RoundTrip(src, dst, segment, |segment|);
      SegmentRoundTrip(src, dst, t, src, dst, true);
    }
  }

  /** What parsing accepts: long enough for its headers, IP version 4 or 6, and TCP inside. */
  lemma ParsedExactly(buf: Bytes)
    ensures ParseTCPPacket(buf).Some? <==>
      || (|buf| >= IPV4_HEADER_LEN + TCP_HEADER_LEN && buf[0] / 16 == 4 && buf[9] == 6)
      || (|buf| >= IPV6_HEADER_LEN + TCP_HEADER_LEN && buf[0] / 16 == 6 && buf[6] == 6)
  {
  }

  /** The payload is the end of the packet behind the data offset, empty if that lies outside. */
  lemma PayloadIsSuffix(buf: Bytes)
    requires ParseTCPPacket(buf).Some?
    ensures var p := ParseTCPPacket(buf).value; var start := if p.isIPv6 then IPV6_HEADER_LEN else IPV4_HEADER_LEN;
      && (p.isIPv6 <==> buf[0] / 16 == 6)
      && p.payload == if start + buf[start + 12] / 16 * 4 < |buf| then buf[start + buf[start + 12] / 16 * 4..] else []
  {
  }

  /** The length fields count the packet, nothing is fragmented, and a packet lives 64 hops. */
  lemma HeaderFields(src: Bytes, dst: Bytes, t: Segment)
    requires |Packet(src, dst, t)| < U16
    ensures var p := Packet(src, dst, t);
      if To4(src).Some? then
        && |p| >= 20 && p[0] == 0x45 && Get16(p, 2) == |p| && p[6] == 0x40 && p[7] == 0 && p[8] == 64 && p[9] == 6
      else
        && |p| >= 40 && p[0] == 0x60 && Get16(p, 4) == |p| - 40 && p[6] == 6 && p[7] == 64
  {
    var segment := TcpSegment(src, dst, t);
    if To4(src).Some? {
      IPv4Fields(src, dst, 20 + |segment|, segment);
    } else {
      IPv6Fields(src, dst, |segment|, segment);
    }
  }

  lemma IPv4Fields(src: Bytes, dst: Bytes, totalLen: int, rest: Bytes)
    requires 0 <= totalLen < U16
    ensures var p := IPv4Header(src, dst, totalLen) + rest;
      p[0] == 0x45 && Get16(p, 2) == totalLen && p[6] == 0x40 && p[7] == 0 && p[8] == 64 && p[9] == 6
  {
    WordOfBytes(totalLen);
  }

  lemma IPv6Fields(src: Bytes, dst: Bytes, payloadLen: int, rest: Bytes)
    requires 0 <= payloadLen < U16
    ensures var p := IPv6Header(src, dst, payloadLen) + rest;
      p[0] == 0x60 && Get16(p, 4) == payloadLen && p[6] == 6 && p[7] == 64
  {
    WordOfBytes(payloadLen);
  }

  /** The pseudo header: the two addresses, zero and protocol 6, and the length of the segment. */
  lemma PseudoHeaderFields(src: Bytes, dst: Bytes, tcpLen: int)
    requires 0 <= tcpLen < U16
    ensures var p := PseudoHeader(src, dst, tcpLen);
      if To4(src).Some? then
        p[..4] == Field4(src) && p[4..8] == Field4(dst) && p[8] == 0 && p[9] == 6 && Get16(p, 10) == tcpLen
      else
        p[..16] == Field16(src) && p[16..32] == Field16(dst) && Get32(p, 32) == tcpLen && p[36..40] == [0, 0, 0, 6]
  {
    var p := PseudoHeader(src, dst, tcpLen);
    if To4(src).Some? {
      FieldsBehind(Field4(src), Field4(dst), [0, 6] + Be16(tcpLen), p);
      Read16(p, 10, tcpLen);
    } else {
      FieldsBehind(Field16(src), Field16(dst), Be32(tcpLen) + [0, 0, 0, 6], p);
      TwoHalves(tcpLen);
      Read32(p, 32, Hi(tcpLen), Lo(tcpLen));
    }
  }

  lemma FieldsBehind(a: Bytes, b: Bytes, rest: Bytes, p: Bytes)
    requires p == a + b + rest
    ensures p[..|a|] == a && p[|a|..|a| + |b|] == b && p[|a| + |b|..] == rest
    ensures forall k :: 0 <= k < |rest| ==> p[|a| + |b| + k] == rest[k]
  {
  }

  /** A SYN announces the window scale 14, padded by a no-operation; nothing is urgent. */
  lemma SynOptions(src: Bytes, dst: Bytes, t: Segment)
    ensures var segment := TcpSegment(src, dst, t);
      && |segment| >= 20 && segment[18] == 0 && segment[19] == 0
      && (Syn(t.flags) ==> |segment| >= 24 && segment[20..24] == [1, 3, 3, 14])
  {
  }

  // ------------------------------------------------- checksums of finished packets

  /** Patching a zero field adds the value to the sum. */
  lemma PatchedSum(s: Bytes, k: nat, c: int)
    requires k % 2 == 0 && k + 2 <= |s| && s[k] == 0 && s[k + 1] == 0 && 0 <= c < U16
    ensures WordSum(Patch(s, k, c)) == WordSum(s) + c
  {
    WordOfBytes(c);
    WordSumReplace(s, k, B1(c), B0(c));
  }

  lemma PatchFilledIn(rest: nat, s: Bytes, k: nat, c: int)
    requires k % 2 == 0 && k + 2 <= |s| && s[k] == 0 && s[k + 1] == 0
    requires c == Complement(rest + WordSum(s))
    ensures Complement(rest + WordSum(Patch(s, k, c))) == 0
  {
    var sum := rest + WordSum(s);
    PatchedSum(s, k, c);
    CancelsWith(sum, c, sum + c);
  }

  /** The finished TCP segment is valid together with its pseudo header, odd payload lengths
      included. */
  lemma SegmentChecksum(src: Bytes, dst: Bytes, t: Segment)
    ensures var segment := TcpSegment(src, dst, t);
      Complement(WordSum(PseudoHeader(src, dst, |segment|)) + WordSum(segment)) == 0
  {
    var segment := TcpSegment(src, dst, t);
    BlankField(t);
    FinishedChecksum(WordSum(PseudoHeader(src, dst, |segment|)), TcpBlank(t), 16, segment);
  }

  /** A buffer whose zero field has been patched with the checksum is valid. */
  lemma FinishedChecksum(rest: nat, blank: Bytes, k: nat, finished: Bytes)
    requires k % 2 == 0 && k + 2 <= |blank| && blank[k] == 0 && blank[k + 1] == 0
    requires finished == Patch(blank, k, Complement(rest + WordSum(blank)))
    ensures Complement(rest + WordSum(finished)) == 0
  {
    PatchFilledIn(rest, blank, k, Complement(rest + WordSum(blank)));
  }

  lemma BlankField(t: Segment)
    ensures TcpBlank(t)[16] == 0 && TcpBlank(t)[17] == 0
  {
  }

  lemma IPv4BlankField(src: Bytes, dst: Bytes, totalLen: int)
    ensures IPv4Blank(src, dst, totalLen)[10] == 0 && IPv4Blank(src, dst, totalLen)[11] == 0
  {
  }

  /** The finished IPv4 header is valid by itself. */
  lemma IPv4Checksum(src: Bytes, dst: Bytes, totalLen: int)
    ensures Complement(WordSum(IPv4Header(src, dst, totalLen))) == 0
  {
    IPv4BlankField(src, dst, totalLen);
    FinishedChecksum(0, IPv4Blank(src, dst, totalLen), 10, IPv4Header(src, dst, totalLen));
  }

  // ------------------------------------------------- building in place

  /** Everything before the copied bytes and behind them stays. */
  method CopyInto(buf: array<byte>, off: nat, data: Bytes)
    requires off + |data| <= buf.Length
    modifies buf
    ensures buf[..off + |data|] == old(buf[..off]) + data
    ensures forall k :: off + |data| <= k < buf.Length ==> buf[k] == old(buf[k])
  {
    forall k | 0 <= k < |data| {
      buf[off + k] := data[k];
    }
  }

  /** Copy an address into its field of zeros, if there is one. */
  method CopyAddress(buf: array<byte>, off: nat, ip: Option<Bytes>, ghost field: Bytes)
    requires off + |field| <= buf.Length && forall k :: off <= k < off + |field| ==> buf[k] == 0
    requires ip.Some? ==> ip.value == field
    requires ip == None ==> forall k :: 0 <= k < |field| ==> field[k] == 0
    modifies buf
    ensures buf[..off + |field|] == old(buf[..off]) + field
    ensures forall k :: off + |field| <= k < buf.Length ==> buf[k] == old(buf[k])
  {
    if ip.Some? {
      CopyInto(buf, off, ip.value);
    }
  }

  method PutUint16(buf: array<byte>, k: nat, v: int)
    requires k + 2 <= buf.Length
    modifies buf
    ensures buf[..] == Patch(old(buf[..]), k, v)
  {
    buf[k], buf[k + 1] := B1(v), B0(v);
  }

  /** The header fields with a zero checksum, then the checksum over them. */
  method BuildIPv4Header(buf: array<byte>, src: Bytes, dst: Bytes, totalLen: int)
    requires buf.Length >= 20 && forall k :: 0 <= k < 20 ==> buf[k] == 0
    modifies buf
    ensures buf[..20] == IPv4Header(src, dst, totalLen) && buf[20..] == old(buf[20..])
  {
    WriteIPv4Fields(buf, src, dst, totalLen);
    ghost var blank, rest := buf[..20], buf[20..];
    var c := CalculateChecksumSimple(buf[..20]);
    ghost var whole := buf[..];
    assert whole[..20] == blank && whole[20..] == rest;
    PutUint16(buf, 10, c);
    assert buf[..20] == buf[..][..20] == Patch(blank, 10, c);
    assert buf[20..] == buf[..][20..] == rest;
  }

  method WriteIPv4Fields(buf: array<byte>, src: Bytes, dst: Bytes, totalLen: int)
    requires buf.Length >= 20 && forall k :: 0 <= k < 20 ==> buf[k] == 0
    modifies buf
    ensures buf[..20] == IPv4Blank(src, dst, totalLen) && buf[20..] == old(buf[20..])
  {
    CopyInto(buf, 0, IPv4Fixed(totalLen));
    CopyAddress(buf, 12, To4(src), Field4(src));
    CopyAddress(buf, 16, To4(dst), Field4(dst));
  }

  method BuildIPv6Header(buf: array<byte>, src: Bytes, dst: Bytes, payloadLen: int)
    requires buf.Length >= 40 && forall k :: 0 <= k < 40 ==> buf[k] == 0
    modifies buf
    ensures buf[..40] == IPv6Header(src, dst, payloadLen) && buf[40..] == old(buf[40..])
  {
    CopyInto(buf, 0, IPv6Fixed(payloadLen));
    CopyAddress(buf, 8, To16(src), Field16(src));
    CopyAddress(buf, 24, To16(dst), Field16(dst));
  }

  method BuildTCPHeader(buf: array<byte>, off: nat, t: Segment)
    requires buf.Length == off + TcpHeaderLen(t.flags) + |t.payload|
    modifies buf
    ensures buf[..] == old(buf[..off]) + TcpBlank(t)
  {
    ghost var front := buf[..off];
    CopyInto(buf, off, TcpFixed(t));
    var options := if Syn(t.flags) then [1, 3, 3, 14] else [];
    CopyInto(buf, off + 20, options);
    CopyInto(buf, off + 20 + |options|, t.payload);
    assert buf[..] == buf[..buf.Length];
    InFront(front, TcpFixed(t), options, t.payload);
  }

  lemma InFront(a: Bytes, b: Bytes, c: Bytes, d: Bytes)
    ensures a + b + c + d == a + (b + c + d)
  {
  }

  method BuildPseudoHeader(src: Bytes, dst: Bytes, tcpLen: int) returns (pseudo: array<byte>)
    ensures fresh(pseudo) && pseudo[..] == PseudoHeader(src, dst, tcpLen)
  {
    if To4(src).Some? {
      pseudo := new byte[12](_ => 0);
      WritePseudoIPv4(pseudo, src, dst, tcpLen);
    } else {
      pseudo := new byte[40](_ => 0);
      WritePseudoIPv6(pseudo, src, dst, tcpLen);
    }
  }

  method WritePseudoIPv4(pseudo: array<byte>, src: Bytes, dst: Bytes, tcpLen: int)
    requires pseudo.Length == 12 && forall k :: 0 <= k < 12 ==> pseudo[k] == 0
    modifies pseudo
    ensures pseudo[..] == Field4(src) + Field4(dst) + [0, 6] + Be16(tcpLen)
  {
    CopyAddress(pseudo, 0, To4(src), Field4(src));
    CopyAddress(pseudo, 4, To4(dst), Field4(dst));
    CopyInto(pseudo, 8, [0, 6]);
    CopyInto(pseudo, 10, Be16(tcpLen));
    assert pseudo[..] == pseudo[..12];
  }

  method WritePseudoIPv6(pseudo: array<byte>, src: Bytes, dst: Bytes, tcpLen: int)
    requires pseudo.Length == 40 && forall k :: 0 <= k < 40 ==> pseudo[k] == 0
    modifies pseudo
    ensures pseudo[..] == Field16(src) + Field16(dst) + Be32(tcpLen) + [0, 0, 0, 6]
  {
    CopyAddress(pseudo, 0, To16(src), Field16(src));
    CopyAddress(pseudo, 16, To16(dst), Field16(dst));
    CopyInto(pseudo, 32, Be32(tcpLen));
    CopyInto(pseudo, 36, [0, 0, 0, 6]);
    assert pseudo[..] == pseudo[..40];
  }

  method BuildTCPPacket(src: Bytes, dst: Bytes, t: Segment) returns (buf: array<byte>)
    ensures fresh(buf) && buf[..] == Packet(src, dst, t)
  {
    var isIPv6 := To4(src) == None;
    var ipLen := if isIPv6 then IPV6_HEADER_LEN else IPV4_HEADER_LEN;
    var tcpLen := TcpHeaderLen(t.flags) + |t.payload|;
    buf := new byte[ipLen + tcpLen](_ => 0);
    if isIPv6 {
      BuildIPv6Header(buf, src, dst, tcpLen);
    } else {
      BuildIPv4Header(buf, src, dst, ipLen + tcpLen);
    }
    ghost var header := buf[..ipLen];
    BuildTCPHeader(buf, ipLen, t);
    assert buf[ipLen..] == buf[..][ipLen..] == TcpBlank(t) && buf[..ipLen] == buf[..][..ipLen] == header;
    FillTCPChecksum(buf, ipLen, src, dst, t);
    assert buf[..] == buf[..ipLen] + buf[ipLen..];
  }

  method FillTCPChecksum(buf: array<byte>, off: nat, src: Bytes, dst: Bytes, t: Segment)
    requires off <= buf.Length && buf[off..] == TcpBlank(t)
    modifies buf
    ensures buf[off..] == TcpSegment(src, dst, t) && buf[..off] == old(buf[..off])
  {
    var pseudo := BuildPseudoHeader(src, dst, buf.Length - off);
    var c := CalculateChecksum(pseudo[..], buf[off..]);
    PutBehind(buf, off, 16, c, TcpBlank(t), TcpSegment(src, dst, t));
  }

  method PutBehind(buf: array<byte>, off: nat, k: nat, c: int, ghost before: Bytes, ghost after: Bytes)
    requires off <= buf.Length && buf[off..] == before && k + 2 <= |before| && after == Patch(before, k, c)
    modifies buf
    ensures buf[off..] == after && buf[..off] == old(buf[..off])
  {
    PatchedTail(buf[..], off, k, c);
    PutUint16(buf, off + k, c);
    assert buf[off..] == buf[..][off..] && buf[..off] == buf[..][..off];
  }

  /** Patching behind `off` is patching what is behind `off`. */
  lemma PatchedTail(s: Bytes, off: nat, k: nat, c: int)
    requires off + k + 2 <= |s|
    ensures Patch(s, off + k, c)[off..] == Patch(s[off..], k, c)
    ensures Patch(s, off + k, c)[..off] == s[..off]
  {
  }
}
