/**
 Wire layout of the frames the router handles: an Ethernet II header followed,
 for ARP, by an Ethernet/IPv4 ARP header (RFC 826). Multi-byte integers are in
 network byte order (big-endian).

 The struct layouts (`sr_ethernet_hdr_t`, `sr_arp_hdr_t`, `sr_ip_hdr_t`) and the
 `ethertype` helper live in sr_protocol.h and sr_utils.c, which are not part of
 this model. The sizes, offsets, ethertype values and operation codes below are
 assumed to be the Ethernet II and RFC 826 layouts, and `ethertype()` is
 assumed to be `ntohs` of bytes 12-13.
 */
module Wire {

  /** One octet of a frame, as its unsigned value. */
  type Byte = b: int | 0 <= b < 0x100

  /** An unsigned 16-bit field value. */
  type U16 = x: int | 0 <= x < 0x1_0000

  /** A hardware (Ethernet) address: ETHER_ADDR_LEN bytes. */
  type Mac = s: seq<Byte> | |s| == 6 witness [0, 0, 0, 0, 0, 0]

  /** An IPv4 address as it sits in memory: four bytes, compared as stored. */
  type Ip4 = s: seq<Byte> | |s| == 4 witness [0, 0, 0, 0]

  const MacLen: nat := 6
  const Ip4Len: nat := 4

  /** sizeof(sr_ethernet_hdr_t): dhost[6], shost[6], type[2]. */
  const EthHeaderLen: nat := 14
  /** sizeof(sr_arp_hdr_t): hrd, pro, hln, pln, op, sha, sip, tha, tip. */
  const ArpHeaderLen: nat := 28
  /** sizeof(sr_ip_hdr_t) without options. */
  const IpHeaderLen: nat := 20
  /** Smallest frame that holds both an Ethernet and an ARP header. */
  const ArpFrameLen: nat := EthHeaderLen + ArpHeaderLen

  const EtherTypeIp: U16 := 0x0800
  const EtherTypeArp: U16 := 0x0806

  const ArpOpRequest: U16 := 1
  const ArpOpReply: U16 := 2

  // Offsets of the fields, counted from the first byte of the frame.
  const EthDhost: nat := 0
  const EthShost: nat := 6
  const EthType: nat := 12
  const ArpHrd: nat := 14
  const ArpPro: nat := 16
  const ArpHln: nat := 18
  const ArpPln: nat := 19
  const ArpOp: nat := 20
  const ArpSha: nat := 22
  const ArpSip: nat := 28
  const ArpTha: nat := 32
  const ArpTip: nat := 38

  /** The big-endian 16-bit value stored at `at` (what `ntohs` yields). */
  function ReadBe16(f: seq<Byte>, at: nat): (v: U16)
    requires at + 2 <= |f|
    ensures v / 256 == f[at] && v % 256 == f[at + 1]
  {
    (f[at] as int) * 256 + (f[at + 1] as int)
  }

  /** The two bytes that store `v` in network order (what `htons` writes). */
  function Be16(v: U16): (s: seq<Byte>)
    ensures |s| == 2
    ensures ReadBe16(s, 0) == v
  {
    [v / 256, v % 256]
  }

  /** Reading a 16-bit field and writing it back gives the same two bytes. */
  lemma Be16OfRead(f: seq<Byte>, at: nat)
    requires at + 2 <= |f|
    ensures Be16(ReadBe16(f, at)) == f[at..at + 2]
  {
  }

  /** The ethertype of a frame, read from its Ethernet header. */
  function EtherTypeOf(f: seq<Byte>): (t: U16)
    requires |f| >= EthHeaderLen
    ensures t / 256 == f[EthType] && t % 256 == f[EthType + 1]
  {
    ReadBe16(f, EthType)
  }

  /** A frame of at least `ArpFrameLen` bytes viewed field by field. */
  datatype ArpFrame = ArpFrame(
    dhost: Mac, shost: Mac, etherType: U16,
    hrd: U16, pro: U16, hln: Byte, pln: Byte, op: U16,
    sha: Mac, sip: Ip4, tha: Mac, tip: Ip4,
    trailer: seq<Byte>)

  /** Reads every field of the Ethernet and ARP headers; nothing is validated. */
  function Parse(f: seq<Byte>): (a: ArpFrame)
    requires |f| >= ArpFrameLen
    ensures |a.trailer| == |f| - ArpFrameLen
  {
    ArpFrame(
      f[EthDhost..EthDhost + MacLen], f[EthShost..EthShost + MacLen], ReadBe16(f, EthType),
      ReadBe16(f, ArpHrd), ReadBe16(f, ArpPro), f[ArpHln], f[ArpPln], ReadBe16(f, ArpOp),
      f[ArpSha..ArpSha + MacLen], f[ArpSip..ArpSip + Ip4Len],
      f[ArpTha..ArpTha + MacLen], f[ArpTip..ArpTip + Ip4Len],
      f[ArpFrameLen..])
  }

  /** Lays the fields out in wire order. */
  function Serialize(a: ArpFrame): (f: seq<Byte>)
    ensures |f| == ArpFrameLen + |a.trailer|
    ensures f[ArpFrameLen..] == a.trailer
  {
    a.dhost + a.shost + Be16(a.etherType)
    + Be16(a.hrd) + Be16(a.pro) + [a.hln, a.pln] + Be16(a.op)
    + a.sha + a.sip + a.tha + a.tip
    + a.trailer
  }

  /** Parsing a serialized frame recovers every field. */
  lemma ParseSerialize(a: ArpFrame)
    ensures Parse(Serialize(a)) == a
  {
  }

  /** Serializing a parsed frame gives back the same bytes. */
  lemma SerializeParse(f: seq<Byte>)
    requires |f| >= ArpFrameLen
    ensures Serialize(Parse(f)) == f
  {
  }
}
