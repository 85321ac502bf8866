/**
 A worked exchange: host 10.0.0.2 (hardware address AA:AA:AA:AA:AA:01) asks
 who has 10.0.0.1, the address of the router's interface `eth0`
 (hardware address BB:BB:BB:BB:BB:02).
 */
module RouterExamples {
  import opened Wire
  import opened Router
  import opened RouterProps

  const HostMac: Mac := [0xAA, 0xAA, 0xAA, 0xAA, 0xAA, 0x01]
  const RouterMac: Mac := [0xBB, 0xBB, 0xBB, 0xBB, 0xBB, 0x02]
  const Broadcast: Mac := [0xFF, 0xFF, 0xFF, 0xFF, 0xFF, 0xFF]
  const Unknown: Mac := [0, 0, 0, 0, 0, 0]

  const Directory: Interfaces := map["eth0" := Iface([10, 0, 0, 1], RouterMac)]

  /** An Ethernet/IPv4 ARP frame with the given operation and addresses. */
  function ArpMessage(dhost: Mac, shost: Mac, op: U16, sha: Mac, sip: Ip4, tha: Mac, tip: Ip4): seq<Byte>
  {
    Serialize(ArpFrame(dhost, shost, EtherTypeArp, 1, EtherTypeIp, 6, 4, op, sha, sip, tha, tip, []))
  }

  /** The request for 10.0.0.1 gets the reply that tells the host the
      router's hardware address, sent back on `eth0`. */
  lemma RequestForEth0Answered()
    ensures HandlePacket(
              ArpMessage(Broadcast, HostMac, ArpOpRequest, HostMac, [10, 0, 0, 2], Unknown, [10, 0, 0, 1]),
              "eth0", Directory)
            == Some((ArpMessage(HostMac, RouterMac, ArpOpReply, RouterMac, [10, 0, 0, 1], HostMac, [10, 0, 0, 2]),
                     "eth0"))
  {
    var req := ArpMessage(Broadcast, HostMac, ArpOpRequest, HostMac, [10, 0, 0, 2], Unknown, [10, 0, 0, 1]);
    ParseSerialize(ArpFrame(Broadcast, HostMac, EtherTypeArp, 1, EtherTypeIp, 6, 4, ArpOpRequest,
                            HostMac, [10, 0, 0, 2], Unknown, [10, 0, 0, 1], []));
    RequestAnswered(req, "eth0", Directory);
  }

  /** The same request for 10.0.0.9 gets no answer. */
  lemma RequestForOtherAddressIgnored()
    ensures HandlePacket(
              ArpMessage(Broadcast, HostMac, ArpOpRequest, HostMac, [10, 0, 0, 2], Unknown, [10, 0, 0, 9]),
              "eth0", Directory)
            == None
  {
    var req := ArpMessage(Broadcast, HostMac, ArpOpRequest, HostMac, [10, 0, 0, 2], Unknown, [10, 0, 0, 9]);
    ParseSerialize(ArpFrame(Broadcast, HostMac, EtherTypeArp, 1, EtherTypeIp, 6, 4, ArpOpRequest,
                            HostMac, [10, 0, 0, 2], Unknown, [10, 0, 0, 9], []));
    RequestNotForUsDropped(req, "eth0", Directory);
  }
}
