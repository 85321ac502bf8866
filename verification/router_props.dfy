/**
 Properties of `Router.HandlePacket`: which frames are dropped, which are
 answered, and what the answer holds, stated against the field-by-field view
 `Wire.Parse` of the frame rather than against the byte edits that build it.
 */
module RouterProps {
  import opened Wire
  import opened Router

  /** An ARP request whose target protocol address is the receiving
      interface's own IPv4 address. Hardware type, protocol type and the
      address lengths play no part. */
  predicate IsRequestFor(frame: seq<Byte>, ifname: string, ifaces: Interfaces)
  {
    && |frame| >= ArpFrameLen
    && Parse(frame).etherType == EtherTypeArp
    && Parse(frame).op == ArpOpRequest
    && ifname in ifaces
    && Parse(frame).tip == ifaces[ifname].ip
  }

  /** A frame shorter than an Ethernet header is dropped. */
  lemma ShortFrameDropped(frame: seq<Byte>, ifname: string, ifaces: Interfaces)
    requires |frame| < EthHeaderLen
    ensures Dispatch(frame, ifname, ifaces) == Dropped(ShortFrame)
    ensures HandlePacket(frame, ifname, ifaces) == None
  {
  }

  /** An IP frame is dropped whatever its length. */
  lemma IpFrameDropped(frame: seq<Byte>, ifname: string, ifaces: Interfaces)
    requires |frame| >= EthHeaderLen && EtherTypeOf(frame) == EtherTypeIp
    ensures Dispatch(frame, ifname, ifaces) == Dropped(IpIgnored)
    ensures HandlePacket(frame, ifname, ifaces) == None
  {
  }

  /** The IP length check at the end of the dispatcher is never reached: no
      frame ends in either of its outcomes. */
  lemma IpLengthCheckUnreachable(frame: seq<Byte>, ifname: string, ifaces: Interfaces)
    ensures Dispatch(frame, ifname, ifaces) != Dropped(ShortIp)
    ensures Dispatch(frame, ifname, ifaces) != Dropped(IpHandedOff)
  {
  }

  /** An ARP frame too short for an ARP header is dropped. */
  lemma ShortArpDropped(frame: seq<Byte>, ifname: string, ifaces: Interfaces)
    requires EthHeaderLen <= |frame| < ArpFrameLen && EtherTypeOf(frame) == EtherTypeArp
    ensures Dispatch(frame, ifname, ifaces) == Dropped(ShortArp)
    ensures HandlePacket(frame, ifname, ifaces) == None
  {
  }

  /** An ARP request received on an interface missing from the directory is
      dropped. */
  lemma RequestOnUnknownInterfaceDropped(frame: seq<Byte>, ifname: string, ifaces: Interfaces)
    requires |frame| >= ArpFrameLen
    requires Parse(frame).etherType == EtherTypeArp && Parse(frame).op == ArpOpRequest
    requires ifname !in ifaces
    ensures Dispatch(frame, ifname, ifaces) == Dropped(UnknownInterface)
    ensures HandlePacket(frame, ifname, ifaces) == None
  {
  }

  /** An ARP request for some other IPv4 address is dropped, not proxied. */
  lemma RequestNotForUsDropped(frame: seq<Byte>, ifname: string, ifaces: Interfaces)
    requires |frame| >= ArpFrameLen
    requires Parse(frame).etherType == EtherTypeArp && Parse(frame).op == ArpOpRequest
    requires ifname in ifaces && Parse(frame).tip != ifaces[ifname].ip
    ensures Dispatch(frame, ifname, ifaces) == Dropped(NotForUs)
    ensures HandlePacket(frame, ifname, ifaces) == None
  {
  }

  /** ARP replies and ARP messages with any other operation code are
      dropped. */
  lemma NonRequestArpDropped(frame: seq<Byte>, ifname: string, ifaces: Interfaces)
    requires |frame| >= ArpFrameLen
    requires Parse(frame).etherType == EtherTypeArp && Parse(frame).op != ArpOpRequest
    ensures Parse(frame).op == ArpOpReply ==> Dispatch(frame, ifname, ifaces) == Dropped(ArpReplySeen)
    ensures Parse(frame).op != ArpOpReply ==> Dispatch(frame, ifname, ifaces) == Dropped(UnsupportedArpOp)
    ensures HandlePacket(frame, ifname, ifaces) == None
  {
  }

  /** A frame that is neither IP nor ARP is dropped. */
  lemma OtherEtherTypeDropped(frame: seq<Byte>, ifname: string, ifaces: Interfaces)
    requires |frame| >= EthHeaderLen
    requires EtherTypeOf(frame) != EtherTypeIp && EtherTypeOf(frame) != EtherTypeArp
    ensures Dispatch(frame, ifname, ifaces) == Dropped(OtherEtherType)
    ensures HandlePacket(frame, ifname, ifaces) == None
  {
  }

  /** A request for the interface's address is answered with exactly one
      frame, on the receiving interface, of the request's length, and that
      frame is the wire form of `ReplyOf`. */
  lemma RequestAnswered(frame: seq<Byte>, ifname: string, ifaces: Interfaces)
    requires IsRequestFor(frame, ifname, ifaces)
    ensures HandlePacket(frame, ifname, ifaces)
            == Some((Serialize(ReplyOf(Parse(frame), ifaces[ifname].mac)), ifname))
    ensures |HandlePacket(frame, ifname, ifaces).value.0| == |frame|
  {
    var reply := BuildReply(frame, ifaces[ifname].mac);
    assert Dispatch(frame, ifname, ifaces) == Send(reply, ifname);
    SerializeParse(reply);
  }

  /** Exactly the requests for the receiving interface's address get an
      answer. */
  lemma AnsweredIffRequestFor(frame: seq<Byte>, ifname: string, ifaces: Interfaces)
    ensures HandlePacket(frame, ifname, ifaces).Some? <==> IsRequestFor(frame, ifname, ifaces)
  {
  }

  /** The fields of the reply, one by one, against the request and the
      interface. */
  lemma ReplyFields(frame: seq<Byte>, ifname: string, ifaces: Interfaces)
    requires IsRequestFor(frame, ifname, ifaces)
    ensures var req := Parse(frame);
            var mac := ifaces[ifname].mac;
            var reply := Parse(HandlePacket(frame, ifname, ifaces).value.0);
            && reply.dhost == req.shost
            && reply.shost == mac
            && reply.op == ArpOpReply
            && reply.sip == req.tip && reply.tip == req.sip
            && reply.tha == req.sha
            && reply.sha == mac
            && reply.etherType == req.etherType
            && reply.hrd == req.hrd && reply.pro == req.pro
            && reply.hln == req.hln && reply.pln == req.pln
            && reply.trailer == req.trailer
  {
  }

  /** The bytes no edit touches (ethertype, hardware and protocol type, the
      two address lengths and everything after the ARP header) are the
      request's own. */
  lemma ReplyKeepsUntouchedBytes(frame: seq<Byte>, ifname: string, ifaces: Interfaces)
    requires IsRequestFor(frame, ifname, ifaces)
    ensures var reply := HandlePacket(frame, ifname, ifaces).value.0;
            forall i :: EthType <= i < ArpOp || ArpFrameLen <= i < |frame| ==> reply[i] == frame[i]
  {
  }

  /** The reply goes to the request's Ethernet source, not to the hardware
      address it names as ARP target (where RFC 826 sends it): the two differ
      whenever the request's Ethernet source and ARP sender differ. */
  lemma ReplyDestinationIsEthernetSource(frame: seq<Byte>, ifname: string, ifaces: Interfaces)
    requires IsRequestFor(frame, ifname, ifaces)
    requires Parse(frame).shost != Parse(frame).sha
    ensures Parse(HandlePacket(frame, ifname, ifaces).value.0).dhost
            != Parse(HandlePacket(frame, ifname, ifaces).value.0).tha
  {
  }

  /** The reply is itself an ARP reply, so feeding it back to any interface
      produces nothing: the responder never answers its own answers. */
  lemma ReplyIsNotAnswered(frame: seq<Byte>, ifname: string, ifaces: Interfaces,
                           ifname': string, ifaces': Interfaces)
    requires IsRequestFor(frame, ifname, ifaces)
    ensures HandlePacket(HandlePacket(frame, ifname, ifaces).value.0, ifname', ifaces') == None
  {
  }

  /** `swap_ip_addr` applied twice to the same two words restores the
      buffer. */
  lemma SwapIpAddrTwice(buf: seq<Byte>, a: nat, b: nat)
    requires a + Ip4Len <= |buf| && b + Ip4Len <= |buf|
    requires a + Ip4Len <= b || b + Ip4Len <= a
    ensures SwapIpAddr(SwapIpAddr(buf, a, b), a, b) == buf
  {
  }
}
