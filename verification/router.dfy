/**
 The per-frame entry point of the router, `sr_handlepacket` in sr_router.c,
 with its two helpers `copy_mac_addr` and `swap_ip_addr`.

 The entry point is modelled as a pure function of the received bytes, the
 name of the receiving interface and the interface directory. The one
 observable effect of the C function, the `sr_send_packet` call that emits an
 ARP reply, becomes the returned frame and interface name.
 */
module Router {
  import opened Wire

  datatype Option<+T> = None | Some(value: T)

  /** One entry of the interface directory (`struct sr_if`): the four bytes
      of its IPv4 address as stored, and its hardware address. */
  datatype Iface = Iface(ip: Ip4, mac: Mac)

  /** The interface directory, keyed by interface name (`sr_get_interface`). */
  type Interfaces = map<string, Iface>

  /** Why a frame was dropped; each is one `return` of `sr_handlepacket`
      that does not send anything. */
  datatype DropReason =
    | ShortFrame          // shorter than an Ethernet header
    | IpIgnored           // ethertype IP: returns before any IP processing
    | ShortArp            // ethertype ARP but shorter than Ethernet + ARP headers
    | UnknownInterface    // ARP request on an interface with no directory entry
    | NotForUs            // ARP request whose target IP is not the interface's IP
    | ArpReplySeen        // ARP reply: logged only
    | UnsupportedArpOp    // ARP operation other than request or reply
    | ShortIp             // IP length check failed (never reached)
    | IpHandedOff         // IP length check passed (never reached)
    | OtherEtherType      // neither IP nor ARP

  /** What one call does: send one frame on one interface, or nothing. */
  datatype Outcome =
    | Send(frame: seq<Byte>, ifname: string)
    | Dropped(reason: DropReason)

  /** Writes `src` over the bytes of `buf` starting at `at`, one byte after
      another as `memcpy` does; every other byte is kept. */
  function Overwrite(buf: seq<Byte>, at: nat, src: seq<Byte>): (r: seq<Byte>)
    requires at + |src| <= |buf|
    ensures |r| == |buf|
    ensures r[at..at + |src|] == src
    ensures forall i :: 0 <= i < |buf| && !(at <= i < at + |src|) ==> r[i] == buf[i]
    decreases |src|
  {
    if |src| == 0 then buf
    else
      var rest := Overwrite(buf[at := src[0]], at + 1, src[1..]);
      assert rest[at] == src[0];
      assert rest[at..at + |src|] == [src[0]] + rest[at + 1..at + |src|];
      rest
  }

  /** `copy_mac_addr(dest, source)`: copies ETHER_ADDR_LEN bytes of `source`
      into the buffer at offset `dest`. */
  function CopyMacAddr(buf: seq<Byte>, dest: nat, source: Mac): (r: seq<Byte>)
    requires dest + MacLen <= |buf|
    ensures |r| == |buf|
    ensures r[dest..dest + MacLen] == source
    ensures forall i :: 0 <= i < |buf| && !(dest <= i < dest + MacLen) ==> r[i] == buf[i]
  {
    Overwrite(buf, dest, source)
  }

  /** `swap_ip_addr(ip1, ip2)`: exchanges the two 32-bit words at offsets `a`
      and `b` of the buffer, through a temporary holding the first. */
  function SwapIpAddr(buf: seq<Byte>, a: nat, b: nat): (r: seq<Byte>)
    requires a + Ip4Len <= |buf| && b + Ip4Len <= |buf|
    requires a + Ip4Len <= b || b + Ip4Len <= a
    ensures |r| == |buf|
    ensures r[a..a + Ip4Len] == buf[b..b + Ip4Len]
    ensures r[b..b + Ip4Len] == buf[a..a + Ip4Len]
    ensures forall i :: 0 <= i < |buf| && !(a <= i < a + Ip4Len) && !(b <= i < b + Ip4Len) ==> r[i] == buf[i]
  {
    var temp := buf[a..a + Ip4Len];
    var r1 := Overwrite(buf, a, buf[b..b + Ip4Len]);
    Overwrite(r1, b, temp)
  }

  /** The reply sr_router.c builds, field by field. The Ethernet and ARP
      sender become the interface, the old senders become the targets, and the
      operation becomes reply. Every other field is kept. Unlike RFC 826, the
      Ethernet destination is the request's Ethernet source, not its ARP sender
      hardware address. */
  function ReplyOf(req: ArpFrame, mac: Mac): ArpFrame
  {
    req.(dhost := req.shost, shost := mac, op := ArpOpReply,
         sha := mac, sip := req.tip, tha := req.sha, tip := req.sip)
  }

  /** The copy of the request edited in place into a reply, with the edits in
      the order sr_router.c makes them. */
  function BuildReply(req: seq<Byte>, mac: Mac): (reply: seq<Byte>)
    requires |req| >= ArpFrameLen
    ensures |reply| == |req|
    ensures Parse(reply) == ReplyOf(Parse(req), mac)
    ensures reply[EthType..ArpOp] == req[EthType..ArpOp]
    ensures reply[ArpFrameLen..] == req[ArpFrameLen..]
  {
    var r0 := req;
    var r1 := CopyMacAddr(r0, EthDhost, r0[EthShost..EthShost + MacLen]);
    var r2 := CopyMacAddr(r1, EthShost, mac);
    var r3 := Overwrite(r2, ArpOp, Be16(ArpOpReply));
    var r4 := SwapIpAddr(r3, ArpSip, ArpTip);
    var r5 := CopyMacAddr(r4, ArpTha, r4[ArpSha..ArpSha + MacLen]);
    var r6 := CopyMacAddr(r5, ArpSha, mac);
    ReplyFieldsLemma(req, mac, r1, r2, r3, r4, r5, r6);
    r6
  }

  /** The step-by-step facts behind `BuildReply`'s contract. */
  lemma ReplyFieldsLemma(req: seq<Byte>, mac: Mac,
                         r1: seq<Byte>, r2: seq<Byte>, r3: seq<Byte>,
                         r4: seq<Byte>, r5: seq<Byte>, r6: seq<Byte>)
    requires |req| >= ArpFrameLen
    requires r1 == CopyMacAddr(req, EthDhost, req[EthShost..EthShost + MacLen])
    requires r2 == CopyMacAddr(r1, EthShost, mac)
    requires r3 == Overwrite(r2, ArpOp, Be16(ArpOpReply))
    requires r4 == SwapIpAddr(r3, ArpSip, ArpTip)
    requires r5 == CopyMacAddr(r4, ArpTha, r4[ArpSha..ArpSha + MacLen])
    requires r6 == CopyMacAddr(r5, ArpSha, mac)
    ensures |r6| == |req|
    ensures Parse(r6) == ReplyOf(Parse(req), mac)
    ensures r6[EthType..ArpOp] == req[EthType..ArpOp]
    ensures r6[ArpFrameLen..] == req[ArpFrameLen..]
  {
    // Bytes no step writes: ethertype, hrd, pro, hln, pln and the trailer.
    forall i | EthType <= i < ArpOp || ArpFrameLen <= i < |req|
      ensures r6[i] == req[i]
    {
    }
    assert r6[EthType..ArpOp] == req[EthType..ArpOp];
    assert r6[ArpFrameLen..] == req[ArpFrameLen..];
    // Each written field is last written by the step named beside it.
    assert r6[EthDhost..EthDhost + MacLen] == req[EthShost..EthShost + MacLen] by {
      forall i | EthDhost <= i < EthDhost + MacLen
        ensures r6[i] == r1[i]
      {
      }
    }
    assert r6[EthShost..EthShost + MacLen] == mac by {
      forall i | EthShost <= i < EthShost + MacLen
        ensures r6[i] == r2[i]
      {
      }
    }
    assert r6[ArpOp..ArpOp + 2] == Be16(ArpOpReply) by {
      forall i | ArpOp <= i < ArpOp + 2
        ensures r6[i] == r3[i]
      {
      }
    }
    assert r4[ArpSha..ArpSha + MacLen] == req[ArpSha..ArpSha + MacLen] by {
      forall i | ArpSha <= i < ArpSha + MacLen
        ensures r4[i] == req[i]
      {
      }
    }
    assert r3[ArpSip..ArpSip + Ip4Len] == req[ArpSip..ArpSip + Ip4Len] by {
      forall i | ArpSip <= i < ArpSip + Ip4Len
        ensures r3[i] == req[i]
      {
      }
    }
    assert r3[ArpTip..ArpTip + Ip4Len] == req[ArpTip..ArpTip + Ip4Len] by {
      forall i | ArpTip <= i < ArpTip + Ip4Len
        ensures r3[i] == req[i]
      {
      }
    }
    assert r6[ArpSip..ArpSip + Ip4Len] == r4[ArpSip..ArpSip + Ip4Len] by {
      forall i | ArpSip <= i < ArpSip + Ip4Len
        ensures r6[i] == r4[i]
      {
      }
    }
    assert r6[ArpTip..ArpTip + Ip4Len] == r4[ArpTip..ArpTip + Ip4Len] by {
      forall i | ArpTip <= i < ArpTip + Ip4Len
        ensures r6[i] == r4[i]
      {
      }
    }
    assert r6[ArpTha..ArpTha + MacLen] == req[ArpSha..ArpSha + MacLen] by {
      forall i | ArpTha <= i < ArpTha + MacLen
        ensures r6[i] == r5[i]
      {
      }
    }
    assert ReadBe16(r6, ArpOp) == ArpOpReply by {
      assert r6[ArpOp] == Be16(ArpOpReply)[0] && r6[ArpOp + 1] == Be16(ArpOpReply)[1];
    }
    assert ReadBe16(r6, EthType) == ReadBe16(req, EthType);
    assert ReadBe16(r6, ArpHrd) == ReadBe16(req, ArpHrd);
    assert ReadBe16(r6, ArpPro) == ReadBe16(req, ArpPro);
  }

  /** `sr_handlepacket`: classifies the frame and answers an ARP request
      addressed to the receiving interface; every other path drops the frame.
      The IP branch at the end mirrors the source, which returns on IP frames
      before it can be reached. */
  function Dispatch(frame: seq<Byte>, ifname: string, ifaces: Interfaces): (o: Outcome)
    ensures o.Send? ==> o.ifname == ifname && ifname in ifaces
    ensures o.Send? ==> |frame| >= ArpFrameLen && |o.frame| == |frame|
    ensures o.Send? ==> Parse(o.frame) == ReplyOf(Parse(frame), ifaces[ifname].mac)
  {
    if |frame| < EthHeaderLen then Dropped(ShortFrame)
    else
      var ethtype := EtherTypeOf(frame);
      if ethtype == EtherTypeIp then Dropped(IpIgnored)
      else if ethtype == EtherTypeArp then
        if |frame| < EthHeaderLen + ArpHeaderLen then Dropped(ShortArp)
        else
          var op := ReadBe16(frame, ArpOp);
          if op == ArpOpRequest then
            if ifname !in ifaces then Dropped(UnknownInterface)
            else if ifaces[ifname].ip == frame[ArpTip..ArpTip + Ip4Len] then
              Send(BuildReply(frame, ifaces[ifname].mac), ifname)
            else Dropped(NotForUs)
          else if op == ArpOpReply then Dropped(ArpReplySeen)
          else Dropped(UnsupportedArpOp)
      else if ethtype == EtherTypeIp then
        if |frame| < EthHeaderLen + IpHeaderLen then Dropped(ShortIp)
        else Dropped(IpHandedOff)
      else Dropped(OtherEtherType)
  }

  /** The frame sent by `sr_send_packet`, with the interface it leaves on, if
      any. */
  function HandlePacket(frame: seq<Byte>, ifname: string, ifaces: Interfaces): (r: Option<(seq<Byte>, string)>)
    ensures r.Some? ==> r.value.1 == ifname && ifname in ifaces
    ensures r.Some? ==> |frame| >= ArpFrameLen && |r.value.0| == |frame|
    ensures r.Some? ==> Parse(r.value.0) == ReplyOf(Parse(frame), ifaces[ifname].mac)
  {
    match Dispatch(frame, ifname, ifaces)
    case Send(f, n) => Some((f, n))
    case Dropped(_) => None
  }
}
