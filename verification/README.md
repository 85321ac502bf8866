# ARP responder of a teaching software router, in Dafny

This project models `sr_handlepacket` in `sr_router.c`, the per-frame entry
point of a simple software router, with its helpers `copy_mac_addr` and
`swap_ip_addr`. For every received Ethernet frame the router:

- drops the frame if it is shorter than an Ethernet header;
- reads the big-endian ethertype and returns at once on IP (0x0800);
- for ARP (0x0806), drops the frame if it is shorter than Ethernet + ARP headers;
- for an ARP request (operation 1) whose target protocol address is the
  receiving interface's IPv4 address, copies the request and edits it in
  place into an ARP reply, then sends the reply on the same interface;
- drops everything else: ARP replies (operation 2), other operation codes,
  requests for other addresses, requests on an unknown interface and all
  other ethertypes.

The entry point is the pure function `Router.HandlePacket(frame, ifname, ifaces)`.
It returns the frame handed to `sr_send_packet` together with its interface,
or `None`. `Router.Dispatch` returns the same decision with the reason for each
drop. Frames are sequences of bytes, with a byte modelled as an integer in
0..255. The interface directory is a map from interface name to
`Iface(ip, mac)`. `ip` holds the four bytes of `struct sr_if`'s `ip` field as
they are stored. The 32-bit comparison at sr_router.c:127 compares those bytes
with the ARP target address, whatever their byte order.

Modules:

- `Wire` (`wire.dfy`) holds the Ethernet II and RFC 826 layout. Its sizes and
  offsets are named constants: a 14-byte Ethernet header, a 28-byte ARP header
  and a 20-byte IP header. It also holds big-endian 16-bit reads and writes,
  and a field-by-field view `Parse` / `Serialize` of an ARP frame, proved
  mutually inverse. `sr_protocol.h` and `sr_utils.c` are not part of this
  model. The header sizes, field offsets, ethertype values (IP 0x0800, ARP
  0x0806) and operation codes (request 1, reply 2) are therefore assumed. So
  is the reading of `ethertype()` as `ntohs` of bytes 12-13.
- `Router` (`router.dfy`) holds the helpers, the reply construction
  `BuildReply` and the dispatcher. `BuildReply` performs the edits in the
  source's order: Ethernet destination ← Ethernet source, then Ethernet source
  ← interface MAC, then operation ← reply, then the swap of sender and target
  IP, then target MAC ← sender MAC, then sender MAC ← interface MAC. Its
  contract compares the result with `ReplyOf`, a field-level statement of the
  reply sr_router.c builds. This reply differs from RFC 826 in one field. Its
  Ethernet destination is the request's Ethernet source address
  (sr_router.c:133). RFC 826 addresses the reply to the new target hardware
  address, which is the request's ar$sha. `RouterProps.ReplyDestinationIsEthernetSource`
  shows that the two differ whenever the request's Ethernet source and ar$sha
  differ.
- `RouterProps` (`router_props.dfy`) states which frames are dropped and
  which are answered, and what the answer contains.
- `RouterExamples` (`router_examples.dfy`) works through one exchange on
  concrete bytes.

Behaviour of the code that the model keeps:

- The code never reads hrd, pro, hln or pln. The model answers a request
  whatever those fields hold, and the reply keeps them.
- The IP length check at sr_router.c:163-171 comes after an unconditional
  return on IP at sr_router.c:103-105. The model keeps that check as dead
  code, and `IpLengthCheckUnreachable` proves that it is never reached.
- The Ethernet edit at sr_router.c:133-134 copies the source address into the
  destination, then overwrites the source with the interface MAC. The
  request's destination address is lost.

## Model

| member | source | states |
|---|---|---|
| Wire.Be16 | sr_router.c:138 | the two bytes `htons` stores read back, big-endian, as the value written |
| Wire.Be16OfRead | sr_router.c:121 | writing back a 16-bit field read with `ntohs` reproduces its two bytes |
| Wire.ParseSerialize | sr_router.c:117-118 | viewing the laid-out fields of an ARP frame through the header overlay recovers every field |
| Wire.SerializeParse | sr_router.c:117-118 | laying out the fields read through the header overlay reproduces the frame byte for byte, trailer included |
| Wire.ReadBe16 | sr_router.c:121 | the `ntohs` value at an offset splits back into its two bytes, high byte first |
| Wire.EtherTypeOf | sr_router.c:102 | the ethertype splits back into bytes 12 and 13 of the frame, high byte first |
| Wire.Parse | sr_router.c:117-118 | the header overlay of a frame of at least 42 bytes leaves exactly the bytes after the ARP header as trailer; `Wire.SerializeParse` states that the view loses nothing |
| Wire.Serialize | sr_router.c:132-141 | laying out the fields gives 42 bytes plus the trailer, with the trailer last |
| Router.Overwrite | sr_router.c:55 | copying byte after byte, as `memcpy` does, leaves the copied bytes at the offset, keeps the buffer's length and changes no other byte |
| Router.CopyMacAddr | sr_router.c:54-56 | the six destination bytes become the source address and no other byte of the buffer changes |
| Router.SwapIpAddr | sr_router.c:58-62 | each of the two four-byte words takes the other's old value and no other byte changes |
| Router.BuildReply | sr_router.c:128-141 | the in-place edits of the copied request give a frame of the same length whose fields are those of `ReplyOf`, the reply sr_router.c builds; ethertype, hrd, pro, hln, pln and trailing bytes are unchanged |
| Router.ReplyFieldsLemma | sr_router.c:132-141 | the six edits, taken in the source's order, leave each header field with the value of the step that wrote it last |
| Router.Dispatch | sr_router.c:79-173 | a frame is sent only on the receiving interface, and only if that interface is in the directory and the frame holds a full ARP header; the sent frame has the request's length and is the field-level reply to it |
| Router.HandlePacket | sr_router.c:79-173 | the `sr_send_packet` call, if any, is for the receiving interface with a frame of the request's length that is the reply to it |
| RouterProps.ShortFrameDropped | sr_router.c:93-100 | a frame shorter than 14 bytes is dropped with nothing sent |
| RouterProps.IpFrameDropped | sr_router.c:102-105 | an IP frame is dropped with nothing sent, whatever its length |
| RouterProps.IpLengthCheckUnreachable | sr_router.c:162-171 | no frame reaches either outcome of the IP length check |
| RouterProps.ShortArpDropped | sr_router.c:107-115 | an ARP frame shorter than 42 bytes is dropped with nothing sent |
| RouterProps.RequestOnUnknownInterfaceDropped | sr_router.c:123-126 | an ARP request on an interface with no directory entry is dropped with nothing sent |
| RouterProps.RequestNotForUsDropped | sr_router.c:127-149 | an ARP request whose target IP is not the interface's IP is dropped with nothing sent |
| RouterProps.NonRequestArpDropped | sr_router.c:151-159 | an ARP reply and an ARP message with any other operation code are dropped, each for its own reason, with nothing sent |
| RouterProps.OtherEtherTypeDropped | sr_router.c:102-173 | a frame whose ethertype is neither IP nor ARP is dropped with nothing sent |
| RouterProps.RequestAnswered | sr_router.c:127-146 | a request for the interface's IP yields exactly one frame, sent on the receiving interface, of the request's length, equal to the wire form of `ReplyOf` |
| RouterProps.AnsweredIffRequestFor | sr_router.c:97-173 | something is sent if and only if the frame is a full-length ARP request whose target IP is the receiving interface's IP |
| RouterProps.ReplyFields | sr_router.c:132-141 | in the reply, Ethernet destination = request's Ethernet source; Ethernet source = ARP sender MAC = interface MAC; op = 2; sender and target IP are exchanged; target MAC = request's sender MAC; all other fields are the request's |
| RouterProps.ReplyKeepsUntouchedBytes | sr_router.c:128-141 | bytes 12..19 and every byte from 42 on are the request's own |
| RouterProps.ReplyDestinationIsEthernetSource | sr_router.c:133-140 | when the request's Ethernet source and ARP sender MAC differ, the reply's Ethernet destination is not its ARP target MAC |
| RouterProps.ReplyIsNotAnswered | sr_router.c:138-159 | the reply, received on any interface, produces nothing: the responder never answers its own answers |
| RouterProps.SwapIpAddrTwice | sr_router.c:58-62 | swapping the same two words twice restores the buffer |
| RouterExamples.RequestForEth0Answered | sr_router.c:121-145 | the request from 10.0.0.2 for 10.0.0.1 on eth0 gets the reply that carries eth0's MAC as sender and 10.0.0.2 as target |
| RouterExamples.RequestForOtherAddressIgnored | sr_router.c:127-149 | the same request for 10.0.0.9 gets no answer |

## Left out

- `sr_init` is not modelled. It initialises the ARP cache and starts the cache timeout thread, so it is about concurrency and about collaborators that are not part of this model.
- The ARP cache and its expiry sweep (`sr_arpcache_init`, `sr_arpcache_timeout`) are not part of this model.
- The `printf`, `fprintf` and `print_hdrs` logging is left out. It is output only and does not change what is sent.
- `sr_send_packet` is modelled only as the returned frame and interface name.
- `sr_get_interface` is modelled as a lookup in a map from interface name to record. The name comparison on the linked list of interfaces is not modelled.
- `malloc` of the reply buffer is not modelled, and neither is the fact that the buffer is never freed. The buffer's contents are the returned sequence.
- The null-pointer `assert`s at sr_router.c:85-87 are not modelled. The model has no null pointers, so they cannot fail.
- Any bound on name length in `sr_get_interface`'s name comparison is not modelled. `sr_if.c` is not part of this model, and the model compares whole strings.
- The `len` argument is taken to be the length of the buffer. The C code trusts the caller on this.
- The source has no IP forwarding, TTL handling, checksums or ICMP, so the model has none.
- Bytes are integers in 0..255, not bit-vectors. No operation here needs bitwise arithmetic.
