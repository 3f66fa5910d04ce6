# A verified model of the networking playground's packet code

The interactive lessons in this repository teach how IPv4 and UDP work. Readers
write Rust that builds packets, and the page shows each frame the program sends.
Three pieces of code carry that:

- **The Rust codec** is embedded in the page as source text and compiled together
  with the reader's code. `MOD_IP` has the RFC 1071 checksum, the protocol
  numbers and a zero-copy IPv4 header view with getters and setters. `MOD_UDP`
  is a UDP datagram view whose checksum covers the RFC 768 pseudo-header.
  `MOD_UDP_SOCKET` is a small `std::net::UdpSocket` look-alike that calls into
  the host.
- **The TypeScript side**:
  - the `rust` template tag, which keeps track of how many lines precede the
    reader's code;
  - the decoder that turns each sent Ethernet frame back into IPv4, UDP and
    ICMP fields for display;
  - the Redux reducers for the final tests, the code editor and the routing
    of actions to playgrounds.
- **Two copies of the codec**: `components/rust/std_net.ts` and
  `playground/lesson1/rust.ts`. Their codecs are identical apart from
  `export`, so one Dafny model serves both. The socket shims differ, and both
  are modelled.

Bytes are `bv8` and 16- and 32-bit values are bounded integers. Each Rust
method on a packet view is a pure function on the byte sequence. A Rust panic
on an out-of-range slice becomes a `requires`, and a thrown JavaScript
exception becomes a `Failure`. Calls into the host are parameters: what
`to_socket_addrs` resolved to, the socket handle `udp_bind` gave, and the
sequence of `udp_recv_from` results. A send is returned as the `Outgoing`
record it would hand to `udp_send_to`.

Modules:

- `wrappers.dfy` (Wrappers): `Option`, `Result`
- `bytes.dfy` (Bytes): byte and word types, `NetworkEndian`, `Ipv4Addr`
- `protocol.dfy` (IpProtocol): `Protocol` and its `u8` conversions
- `checksum.dfy` (Checksum): `propagate_carries`, `data`, `combine`, `pseudo_header`
- `ipv4.dfy` (Ipv4): the IPv4 header view
- `udp.dfy` (Udp): the UDP datagram view
- `socket.dfy` (Socket): both `UdpSocket` shims
- `codewrap.dfy` (CodeWrap): `countLines`, the `rust` tag, the `wrap*` helpers
- `virtualnetwork.dfy` (VirtualNetwork): the display decoder and its reducer
- `agreement.dfy` (Agreement): decoder against Rust views on the same bytes
- `actions.dfy` (Actions): the actions, and running a reducer over a sequence
- `finaltests.dfy` (FinalTests): final-test statuses, the full-demo wrapper
- `code.dfy` (CodeEditor): the code-editor reducer
- `playgrounds.dfy` (Playgrounds): per-playground slices, initial state, routing

Notes on what the code does:

- Frames carry a 14-byte Ethernet header. The decoder reads the EtherType at
  offset 12 and IPv4 at offset 14. `send_to` guards `len + 42` (14 + 20 + 8),
  not `len + 28`.
- The IPv4 `check_len` does not reject a header length below 20. Only the
  conditions in the code are modelled.
- The decoder's `fragmentOffset` counts 8-byte units (`& 8191`), whereas the
  Rust `frag_offset` counts bytes (`<< 3` on a `u16`, which drops the three
  flag bits).
- The decoder's IP `data` starts 20 bytes into the header whatever the IHL
  says.

## Model

| member | source | states |
|---|---|---|
| Bytes.WriteU16 | components/rust/std_net.ts:445-449 | `write_u16`: reading the word back gives the value written; the length and every byte outside the two written ones are unchanged |
| Bytes.U16Bytes | components/rust/std_net.ts:445-449 | `to_be_bytes` of a `u16`: two bytes, high byte first, whose value is the number |
| Bytes.U32ToBeBytes | components/rust/std_net.ts:440-443 | the four big-endian bytes of a `u32`, which `read_u32` turns back into the same number |
| Bytes.ReadU32Bytes | components/rust/std_net.ts:579-588 | the big-endian bytes of the `u32` read at an offset are exactly the four buffer bytes there |
| Bytes.OctetsOfNumber | components/rust/std_net.ts:130 | `to_be_bytes` of the number built from a, b, c, d in base 256 is `[a, b, c, d]` |
| Bytes.AddrFromU32 | components/rust/std_net.ts:579-588 | `Ipv4Addr::from(u32)`: the address converts back to the same number and its octets are the number's big-endian bytes |
| Bytes.AddrFromOctets | components/rust/std_net.ts:99 | `Ipv4Addr::from([u8; 4])`: the address whose octets are the given four bytes |
| Bytes.AddrRoundTrip | components/rust/std_net.ts:579-588 | an address converted to `u32` and back is the same address |
| Bytes.OctetsDetermine | components/rust/std_net.ts:696-705 | two addresses with the same octets are equal |
| Bytes.Overwrite | components/rust/std_net.ts:696-705 | `copy_from_slice` into a range: the range holds the new bytes and nothing outside it changes |
| IpProtocol.FromU8 | components/rust/std_net.ts:406-417 | `Protocol::from(u8)`: converting back gives the same byte, and the result is `Unknown` exactly when the byte is not 0, 1, 2, 6 or 17 |
| IpProtocol.ProtocolRoundTrip | components/rust/std_net.ts:406-430 | `from(into(p)) == p` for every protocol except `Unknown(n)` where n is a named number |
| Checksum.PropagateCarries | components/rust/std_net.ts:334-337 | the 16-bit fold of a 32-bit word agrees with it modulo 0xFFFF and is zero only for zero |
| Checksum.FoldsUnique | components/rust/std_net.ts:334-337 | two 16-bit folds of the same total are equal |
| Checksum.FoldsToAllOnes | components/rust/std_net.ts:334-337 | a non-zero multiple of 0xFFFF folds to 0xFFFF (one's-complement negative zero) |
| Checksum.WordSumFitsU32 | components/rust/std_net.ts:340-369 | the big-endian word sum of up to 65535 bytes fits the `u32` accumulator |
| Checksum.OnesSum | components/rust/std_net.ts:340-369 | reference RFC 1071 sum: the fold of the sum of big-endian words, a trailing odd byte counting as a high byte |
| Checksum.SumChunk | components/rust/std_net.ts:348-351 | the inner loop over a 32-byte chunk adds exactly the chunk's word sum to the accumulator |
| Checksum.Data | components/rust/std_net.ts:340-369 | `checksum::data`, with its 32-byte chunk loop, tail loop and odd byte, returns the reference sum `OnesSum` |
| Checksum.WordSumAppend | components/rust/std_net.ts:340-369 | the word sum of a concatenation whose first part has even length is the sum of the word sums |
| Checksum.WordSumWriteU16 | components/rust/std_net.ts:445-449 | writing a word at an even offset changes the word sum by the new word minus the old one |
| Checksum.WordSumUpdate | components/rust/std_net.ts:340-369 | changing one byte changes the word sum by the byte difference, weighted 256 at even positions |
| Checksum.SingleByteChangeDetected | components/rust/std_net.ts:340-369 | if a buffer's sum is all ones, changing any single byte makes it no longer all ones |
| Checksum.Sum | components/rust/std_net.ts:371-377 | the sum of the words in `combine` is at most 0xFFFF per word and is zero exactly when every word is zero |
| Checksum.Combine | components/rust/std_net.ts:371-377 | `combine` folds the sum of the partial checksums |
| Checksum.CombinePairFolds | components/rust/std_net.ts:371-377 | combining two partial sums folds the sum of the two totals they stand for |
| Checksum.CombineConcat | components/rust/std_net.ts:371-377 | combining the sums of two buffers, the first of even length, is the sum of their concatenation |
| Checksum.CombineThree | components/rust/std_net.ts:389-393 | combining the sums of three buffers, the first two of even length, is the sum of their concatenation |
| Checksum.ProtoLen | components/rust/std_net.ts:385-387 | the `proto_len` bytes: zero, the protocol number, and the length truncated to 16 bits, big-endian |
| Checksum.PseudoHeader | components/rust/std_net.ts:379-394 | `pseudo_header` equals the RFC 1071 sum of the 12-byte RFC 768 pseudo-header (source, destination, zero, protocol, length) |
| Ipv4.Version | components/rust/std_net.ts:509-512 | the version is below 16 |
| Ipv4.HeaderLen | components/rust/std_net.ts:515-518 | the header length is a multiple of 4 and at most 60 |
| Ipv4.FragOffset | components/rust/std_net.ts:555-558 | `raw << 3` on a `u16` is the low 13 bits of the flags word times 8: the flag bits fall off |
| Ipv4.ShiftLeft3 | components/rust/std_net.ts:555-558 | a 16-bit shift left by 3 is the low 13 bits times 8 |
| Ipv4.ProtocolOf | components/rust/std_net.ts:567-570 | the protocol's number is the byte at offset 9 |
| Ipv4.SrcAddr | components/rust/std_net.ts:579-582 | the source address's octets are bytes 12 to 16 |
| Ipv4.DstAddr | components/rust/std_net.ts:585-588 | the destination address's octets are bytes 16 to 20 |
| Ipv4.CheckLen | components/rust/std_net.ts:489-502 | `check_len` accepts exactly the buffers that hold 20 bytes, the header length and the total length, with header length at most total length; only the last violation is `Malformed` |
| Ipv4.NewChecked | components/rust/std_net.ts:483-487 | `new_checked` returns the buffer exactly when `check_len` accepts it, and `check_len`'s error otherwise |
| Ipv4.Payload | components/rust/std_net.ts:603-607 | the payload is the bytes from the header length to the total length |
| Ipv4.CheckedAccessorsSafe | components/rust/std_net.ts:489-502 | a buffer `check_len` accepts can be given to every getter, `verify_checksum` and `payload`, and the payload fills the total length after the header |
| Ipv4.SetVersion | components/rust/std_net.ts:612-615 | only byte 0 changes; the version becomes the value's low nibble, and the header length is kept |
| Ipv4.SetHeaderLen | components/rust/std_net.ts:618-621 | only byte 0 changes; the header length becomes `value / 4 % 16 * 4`, the value itself when it is a multiple of 4 up to 60, and the version is kept |
| Ipv4.SetDscp | components/rust/std_net.ts:623-626 | only byte 1 changes; DSCP becomes the value modulo 64 and ECN is kept |
| Ipv4.SetEcn | components/rust/std_net.ts:628-631 | only byte 1 changes; ECN becomes the value's low two bits and DSCP is kept |
| Ipv4.SetTotalLen | components/rust/std_net.ts:634-637 | only bytes 2 and 3 change, and the total length reads back as the value |
| Ipv4.SetIdent | components/rust/std_net.ts:640-643 | only bytes 4 and 5 change, and the identification reads back as the value |
| Ipv4.FlagsWordParts | components/rust/std_net.ts:543-558 | a flags word built from reserved bit, DF, MF and 13-bit offset gives those four parts back |
| Ipv4.FlagsWordOfParts | components/rust/std_net.ts:543-558 | every 16-bit flags word is built from its four parts |
| Ipv4.WithoutFlags | components/rust/std_net.ts:649 | `raw & !0xe000` clears the top three bits and keeps the offset bits |
| Ipv4.WithDontFrag | components/rust/std_net.ts:657 | setting or clearing bit 0x4000 sets DF to the value and keeps the other bits |
| Ipv4.WithMoreFrags | components/rust/std_net.ts:665 | setting or clearing bit 0x2000 sets MF to the value and keeps the other bits |
| Ipv4.WithFragUnits | components/rust/std_net.ts:673 | `(raw & 0xe000) \| units` keeps the three flag bits and puts `units` in the low 13 bits |
| Ipv4.ClearFlags | components/rust/std_net.ts:646-651 | only bytes 6 and 7 change; DF, MF and the reserved bit are cleared and the fragment offset is kept |
| Ipv4.SetDontFrag | components/rust/std_net.ts:654-659 | only bytes 6 and 7 change; DF becomes the value, and the reserved bit, MF and the fragment offset are kept |
| Ipv4.SetMoreFrags | components/rust/std_net.ts:662-667 | only bytes 6 and 7 change; MF becomes the value, and the reserved bit, DF and the fragment offset are kept |
| Ipv4.SetFragOffset | components/rust/std_net.ts:670-675 | only bytes 6 and 7 change; the flags are kept and the fragment offset becomes the value rounded down to a multiple of 8 |
| Ipv4.SetHopLimit | components/rust/std_net.ts:678-681 | only byte 8 changes, and the hop limit reads back as the value |
| Ipv4.SetProtocol | components/rust/std_net.ts:684-687 | only byte 9 changes; the protocol reads back as the value unless it is an `Unknown` spelling of a named number |
| Ipv4.SetChecksum | components/rust/std_net.ts:690-693 | only bytes 10 and 11 change, and the checksum reads back as the value |
| Ipv4.SetSrcAddr | components/rust/std_net.ts:696-699 | only bytes 12 to 16 change, and the source address reads back as the value |
| Ipv4.SetDstAddr | components/rust/std_net.ts:702-705 | only bytes 16 to 20 change, and the destination address reads back as the value |
| Ipv4.FillChecksum | components/rust/std_net.ts:707-714 | `fill_checksum` changes only the checksum bytes and keeps the header length |
| Ipv4.FillThenVerify | components/rust/std_net.ts:590-597 | after `fill_checksum`, `verify_checksum` holds for every header that covers the checksum field |
| Ipv4.ComplementVerifies | components/rust/std_net.ts:707-714 | storing the complement of the sum over a zeroed even-aligned word makes the sum all ones |
| Ipv4.ComplementFolds | components/rust/std_net.ts:707-714 | adding a sum's complement to its total folds to 0xFFFF |
| Udp.CheckLen | components/rust/std_net.ts:195-209 | `check_len` accepts exactly the buffers with 8 header bytes and a length field between 8 and the buffer length; `Malformed` exactly when the length field is below 8 but fits |
| Udp.NewChecked | components/rust/std_net.ts:189-193 | `new_checked` returns the buffer exactly when `check_len` accepts it, and `check_len`'s error otherwise |
| Udp.Payload | components/rust/std_net.ts:255-259 | the payload is bytes 8 up to the length field |
| Udp.CheckedPayloadSafe | components/rust/std_net.ts:195-209 | after `check_len`, `payload` is in range and holds length minus 8 bytes |
| Udp.VerifyIsSumOverPseudoHeader | components/rust/std_net.ts:239-250 | `verify_checksum` holds exactly when the RFC 1071 sum of the pseudo-header followed by the datagram is all ones |
| Udp.SetSrcPort | components/rust/std_net.ts:264-267 | only bytes 0 and 1 change; the source port reads back as the value and the other header fields are kept |
| Udp.SetDstPort | components/rust/std_net.ts:270-273 | only bytes 2 and 3 change; the destination port reads back as the value and the other header fields are kept |
| Udp.SetLen | components/rust/std_net.ts:276-279 | only bytes 4 and 5 change; the length reads back as the value and the other header fields are kept |
| Udp.SetChecksum | components/rust/std_net.ts:282-285 | only bytes 6 and 7 change; the checksum reads back as the value and the other header fields are kept |
| Udp.Transmitted | components/rust/std_net.ts:301 | the stored checksum is never 0 (0xFFFF replaces a zero complement), and added to the sum it gives a multiple of 0xFFFF |
| Udp.FillChecksum | components/rust/std_net.ts:287-302 | `fill_checksum` changes only the checksum bytes, keeps the length, and stores a non-zero checksum |
| Udp.FillThenVerify | components/rust/std_net.ts:287-302 | for every datagram `check_len` accepts (length field between 8 and the buffer length), after `fill_checksum` with two addresses, `verify_checksum` with the same addresses holds |
| Udp.ZeroChecksumAdds | components/rust/std_net.ts:288 | writing a checksum into a zeroed field adds exactly that value to the word sum of the datagram |
| Udp.ComplementedCombine | components/rust/std_net.ts:291-301 | combining the pseudo-header sum with the sum after the transmitted checksum is added gives 0xFFFF |
| Udp.TransmittedFolds | components/rust/std_net.ts:301 | adding the transmitted checksum to a sum's total folds to 0xFFFF, including when 0xFFFF stands in for 0 |
| Socket.Bind | components/rust/std_net.ts:25-47 | `bind` succeeds exactly for a resolved IPv4 address and records it with no peer; a resolver error of kind Other becomes "invalid address format", other errors pass through, and IPv6 and no address are rejected |
| Socket.Connect | components/rust/std_net.ts:49-52 | `connect` stores the first resolved address, `None` included, as the peer; a resolver error leaves the socket unchanged |
| Socket.LocalAddr | components/rust/std_net.ts:149-151 | `local_addr` is always the bound IPv4 address |
| Socket.SendTo | components/rust/std_net.ts:62-82 | a datagram is handed to the host exactly when the payload plus 42 bytes fits 65535 and the address is IPv4; it carries the payload, its exact length and the destination, is followed by a `poll_network` call exactly when it is made, and the result is `Ok(0)`; each failure has its own error |
| Socket.SendToLengthExact | components/rust/std_net.ts:62-75 | whatever `send_to` hands to the host has its exact payload length, and the frame fits 65535 bytes |
| Socket.LegacySendTo | playground/lesson1/rust.ts:970-986 | the older `send_to` has no size guard: for an IPv4 destination it hands the host the socket handle, the payload, its length reduced modulo 65536, the destination's address as a `u32` and its port, never polls the network afterwards, and returns `Ok(0)`; a resolution error escapes, and IPv6 or no address gives the same errors as the newer copy |
| Socket.LegacyAgreesWhenSmall | playground/lesson1/rust.ts:970-986 | for every payload whose frame fits in 65535 bytes the older `send_to` gives the same result and the same `udp_send_to` call as the newer one; the only difference is the newer one's `poll_network` call after each send |
| Socket.LegacyLengthWraps | playground/lesson1/rust.ts:970-986 | a 65536-byte payload is accepted by the older `send_to` with host length 0, and rejected by the newer one |
| Socket.Send | components/rust/std_net.ts:54-60 | `send` is `send_to` the peer, or "Destination address required" without one |
| Socket.Peek | components/rust/std_net.ts:141-143 | `peek` always fails with kind Other |
| Socket.PeekFrom | components/rust/std_net.ts:145-147 | `peek_from` always fails with kind Other |
| Socket.ArrivalAt | components/rust/std_net.ts:125-127 | the k-th receive call returns the k-th arrival, and size 0 once the arrivals run out |
| Socket.SourceOf | components/rust/std_net.ts:130 | the sender's address has the big-endian bytes of `src_ip` as octets and `src_port` as port |
| Socket.RecvFrom | components/rust/std_net.ts:116-139 | `recv_from` returns the size and source of the first non-empty receive; it fails with "receive timeout" after 101 empty calls, and succeeds exactly when one of the first 101 is non-empty |
| Socket.Recv | components/rust/std_net.ts:84-114 | `recv` without a peer is "Not connected"; with one it returns the size of the first receive from the peer, skipping others, and times out after 101 calls exactly when none of them is from the peer |
| CodeWrap.Split | playground/lesson1/rust.ts:233 | `split('\n')` gives at least one piece and no piece contains a newline |
| CodeWrap.SplitJoin | playground/lesson1/rust.ts:233 | joining the pieces with newlines gives the string back |
| CodeWrap.SplitCountsNewlines | playground/lesson1/rust.ts:233 | `split('\n')` gives one piece more than there are newlines |
| CodeWrap.CountLines | playground/lesson1/rust.ts:233 | `countLines` is the number of newline characters |
| CodeWrap.NewlinesAppend | playground/lesson1/rust.ts:864-865 | newline counts add up over concatenation |
| CodeWrap.Tag | playground/lesson1/rust.ts:236-243 | the `rust` tag puts the user code right after the first template part, and `lineOffset` is the number of lines before it |
| CodeWrap.PrependLocates | playground/lesson1/rust.ts:864-865 | prepending a module and adding its line count keeps `lineOffset` equal to the lines before the user code |
| CodeWrap.WrapWithModule | playground/lesson1/rust.ts:822-868 | `wrapIpHeaderCode` with `MOD_IP`, and equally `wrapFullDemoCode` and `wrapFinalTestCode` (rust.ts:1059-1109) with the socket shim: the wrapped code is the module then the template with the user code, and `lineOffset` counts exactly the lines before the user code |
| CodeWrap.WrapUdpHeaderCode | playground/lesson1/rust.ts:870-915 | the wrapped code is `MOD_IP`, `MOD_UDP` then the template, and `lineOffset` counts exactly the lines before the user code |
| VirtualNetwork.ByteAt | playground/reducers/virtualNetwork.ts:47-57 | `buf[i]` is a byte inside the buffer and `undefined` past its end |
| VirtualNetwork.BitsAt | playground/reducers/virtualNetwork.ts:126-128 | in a bit operation `buf[i]` is the byte, or 0 past the end |
| VirtualNetwork.ReadUInt16BE | playground/reducers/virtualNetwork.ts:130-131 | `readUInt16BE` is the big-endian word when two bytes are there, and a RangeError otherwise |
| VirtualNetwork.JsSlice | playground/reducers/virtualNetwork.ts:148 | `Buffer.slice(start, end)` clamps both ends to the buffer; its length is given by that clamping and its bytes are the buffer's from `start` |
| VirtualNetwork.Decimal | playground/reducers/virtualNetwork.ts:47-57 | a number's text is a non-empty string of decimal digits |
| VirtualNetwork.DecimalRoundTrip | playground/reducers/virtualNetwork.ts:47-57 | the value of a number's decimal text is the number |
| VirtualNetwork.DecodeIpText | playground/reducers/virtualNetwork.ts:47-57 | the text of a decoded address is the four byte texts joined by dots, "undefined" for a byte past the end |
| VirtualNetwork.IcmpTypeToStr | playground/reducers/virtualNetwork.ts:14-41 | a name exists exactly for types 0, 3, 8, 11 and 12; type 3 is "destination unreachable" with a detail exactly for codes 0 to 3; the other types have no detail |
| VirtualNetwork.IcmpNamesDistinct | playground/reducers/virtualNetwork.ts:14-41 | different types have different names, and the four unreachable codes have different details |
| VirtualNetwork.IpOffsetRange | playground/reducers/virtualNetwork.ts:59-88 | a range exists exactly for the twelve field names, and each is non-empty within the 20-byte header |
| VirtualNetwork.UdpOffsetRange | playground/reducers/virtualNetwork.ts:90-103 | a range exists exactly for the four field names, and each is non-empty within the 8-byte header |
| VirtualNetwork.DecodeIpPacket | playground/reducers/virtualNetwork.ts:123-150 | throws exactly when the version is not 4, when the IHL is above 5, or when 12 bytes are missing; a decoded header has version 4, the IHL of byte 0 (at most 5), every field read from its bytes in the first 12, the addresses' values, and as data the clamped slice from 20 to the total length |
| VirtualNetwork.DecodedIpData | playground/reducers/virtualNetwork.ts:148 | the IP data is the bytes from offset + 20 to offset + total length when those are in the buffer, and empty when the total length is at most 20 |
| VirtualNetwork.DecodeUdp | playground/reducers/virtualNetwork.ts:152-161 | throws exactly when 8 bytes are missing; the data is the clamped slice from 8 to the length field |
| VirtualNetwork.UdpHeaderFields | playground/reducers/virtualNetwork.ts:152-160 | the four words of an RFC 768 header laid out big-endian read back as the values laid out |
| VirtualNetwork.UdpRoundTrip | playground/reducers/virtualNetwork.ts:152-161 | decoding a header with the four values followed by a payload, the length field counting both, gives the four values and exactly the payload back |
| VirtualNetwork.DecodeIcmp | playground/reducers/virtualNetwork.ts:163-173 | throws a RangeError exactly when 4 bytes are missing; type and code are bytes 0 and 1, the checksum the big-endian word at 2 |
| VirtualNetwork.IcmpRoundTrip | playground/reducers/virtualNetwork.ts:163-173 | decoding type, code, a big-endian checksum and any rest gives the type, code and checksum back |
| VirtualNetwork.DecodePacket | playground/reducers/virtualNetwork.ts:184-228 | a RangeError for a frame under 14 bytes; `undefined` unless the EtherType at 12 is 0x0800; otherwise an exception of the IPv4, UDP or ICMP decoder escapes unchanged, and when none throws the packet is recorded: the IPv4 header at 14, with a UDP part and type "udp" exactly for protocol 17 and an ICMP part and type "icmp" exactly for protocol 1, and no type for any other protocol |
| VirtualNetwork.OtherFrameDecodes | playground/reducers/virtualNetwork.ts:186-227 | a frame with EtherType 0x0800, header byte 0x45 and 12 header bytes whose protocol is neither 17 nor 1 is always recorded, untyped, with that protocol |
| VirtualNetwork.UdpFrameDecodes | playground/reducers/virtualNetwork.ts:186-211 | a frame with EtherType 0x0800, header byte 0x45, protocol 17 and a total length from 28 up to the frame's end is always recorded as "udp", with ports and length read from the bytes after the IPv4 header |
| VirtualNetwork.IcmpFrameDecodes | playground/reducers/virtualNetwork.ts:186-221 | a frame with EtherType 0x0800, header byte 0x45, protocol 1 and a total length from 24 up to the frame's end is always recorded as "icmp", with type and code the two bytes after the IPv4 header |
| VirtualNetwork.VirtualNetworkReducer | playground/reducers/virtualNetwork.ts:230-243 | an absent state is `DEFAULT` (no frames); then a decodable frame appends exactly one packet at the end, an ignored frame and every other action keep the state, and a decoder exception escapes |
| VirtualNetwork.FrameRecorded | playground/reducers/virtualNetwork.ts:232-237 | a frame that decodes to a packet appends exactly that packet to `udpSent` |
| VirtualNetwork.FramesRecordedInOrder | playground/reducers/virtualNetwork.ts:230-243 | over any run of frames that each decode to a packet, `udpSent` ends as the earlier packets followed by those packets in sending order |
| Agreement.DecoderAgreesWithIpv4View | playground/reducers/virtualNetwork.ts:134-147 | on a full header the decoder reads the same version, header length, DSCP, ECN, lengths, flags, TTL, protocol, checksum and addresses as the Rust getters, and its fragment offset times 8 is `frag_offset` |
| Agreement.FlagBits | playground/reducers/virtualNetwork.ts:141 | the decoder's three flag bits hold DF and MF exactly as the Rust `dont_frag` and `more_frags` read them |
| Agreement.DecodeIpIsAddress | playground/reducers/virtualNetwork.ts:146-147 | the four values `decodeIp` prints are the octets of the address the Rust view reads there |
| Agreement.DecoderDataIsPayload | playground/reducers/virtualNetwork.ts:148 | with a 20-byte header the decoder's data is the Rust `payload()` |
| Agreement.DecoderAgreesWithUdpView | playground/reducers/virtualNetwork.ts:152-161 | the decoder reads the same ports, length and checksum as the Rust UDP view, and the same payload once `check_len` accepts |
| Agreement.FrameAgreesWithIpv4View | playground/reducers/virtualNetwork.ts:186-193 | in an accepted frame the IP fields are those of the Rust IPv4 view of the bytes after the Ethernet header |
| Actions.PlaygroundTypes | playground/actions.ts:61-62 | a playground action's type starts with "Playground", and no other named action's type does |
| Actions.RunAppend | playground/reducers/index.ts:41-59 | dispatching two batches one after the other is dispatching their concatenation |
| FinalTests.DefaultTestState | playground/lesson1/reducers.ts:19-23 | the default state has exactly SentDns, SentMessage and RecvdMessage, all Default |
| FinalTests.TestKey | playground/lesson1/actions.ts:12-16 | `FinalTest[test]` is one of the three names exactly for 1, 2 and 3 |
| FinalTests.TestKeysDistinct | playground/lesson1/actions.ts:12-16 | the three tests have distinct names |
| FinalTests.MarkCompleted | playground/lesson1/reducers.ts:27-28 | only the named test becomes Completed; all other entries are kept |
| FinalTests.FailUnfinished | playground/lesson1/reducers.ts:31-40 | the keys are kept, no test stays Default, and Completed and Failed tests keep their status |
| FinalTests.ResetAll | playground/lesson1/reducers.ts:43-48 | the keys are kept and every test is Default |
| FinalTests.FinalTestReducer | playground/lesson1/reducers.ts:25-53 | each action kind leads to its transition, and every other action leaves the state as it is |
| FinalTests.FailUnfinishedIdempotent | playground/lesson1/reducers.ts:31-40 | ending a run twice is ending it once |
| FinalTests.CompletedIsKept | playground/lesson1/reducers.ts:25-53 | a Completed test stays Completed under every action but compile and reset |
| FinalTests.KeysStayNamed | playground/lesson1/reducers.ts:25-53 | starting from the three tests, any sequence of actions that marks only tests 1 to 3 keeps exactly the three keys |
| FinalTests.UnnamedMarkAddsKey | playground/lesson1/reducers.ts:27-28 | marking a number other than 1, 2 or 3 adds an "undefined" entry |
| FinalTests.RoundOutcome | playground/lesson1/reducers.ts:25-53 | compile, complete test t, end the run: t is Completed and the other two tests Failed |
| FinalTests.WrapFullDemo | playground/lesson1/reducers.ts:7-17 | `ApplyDnsRequest` goes to the code rewrite and every other action goes to the wrapped reducer unchanged |
| FinalTests.WrapTransparent | playground/lesson1/reducers.ts:7-17 | over any run without a DNS request, the wrapped reducer ends where the primary reducer does |
| CodeEditor.CodeReducer | playground/reducers/code.ts:11-19 | `default` never changes; a non-empty edit becomes `current`, a missing or empty one restores `default`; other actions keep the state |
| CodeEditor.DefaultNeverChanges | playground/reducers/code.ts:14 | no sequence of actions changes `default` |
| CodeEditor.LastEditWins | playground/reducers/code.ts:11-19 | after any history, `current` is the text of the last edit, or `default` when that edit was empty |
| CodeEditor.NonEditsKeep | playground/reducers/code.ts:16-17 | a run of non-edit actions leaves the state exactly as it was |
| Playgrounds.PlaygroundSlices | playground/reducers/index.ts:11-20 | the slices are the extras plus code, output, position and selection, the four standard reducers overriding extras of the same name |
| Playgrounds.CombineReducers | playground/reducers/index.ts:11-20 | the combined state has exactly the reducers' slices, each the slice reducer applied to its old slice and the action |
| Playgrounds.SliceOf | playground/reducers/index.ts:11-20 | a slice is present exactly when the state and its key are |
| Playgrounds.DefaultPlaygroundReducers | playground/reducers/index.ts:23-28 | one reducer per listed id, and no other key |
| Playgrounds.InitialState | playground/reducers/index.ts:30-38 | the initial state has exactly the reducers' keys, each the reducer's state for an absent input |
| Playgrounds.Route | playground/reducers/index.ts:41-59 | an action whose type does not start with "Playground" keeps the map; a playground action for a known id replaces only that entry with its reducer's result on the old entry and the inner action; an id that is not a key of the reducer table, or a missing payload, throws |
| Playgrounds.PlaygroundHasStandardSlices | playground/reducers/index.ts:11-20 | whatever the extras, a playground state has the four standard slices and its code slice comes from the code reducer |
| Playgrounds.RouteKeepsPlaygrounds | playground/reducers/index.ts:41-59 | routing keeps the set of playgrounds equal to the set of reducers |
| Playgrounds.InitialStateRoutes | playground/reducers/index.ts:30-59 | from the initial state, an action for a known playground always goes through and updates that playground |
| Playgrounds.RoutesCommute | playground/reducers/index.ts:47-54 | actions for two different playgrounds give the same state in either order |

## Findings

| source | as written | input that shows it | evidently intended | confidence | as-written member | corrected member |
|---|---|---|---|---|---|---|
| playground/lesson1/rust.ts:970-986 | the first lesson's `send_to` passes `buf.len() as u16` with no size check | a 65536-byte payload to an IPv4 address: `Ok(0)` is returned and the host is told the length is 0 | reject a payload whose frame would exceed 65535 bytes, as the socket in components/rust/std_net.ts:62-65 does | not executed | Socket.LegacyLengthWraps | Socket.SendToLengthExact |

`Socket.Send` and the rest of the model use the guarded `Socket.SendTo`.

## Left out

- Host functions (`udp_bind`, `udp_unbind`, `udp_send_to`, `udp_recv_from`, `poll_network`): these are foreign calls. The model takes their results as parameters and returns what a send would pass to the host, and whether `poll_network` follows it. What the host does during that poll is not modelled.
- Address resolution (`to_socket_addrs`): a library call, taken as its result. An IPv6 address is kept only as `V6`, because its contents are never used.
- The bytes `recv`/`recv_from` copy into the caller's buffer, and the `buf.len() as u16` capacity passed with them: these are host memory effects. Only the sizes and sources are modelled.
- `Packet::new`, `into_inner`, `payload_mut` and `write_u32`: the first two are the identity on the buffer. `payload_mut` covers the same range as `payload`. `write_u32` is never called by the codec.
- The `cfg!(fuzzing)` branch of the IPv4 `verify_checksum`: only the normal build is modelled.
- `Checksum.Data`, `Checksum.OnesSum`: buffers are limited to 65535 bytes. Within that limit the `u32` accumulator provably cannot overflow. The overflow of longer buffers is not modelled.
- `Checksum.Combine`: limited to 65537 partial sums, for the same reason.
- `Udp.VerifyIsSumOverPseudoHeader`: stated for datagrams whose length field plus the 12 pseudo-header bytes fits 65535. The bound keeps the summed bytes within the 65535 that `Checksum.OnesSum` is stated for. It covers every datagram the system can carry: inside an IPv4 packet a UDP datagram is at most 65535 - 20 = 65515 bytes.
- `Udp.FillThenVerify`: stated for datagrams `check_len` accepts, with a length field from 8 up to the buffer length. For a length field below 8 the checksum field lies outside the `data[..len]` that is summed, and a longer one makes the slice panic.
- `Ipv4.FillThenVerify`: stated for headers whose header length covers the checksum field (at least 12). A shorter header length leaves the checksum outside the summed bytes.
- The text of `MOD_IP`, `MOD_UDP`, `MOD_UDP_SOCKET` and of the lesson templates: these are parameters of the `wrap*` functions. Only their newline counts matter.
- The `DOMAIN_NAME_REQUEST` regular-expression rewrite in `wrapFullDemoReducer`: it depends on regex library semantics, so it is a parameter `applyDns`.
- The `output`, `position` and `selection` reducers: they are not part of this model and are parameters of `Playgrounds.PlaygroundSlices`.
- Redux's `combineReducers` internals: its warnings and its reuse of the old object when nothing changed do not affect the state's value.
- The socket table, outbox, topology and name-server reply of the virtual network: they live in a WebAssembly module that is not part of this model.
- The `console.log`/`console.error` calls in `decodePacket`: output only.
- `VirtualNetwork.VirtualNetworkReducer`: it returns a `Result`, because a decoder exception thrown inside the reducer escapes `dispatch`. It is therefore not plugged into `Playgrounds.CombineReducers`, whose slice reducers cannot fail. It is stated on its own, and over runs of actions by `VirtualNetwork.FramesRecordedInOrder`.
- The decoder's JSON `type` being `undefined` versus absent: both are `None`.
- `Playgrounds.Route`: the reducer table and the state are maps of their own keys. In the code they are plain objects, so an id that names an inherited `Object.prototype` member (`toString`, `valueOf`, `constructor`, …) finds that inherited function instead of throwing. Such ids are outside the model. The pages dispatch only their own literal playground ids.
- An `OtherAction` whose type string is one of the named action types (`OtherAction("EditCode")`, say): the code would switch on that string and treat it as the named action, while every reducer here treats it as unknown. Such values are outside the model; `Actions.Action` builds the named actions only through their own constructors.
- A string action such as `"@@APP_INIT"`: it is modelled as an `OtherAction` with that type string. Playground actions built other than by `createPlaygroundAction` make the router throw; this is modelled as `NoPlaygroundId`.
- WebAssembly loading, React components, local/session storage and compile requests: I/O and UI, outside the core.
