/**
 * The guest side of `std::net::UdpSocket` for the WebAssembly sandbox: the
 * socket forwards to the host's `udp_*` imports. The host is not part of
 * this model: address resolution (`ToSocketAddrs`), the socket handle
 * `udp_bind` returns and the results of successive `udp_recv_from` calls
 * are parameters, and `udp_send_to` is the datagram the call hands over.
 */
module Socket {
  import opened Wrappers
  import opened Bytes

  /** `std::net::SocketAddrV4`. */
  datatype SocketAddrV4 = SocketAddrV4(ip: Ipv4Addr, port: u16)

  /** `std::net::SocketAddr`; the sandbox only speaks IPv4, so the IPv6 case carries nothing. */
  datatype SocketAddr = V4(sa: SocketAddrV4) | V6

  /** The `io::ErrorKind`s the shim produces. */
  datatype ErrorKind = InvalidInput | NotConnected | WouldBlock | Other

  /** `io::Error::new(kind, message)`. */
  datatype IoError = IoError(kind: ErrorKind, message: string)

  /**
   * `addr.to_socket_addrs()` followed by `.next()`: a resolution error, or the
   * first resolved address if there is one.
   */
  type Resolved = Result<Option<SocketAddr>, IoError>

  /** `UdpSocket`: the host's handle, the bound address and the `connect`ed peer. */
  datatype UdpSocket = UdpSocket(handle: nat, boundTo: SocketAddrV4, connectedTo: Option<SocketAddr>)

  /** The arguments of one `udp_send_to` host call. */
  datatype Outgoing = Outgoing(handle: nat, payload: seq<byte>, len: u16, dstIp: u32, dstPort: u16)

  /**
   * What `send_to` returns, the `udp_send_to` host call it makes if any, and
   * whether it then calls `poll_network` to let the host process the frame.
   */
  datatype SendOutcome = SendOutcome(result: Result<nat, IoError>, sent: Option<Outgoing>, polled: bool)

  /** Ethernet (14), IPv4 (20) and UDP (8) headers in front of the payload. */
  const FRAME_OVERHEAD: nat := 42

  const TooLarge := IoError(InvalidInput, "packet is too large")
  const Ipv6Unsupported := IoError(InvalidInput, "IPv6 is unsupported :)")
  const NoAddresses := IoError(InvalidInput, "no addresses to send data to")
  const BadAddress := IoError(InvalidInput, "invalid address format")
  const NoDestination := IoError(NotConnected, "Destination address required")
  const NotConnectedError := IoError(NotConnected, "Not connected")
  const Timeout := IoError(WouldBlock, "receive timeout")
  const NotImplemented := IoError(Other, "Not implemented")

  /**
   * `UdpSocket::bind`: a resolution error of kind `Other` (the sandbox cannot
   * resolve names) becomes "invalid address format"; IPv6 and an empty
   * resolution are rejected; otherwise the host's handle and the address.
   */
  function Bind(resolved: Resolved, handle: nat): (r: Result<UdpSocket, IoError>)
    ensures r.Success? <==> resolved.Success? && resolved.value.Some? && resolved.value.value.V4?
    ensures r.Success? ==> r.value == UdpSocket(handle, resolved.value.value.sa, None)
    ensures resolved.Failure? ==>
      r.error == (if resolved.error.kind == Other then BadAddress else resolved.error)
    ensures resolved == Success(Some(V6)) ==> r == Failure(Ipv6Unsupported)
    ensures resolved == Success(None) ==> r == Failure(NoAddresses)
  {
    match resolved
    case Failure(e) => Failure(if e.kind == Other then BadAddress else e)
    case Success(None) => Failure(NoAddresses)
    case Success(Some(V6)) => Failure(Ipv6Unsupported)
    case Success(Some(V4(sa))) => Success(UdpSocket(handle, sa, None))
  }

  /**
   * `UdpSocket::connect`: a resolution error leaves the socket as it was;
   * otherwise the first resolved address, possibly none, becomes the peer.
   */
  function Connect(sock: UdpSocket, resolved: Resolved): (r: (UdpSocket, Result<(), IoError>))
    ensures r.0.handle == sock.handle && r.0.boundTo == sock.boundTo
    ensures resolved.Failure? ==> r.0 == sock && r.1 == Failure(resolved.error)
    ensures resolved.Success? ==> r.0.connectedTo == resolved.value && r.1.Success?
  {
    match resolved
    case Failure(e) => (sock, Failure(e))
    case Success(first) => (sock.(connectedTo := first), Success(()))
  }

  /** `UdpSocket::local_addr`: always the bound address. */
  function LocalAddr(sock: UdpSocket): (r: Result<SocketAddr, IoError>)
    ensures r.Success? && r.value.V4? && r.value.sa == sock.boundTo
  {
    Success(V4(sock.boundTo))
  }

  /**
   * `UdpSocket::send_to`: a payload whose frame would exceed 65535 bytes is
   * rejected before the address is even resolved; then a resolution error,
   * IPv6 or no address is an error; otherwise one `udp_send_to` call
   * carries the payload, its length and the destination, followed by a
   * `poll_network` call, and the result is `Ok(0)`.
   */
  function SendTo(sock: UdpSocket, buf: seq<byte>, resolved: Resolved): (r: SendOutcome)
    ensures |buf| + FRAME_OVERHEAD > 0xFFFF ==> r == SendOutcome(Failure(TooLarge), None, false)
    ensures r.sent.Some? <==> |buf| + FRAME_OVERHEAD <= 0xFFFF && resolved.Success? && resolved.value.Some? && resolved.value.value.V4?
    ensures r.sent.Some? ==>
      var dst := resolved.value.value.sa;
      r.sent.value == Outgoing(sock.handle, buf, |buf|, dst.ip.ToU32(), dst.port) && r.result == Success(0)
    ensures |buf| + FRAME_OVERHEAD <= 0xFFFF && resolved.Failure? ==> r.result == Failure(resolved.error)
    ensures |buf| + FRAME_OVERHEAD <= 0xFFFF && resolved == Success(Some(V6)) ==> r.result == Failure(Ipv6Unsupported)
    ensures |buf| + FRAME_OVERHEAD <= 0xFFFF && resolved == Success(None) ==> r.result == Failure(NoAddresses)
    ensures r.polled <==> r.sent.Some?
  {
    if |buf| + FRAME_OVERHEAD > 0xFFFF then SendOutcome(Failure(TooLarge), None, false)
    else
      match resolved
      case Failure(e) => SendOutcome(Failure(e), None, false)
      case Success(None) => SendOutcome(Failure(NoAddresses), None, false)
      case Success(Some(V6)) => SendOutcome(Failure(Ipv6Unsupported), None, false)
      case Success(Some(V4(dst))) =>
        SendOutcome(Success(0), Some(Outgoing(sock.handle, buf, |buf|, dst.ip.ToU32(), dst.port)), true)
  }

  /**
   * Whatever `send_to` hands to the host describes the payload exactly: the
   * length is not truncated, and the whole Ethernet frame fits in 65535 bytes.
   */
  lemma SendToLengthExact(sock: UdpSocket, buf: seq<byte>, resolved: Resolved)
    ensures SendTo(sock, buf, resolved).sent.Some? ==>
      SendTo(sock, buf, resolved).sent.value.len == |buf| && |buf| + FRAME_OVERHEAD <= 0xFFFF
  {
  }

  /**
   * The older `send_to` of the first lesson: no size guard, and the length
   * passed to the host is `buf.len() as u16`, i.e. reduced modulo 65536.
   */
  function LegacySendTo(sock: UdpSocket, buf: seq<byte>, resolved: Resolved): (r: SendOutcome)
    ensures r.sent.Some? <==> resolved.Success? && resolved.value.Some? && resolved.value.value.V4?
    ensures r.sent.Some? ==>
      var dst := resolved.value.value.sa;
      r.sent.value == Outgoing(sock.handle, buf, |buf| % 0x1_0000, dst.ip.ToU32(), dst.port) && r.result == Success(0)
    ensures resolved.Failure? ==> r.result == Failure(resolved.error)
    ensures resolved == Success(Some(V6)) ==> r.result == Failure(Ipv6Unsupported)
    ensures resolved == Success(None) ==> r.result == Failure(NoAddresses)
    ensures r.sent.None? ==> r.result.Failure?
    ensures !r.polled
  {
    match resolved
    case Failure(e) => SendOutcome(Failure(e), None, false)
    case Success(None) => SendOutcome(Failure(NoAddresses), None, false)
    case Success(Some(V6)) => SendOutcome(Failure(Ipv6Unsupported), None, false)
    case Success(Some(V4(dst))) =>
      SendOutcome(Success(0), Some(Outgoing(sock.handle, buf, |buf| % 0x1_0000, dst.ip.ToU32(), dst.port)), false)
  }

  /**
   * Wherever the frame fits in 65535 bytes, the older `send_to` returns the
   * same result and makes the same `udp_send_to` call as the guarded one;
   * the only difference is that the guarded one then polls the network.
   */
  lemma LegacyAgreesWhenSmall(sock: UdpSocket, buf: seq<byte>, resolved: Resolved)
    requires |buf| + FRAME_OVERHEAD <= 0xFFFF
    ensures var legacy, guarded := LegacySendTo(sock, buf, resolved), SendTo(sock, buf, resolved);
      && legacy.result == guarded.result && legacy.sent == guarded.sent
      && legacy == guarded.(polled := false)
      && (guarded.polled <==> guarded.sent.Some?)
  {
  }

  /**
   * The older `send_to` accepts a 65536-byte payload and tells the host its
   * length is 0, while the newer one rejects it as too large.
   */
  lemma LegacyLengthWraps(sock: UdpSocket, dst: SocketAddrV4)
    ensures var buf := seq(0x1_0000, _ => 0 as byte);
      var legacy := LegacySendTo(sock, buf, Success(Some(V4(dst))));
      legacy.result == Success(0) && legacy.sent.Some? && legacy.sent.value.len == 0 != |buf|
      && SendTo(sock, buf, Success(Some(V4(dst)))) == SendOutcome(Failure(TooLarge), None, false)
  {
  }

  /**
   * `UdpSocket::send`: `send_to` the connected peer, or "Destination address
   * required" when there is none.
   */
  function Send(sock: UdpSocket, buf: seq<byte>): (r: SendOutcome)
    ensures sock.connectedTo.None? ==> r == SendOutcome(Failure(NoDestination), None, false)
    ensures sock.connectedTo.Some? ==> r == SendTo(sock, buf, Success(sock.connectedTo))
  {
    match sock.connectedTo
    case None => SendOutcome(Failure(NoDestination), None, false)
    case Some(addr) => SendTo(sock, buf, Success(Some(addr)))
  }

  /** `peek`: not implemented in the sandbox. */
  function Peek(sock: UdpSocket, buf: seq<byte>): (r: Result<nat, IoError>)
    ensures r.Failure? && r.error.kind == Other
  {
    Failure(NotImplemented)
  }

  /** `peek_from`: not implemented in the sandbox. */
  function PeekFrom(sock: UdpSocket, buf: seq<byte>): (r: Result<(nat, SocketAddr), IoError>)
    ensures r.Failure? && r.error.kind == Other
  {
    Failure(NotImplemented)
  }

  /** The results of one `udp_recv_from` call: the size and the source written back. */
  datatype Arrival = Arrival(size: u16, srcIp: u32, srcPort: u16)

  /**
   * The host's answer to the `k`-th receive call; calls beyond the given
   * answers find nothing.
   */
  function ArrivalAt(arrivals: seq<Arrival>, k: nat): (a: Arrival)
    ensures k >= |arrivals| ==> a.size == 0
    ensures k < |arrivals| ==> a == arrivals[k]
  {
    if k < |arrivals| then arrivals[k] else Arrival(0, 0, 0)
  }

  /** `SocketAddr::new(IpAddr::V4(Ipv4Addr::from(src_ip.to_be_bytes())), src_port)`. */
  function SourceOf(a: Arrival): (r: SocketAddr)
    ensures r.V4? && r.sa.ip.Octets() == U32ToBeBytes(a.srcIp) && r.sa.port == a.srcPort
  {
    V4(SocketAddrV4(AddrFromOctets(U32ToBeBytes(a.srcIp)), a.srcPort))
  }

  /** The loop gives up once the poll counter exceeds this bound, i.e. after 101 receive calls. */
  const MAX_POLLS: nat := 100

  /**
   * `UdpSocket::recv_from`: the first non-empty receive, with its size and
   * source; "receive timeout" if none of the 101 calls receives anything.
   * `polls` is the loop's counter when it returns.
   */
  method RecvFrom(arrivals: seq<Arrival>) returns (r: Result<(nat, SocketAddr), IoError>, polls: nat)
    ensures r.Success? ==> polls <= MAX_POLLS && ArrivalAt(arrivals, polls).size > 0
    ensures r.Success? ==> r.value == (ArrivalAt(arrivals, polls).size as nat, SourceOf(ArrivalAt(arrivals, polls)))
    ensures forall k | 0 <= k < polls :: ArrivalAt(arrivals, k).size == 0
    ensures r.Failure? ==> r == Failure(Timeout) && polls == MAX_POLLS + 1
    ensures r.Success? <==> exists k | 0 <= k <= MAX_POLLS :: ArrivalAt(arrivals, k).size > 0
  {
    polls := 0;
    while true
      invariant polls <= MAX_POLLS
      invariant forall k | 0 <= k < polls :: ArrivalAt(arrivals, k).size == 0
      decreases MAX_POLLS - polls
    {
      var a := ArrivalAt(arrivals, polls);
      if a.size > 0 {
        return Success((a.size as nat, SourceOf(a))), polls;
      }
      polls := polls + 1;
      if polls > MAX_POLLS {
        return Failure(Timeout), polls;
      }
    }
  }

  /** A receive `recv` accepts: something arrived, from the connected peer. */
  predicate FromPeer(a: Arrival, peer: SocketAddr)
  {
    a.size > 0 && SourceOf(a) == peer
  }

  /**
   * `UdpSocket::recv`: "Not connected" without a peer; otherwise the size of
   * the first datagram from the peer within 101 receive calls, datagrams from
   * anyone else being dropped, or "receive timeout".
   */
  method Recv(sock: UdpSocket, arrivals: seq<Arrival>) returns (r: Result<nat, IoError>, polls: nat)
    ensures sock.connectedTo.None? ==> r == Failure(NotConnectedError) && polls == 0
    ensures r.Success? ==> sock.connectedTo.Some? && polls <= MAX_POLLS
    ensures r.Success? ==>
      FromPeer(ArrivalAt(arrivals, polls), sock.connectedTo.value) && r.value == ArrivalAt(arrivals, polls).size as nat
    ensures sock.connectedTo.Some? ==>
      forall k | 0 <= k < polls :: !FromPeer(ArrivalAt(arrivals, k), sock.connectedTo.value)
    ensures sock.connectedTo.Some? && r.Failure? ==> r == Failure(Timeout) && polls == MAX_POLLS + 1
    ensures sock.connectedTo.Some? ==>
      (r.Success? <==> exists k | 0 <= k <= MAX_POLLS :: FromPeer(ArrivalAt(arrivals, k), sock.connectedTo.value))
  {
    if sock.connectedTo.None? {
      return Failure(NotConnectedError), 0;
    }
    var peer := sock.connectedTo.value;
    polls := 0;
    while true
      invariant polls <= MAX_POLLS
      invariant forall k | 0 <= k < polls :: !FromPeer(ArrivalAt(arrivals, k), peer)
      decreases MAX_POLLS - polls
    {
      var a := ArrivalAt(arrivals, polls);
      if FromPeer(a, peer) {
        return Success(a.size as nat), polls;
      }
      // nothing, or a datagram from someone else: skipped
      polls := polls + 1;
      if polls > MAX_POLLS {
        return Failure(Timeout), polls;
      }
    }
  }
}
