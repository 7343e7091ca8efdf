/**
 * The value types shared by the whole pipeline: the logical origin of a
 * packet, the capture protocol option and a resolved socket address.
 */
module Args {

  /** Where a packet came from: the primary relay, or the optional reference stream. */
  datatype Source = Zdn | Reference

  /** The `--protocol` option used to build the capture filter. */
  datatype Protocol = Udp | Tcp

  /** An IP address as its raw octets (4 for IPv4, 16 for IPv6). */
  type IpAddr = seq<bv8>

  /** A resolved destination: address and port. */
  datatype SocketAddr = SocketAddr(ip: IpAddr, port: nat)
}
