/** Where a session is going, and what it starts with: src/common/address.hpp and src/tcp/session.hpp. */
module Address {
  import opened Bytes

  type Octets4 = b: bytes | |b| == 4 witness [0, 0, 0, 0]
  type Octets16 = b: bytes | |b| == 16 witness [0, 0, 0, 0, 0, 0, 0, 0, 0, 0, 0, 0, 0, 0, 0, 0]

  datatype Ip = V4(v4: Octets4) | V6(v6: Octets16)

  datatype Host = Domain(name: bytes) | Literal(ip: Ip)

  datatype Address = Address(host: Host, port: u16)

  /** `OutTcpSession`, which is `InTcpSession` without its connection. */
  datatype Session = Session(address: Address, firstData: bytes)
}
