/**
 The VLESS outbound (src/outbounds/vless.cpp): the request it writes in front of the
 session's first data, and the two-octet reply it takes off the server's stream.
 */
module Vless {
  import opened Bytes
  import opened Address
  import opened Connections
  import opened Socks5

  const UUID_LENGTH: nat := 16
  const TYPE_V4: byte := 1
  const TYPE_DOMAIN: byte := 2
  const TYPE_V6: byte := 3

  /** `static_cast<u8>(value.size())`: the length octet wraps. */
  function HostBytes(h: Host): bytes {
    match h
    case Domain(name) => [TYPE_DOMAIN] + ([(|name| % 0x100) as byte] + name)
    case Literal(V4(o)) => [TYPE_V4] + o
    case Literal(V6(o)) => [TYPE_V6] + o
  }

  function Header(uuid: bytes, a: Address): bytes {
    [0] + (uuid + ([0, 1] + (U16(a.port) + HostBytes(a.host))))
  }

  function Request(uuid: bytes, session: Session): bytes {
    Header(uuid, session.address) + session.firstData
  }

  /** The reply check: two zero octets, taken exactly. */
  function TakeReply(w: Wire): (Result<()>, Wire) {
    var (data, w') := ReadExactlyFrom(w, 2);
    match data
    case Err(e) => (Err(e), w')
    case Ok(reply) => (if reply[0] != 0 || reply[1] != 0 then Err(BadHandshake) else Ok(()), w')
  }

  /** `connect` once the transport is up. */
  method Connect(conn: Connection, uuid: bytes, session: Session) returns (r: Result<()>)
    modifies conn`stream, conn`buffer, conn`sent
    ensures conn.sent == old(conn.sent) + Request(uuid, session)
    ensures (r, conn.Reading()) == TakeReply(old(conn.Reading()))
  {
    var requestData: bytes := [0];
    requestData := requestData + uuid;
    requestData := requestData + [0, 1];
    requestData := requestData + U16(session.address.port);
    match session.address.host {
      case Domain(value) =>
        requestData := requestData + [2];
        requestData := requestData + [(|value| % 0x100) as byte];
        requestData := requestData + value;
      case Literal(V4(octets)) =>
        requestData := requestData + [1];
        requestData := requestData + octets;
      case Literal(V6(octets)) =>
        requestData := requestData + [3];
        requestData := requestData + octets;
    }
    assert requestData == Header(uuid, session.address);
    requestData := requestData + session.firstData;
    conn.Write(requestData);
    var data := conn.ReadExactly(2);
    if data.Err? { return Err(data.why); }
    if data.value[0] != 0 || data.value[1] != 0 { return Err(BadHandshake); }
    return Ok(());
  }

  /** The reply is accepted exactly when the server's bytes start with two zeros, and they are taken off. */
  lemma {:induction false} ReplyByStream(w: Wire)
    requires ValidWire(w) && AllBinary(w.stream)
    ensures var (r, w') := TakeReply(w);
      && r == (if |Pending(w)| < 2 then Err(Eof)
               else if Pending(w)[..2] == [0, 0] then Ok(()) else Err(BadHandshake))
      && (r.Ok? ==> Pending(w') == Pending(w)[2..])
  {
    hide Pending, ValidWire, ReadExactlyFrom;
    ExactByStream(w, 2);
  }

  lemma ReplyShrinks(w: Wire)
    requires ValidWire(w)
    ensures var w' := TakeReply(w).1;
      && ValidWire(w') && w'.kind == w.kind && Left(w') <= Left(w)
      && (AllBinary(w.stream) ==> AllBinary(w'.stream))
  {
    hide Pending, ValidWire, ReadExactlyFrom;
    ExactShrinks(w, 2);
    ExactConserves(w, 2);
    if AllBinary(w.stream) { ExactByStream(w, 2); }
  }

  // ---- The server's side, as a specification ----

  datatype Decoded = Decoded(uuid: bytes, session: Session)

  function DecodeHost(b: bytes, p: nat): (r: Option<(Host, nat)>)
    ensures r.Some? ==> r.value.1 <= |b|
  {
    if |b| <= p then None
    else if b[p] == 1 then
      if |b| < p + 5 then None else Some((Literal(V4(b[p + 1..p + 5])), p + 5))
    else if b[p] == 2 then
      if |b| < p + 2 || |b| < p + 2 + b[p + 1] as nat then None
      else Some((Domain(b[p + 2..p + 2 + b[p + 1] as nat]), p + 2 + b[p + 1] as nat))
    else if b[p] == 3 then
      if |b| < p + 17 then None else Some((Literal(V6(b[p + 1..p + 17])), p + 17))
    else None
  }

  /** Version, user, no addons, the TCP command, port, address; the rest is payload. */
  function Decode(b: bytes): Option<Decoded> {
    if |b| < 21 || b[0] != 0 || b[17] != 0 || b[18] != 1 then None
    else match DecodeHost(b, 21)
      case None => None
      case Some((host, end)) =>
        Some(Decoded(b[1..17], Session(Address(host, ReadU16(b, 19)), b[end..])))
  }

  /** The length octet says how long the domain is. */
  predicate Encodable(h: Host) { h.Domain? ==> |h.name| <= 0xFF }

  lemma FixedFields(uuid: bytes, a: Address, tail: bytes)
    requires |uuid| == UUID_LENGTH
    ensures var b := Header(uuid, a) + tail;
      && |b| >= 21 && b[0] == 0 && b[1..17] == uuid && b[17] == 0 && b[18] == 1
      && ReadU16(b, 19) == a.port && At(b, 21, HostBytes(a.host) + tail)
  {
    hide At, HostBytes;
    var b, host := Header(uuid, a) + tail, HostBytes(a.host) + tail;
    assert b == [0] + (uuid + ([0, 1] + (U16(a.port) + host)));
    AtBehind([], b);
    assert [] + b == b;
    AtByte(b, 0, 0, uuid + ([0, 1] + (U16(a.port) + host)));
    AtConcat(b, 1, uuid, [0, 1] + (U16(a.port) + host));
    AtBound(b, 1, uuid);
    assert [0, 1] + (U16(a.port) + host) == [0] + ([1] + (U16(a.port) + host));
    AtByte(b, 17, 0, [1] + (U16(a.port) + host));
    AtByte(b, 18, 1, U16(a.port) + host);
    AtLength(b, 19, a.port, host);
  }

  lemma HostIsDecoded(b: bytes, p: nat, h: Host, tail: bytes)
    requires At(b, p, HostBytes(h) + tail) && |b| == p + |HostBytes(h) + tail|
    ensures Encodable(h) ==> DecodeHost(b, p) == Some((h, p + |HostBytes(h)|)) && b[p + |HostBytes(h)|..] == tail
    ensures !Encodable(h) ==> DecodeHost(b, p).Some? && DecodeHost(b, p).value.0 != h
  {
    hide At;
    AtConcat(b, p, HostBytes(h), tail);
    AtBound(b, p + |HostBytes(h)|, tail);
    match h {
      case Domain(name) =>
        AtByte(b, p, TYPE_DOMAIN, [(|name| % 0x100) as byte] + name);
        AtByte(b, p + 1, (|name| % 0x100) as byte, name);
        AtBound(b, p + 2, name);
      case Literal(V4(o)) =>
        AtByte(b, p, TYPE_V4, o);
        AtBound(b, p + 1, o);
      case Literal(V6(o)) =>
        AtByte(b, p, TYPE_V6, o);
        AtBound(b, p + 1, o);
    }
  }

  /**
   The server reads back exactly user, address, port and payload if and only if the
   domain fits its length octet; a longer name is cut and spills into the payload.
   */
  lemma RoundTripExactly(uuid: bytes, session: Session)
    requires |uuid| == UUID_LENGTH
    ensures Decode(Request(uuid, session)) == Some(Decoded(uuid, session))
       <==> Encodable(session.address.host)
  {
    hide At, HostBytes, DecodeHost;
    var b, a := Request(uuid, session), session.address;
    FixedFields(uuid, a, session.firstData);
    HostIsDecoded(b, 21, a.host, session.firstData);
    assert |Header(uuid, a)| == 21 + |HostBytes(a.host)|;
  }

  /** Whatever the SOCKS5 handshake accepts fits. */
  lemma Socks5HostsAreEncodable(s: bytes)
    requires ParseHandshake(s).result.Ok?
    ensures Encodable(ParseHandshake(s).result.value.0.host)
  {
    var _, _ := AcceptedIsSerialised(s);
  }
}
