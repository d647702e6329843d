/**
 The SOCKS5 front end (src/inbounds/mixed.cpp, sections 3 to 6 of RFC 1928): the
 handshake the program consumes from the client, whatever pieces it arrives in,
 against a serialiser for greetings and CONNECT requests.
 */
module Socks5 {
  import opened Bytes
  import opened Address
  import opened Connections

  const VERSION: byte := 5
  const NO_AUTHENTICATION: byte := 0
  const CONNECT: byte := 1
  const ATYP_V4: byte := 1
  const ATYP_DOMAIN: byte := 3
  const ATYP_V6: byte := 4
  const READ_SIZE: nat := 4096

  const ACCEPT_METHOD: bytes := [5, 0]
  const REFUSE_METHODS: bytes := [5, 0xFF]
  const CONNECTED: bytes := [5, 0, 0, 1, 0, 0, 0, 0, 0, 0]

  // ---- The wire format, from the octet behind the leading version ----

  /** SOCKS5 carries domain lengths in one octet. */
  predicate ValidHost(h: Host) { h.Domain? ==> |h.name| < 0x100 }

  function SerHost(h: Host): bytes
    requires ValidHost(h)
  {
    match h
    case Domain(name) => [3] + ([|name| as byte] + name)
    case Literal(V4(o)) => [1] + o
    case Literal(V6(o)) => [4] + o
  }

  function SerMethods(methods: bytes): bytes
    requires |methods| < 0x100
  {
    [|methods| as byte] + methods
  }

  function SerRequest(reserved: byte, a: Address): bytes
    requires ValidHost(a.host)
  {
    [5, 1, reserved] + (SerHost(a.host) + U16(a.port))
  }

  // ---- What the handshake is, as a function of the client's bytes ----

  /** The method list: where the request starts, or why there is none; and the reply. */
  function Negotiate(s: bytes): (r: (Result<nat>, bytes))
    ensures r.0.Ok? ==> r.0.value <= |s|
  {
    if |s| < 1 || |s| < 1 + s[0] as nat then (Err(Eof), [])
    else if NO_AUTHENTICATION in s[1..1 + s[0] as nat] then (Ok(1 + s[0] as nat), ACCEPT_METHOD)
    else (Err(NoMethod), REFUSE_METHODS)
  }

  /** The host behind the address type at offset 3, and the offset behind it. */
  function ParseHost(s: bytes): (r: Result<(Host, nat)>)
    requires 4 <= |s|
    ensures r.Ok? ==> 4 <= r.value.1 <= |s|
  {
    if s[3] == ATYP_V4 then
      if |s| < 8 then Err(Eof) else Ok((Literal(V4(s[4..8])), 8))
    else if s[3] == ATYP_DOMAIN then
      if |s| < 5 || |s| < 5 + s[4] as nat then Err(Eof)
      else Ok((Domain(s[5..5 + s[4] as nat]), 5 + s[4] as nat))
    else if s[3] == ATYP_V6 then
      if |s| < 20 then Err(Eof) else Ok((Literal(V6(s[4..20])), 20))
    else Err(BadHandshake)
  }

  function ParseRequest(s: bytes): (r: Result<(Address, nat)>)
    ensures r.Ok? ==> r.value.1 <= |s|
  {
    if |s| < 4 then Err(Eof)
    else if s[0] != VERSION || s[1] != CONNECT then Err(BadHandshake)
    else match ParseHost(s)
      case Err(e) => Err(e)
      case Ok((host, end)) =>
        if |s| < end + 2 then Err(Eof) else Ok((Address(host, ReadU16(s, end)), end + 2))
  }

  /** The address asked for, the octets consumed, and the replies sent on the way. */
  datatype Handshake = Handshake(result: Result<(Address, nat)>, replies: bytes)

  function ParseHandshake(s: bytes): (h: Handshake)
    ensures h.result.Ok? ==> h.result.value.1 <= |s|
  {
    var (methods, reply) := Negotiate(s);
    match methods
    case Err(e) => Handshake(Err(e), reply)
    case Ok(n) =>
      match ParseRequest(s[n..])
      case Err(e) => Handshake(Err(e), reply)
      case Ok((address, used)) => Handshake(Ok((address, n + used)), reply + CONNECTED)
  }

  // ---- The handler ----

  /** The client's connection, when `n` octets have been read from the wire `w`. */
  ghost predicate Consumed(conn: Connection, w: Wire, n: nat)
    reads conn
  {
    && w.kind.Socket? && ValidWire(w) && n <= |Pending(w)|
    && conn.Reading() == ReadExactlyFrom(w, n).1
  }

  lemma WhatIsLeft(conn: Connection, w: Wire, n: nat)
    requires Consumed(conn, w, n)
    ensures conn.kind.Socket? && ValidWire(conn.Reading()) && Pending(conn.Reading()) == Pending(w)[n..]
  {
    hide Pending, ValidWire, ReadExactlyFrom;
    ExactSegments(w, n);
  }

  /** One `read_exactly`, on the client's bytes. */
  method ReadNext(conn: Connection, n: nat, ghost w: Wire, ghost at: nat) returns (r: Result<bytes>)
    requires Consumed(conn, w, at)
    modifies conn`stream, conn`buffer
    ensures var s := Pending(w);
      if at + n <= |s| then r == Ok(s[at..at + n]) && Consumed(conn, w, at + n) else r == Err(Eof)
  {
    NextOfWire(w, at, n);
    hide Pending, ValidWire, ReadExactlyFrom;
    r := conn.ReadExactly(n);
  }

  lemma NextOfWire(w: Wire, at: nat, n: nat)
    requires w.kind.Socket? && ValidWire(w) && at <= |Pending(w)|
    ensures var s, next := Pending(w), ReadExactlyFrom(ReadExactlyFrom(w, at).1, n);
      if at + n <= |s| then next == (Ok(s[at..at + n]), ReadExactlyFrom(w, at + n).1) else next.0 == Err(Eof)
  {
    hide *;
    ExactSegments(w, at);
    var v, s := ReadExactlyFrom(w, at).1, Pending(w);
    ExactSegments(v, n);
    if at + n <= |s| {
      assert s[at..][..n] == s[at..at + n];
      ExactInTwo(w, at, n);
    }
  }

  /** Lines 49 to 59: only "no authentication" is acceptable without users. */
  method NegotiateMethod(conn: Connection, ghost w: Wire) returns (r: Result<()>)
    requires Consumed(conn, w, 0)
    modifies conn
    ensures var (methods, reply) := Negotiate(Pending(w));
      && conn.sent == old(conn.sent) + reply
      && (methods.Ok? <==> r.Ok?)
      && (if methods.Ok? then Consumed(conn, w, methods.value) else r == Err(methods.why))
      && (r == Err(NoMethod) ==> conn.closed)
  {
    hide Pending, ValidWire;
    var data := ReadNext(conn, 1, w, 0);
    if data.Err? { assert conn.sent + [] == conn.sent; return Err(data.why); }
    var nmethods := data.value[0] as nat;
    data := ReadNext(conn, nmethods, w, 1);
    if data.Err? { assert conn.sent + [] == conn.sent; return Err(data.why); }
    if NO_AUTHENTICATION in data.value {
      conn.Write([5, 0]);
      return Ok(());
    }
    conn.Write([5, 0xFF]);
    conn.Close();
    return Err(NoMethod);
  }

  /** Lines 88 to 105: the address, after the four fixed octets of the request. */
  method ReadHost(conn: Connection, atyp: byte, ghost w: Wire) returns (r: Result<Host>)
    requires Consumed(conn, w, 4) && atyp == Pending(w)[3]
    modifies conn`stream, conn`buffer
    ensures match ParseHost(Pending(w))
      case Ok((host, end)) => r == Ok(host) && Consumed(conn, w, end)
      case Err(e) => r == Err(e)
  {
    if atyp == ATYP_V4 {
      var data := ReadNext(conn, 4, w, 4);
      if data.Err? { return Err(data.why); }
      return Ok(Literal(V4(data.value)));
    } else if atyp == ATYP_DOMAIN {
      var data := ReadNext(conn, 1, w, 4);
      if data.Err? { return Err(data.why); }
      data := ReadNext(conn, data.value[0] as nat, w, 5);
      if data.Err? { return Err(data.why); }
      return Ok(Domain(data.value));
    } else if atyp == ATYP_V6 {
      var data := ReadNext(conn, 16, w, 4);
      if data.Err? { return Err(data.why); }
      return Ok(Literal(V6(data.value)));
    }
    return Err(BadHandshake);
  }

  /** Lines 80 to 107. */
  method ReadRequest(conn: Connection, ghost w: Wire) returns (r: Result<Address>)
    requires Consumed(conn, w, 0)
    modifies conn`stream, conn`buffer
    ensures match ParseRequest(Pending(w))
      case Ok((address, used)) => r == Ok(address) && Consumed(conn, w, used)
      case Err(e) => r == Err(e)
  {
    var data := ReadNext(conn, 4, w, 0);
    if data.Err? { return Err(data.why); }
    if data.value[0] != 5 { return Err(BadHandshake); }
    var cmd := data.value[1];
    if cmd != 1 { return Err(BadHandshake); }
    var host := ReadHost(conn, data.value[3], w);
    if host.Err? { return Err(host.why); }
    ghost var end := ParseHost(Pending(w)).value.1;
    data := ReadNext(conn, 2, w, end);
    if data.Err? { return Err(data.why); }
    assert ReadU16(data.value, 0) == ReadU16(Pending(w), end);
    return Ok(Address(host.value, ReadU16(data.value, 0)));
  }

  /**
   `handleSocks5_` without users, up to the put into the session queue, as a function of
   the client's wire behind the version octet `handle_` has read. The first data are one
   read behind the handshake.
   */
  function Serve(w: Wire): (Result<Session>, Wire)
    requires w.kind.Socket? && ValidWire(w)
  {
    match ParseHandshake(Pending(w)).result
    case Err(e) => (Err(e), w)
    case Ok((address, used)) =>
      var (data, w') := ReadFrom(ReadExactlyFrom(w, used).1, READ_SIZE);
      (if data.Ok? then Ok(Session(address, data.value)) else Err(data.why), w')
  }

  /** The client's connection is a TCP one. */
  method HandleSocks5(conn: Connection) returns (r: Result<Session>)
    requires conn.kind.Socket? && ValidWire(conn.Reading())
    modifies conn
    ensures conn.sent == old(conn.sent) + ParseHandshake(old(Pending(conn.Reading()))).replies
    ensures r == Serve(old(conn.Reading())).0
    ensures r.Ok? ==> conn.Reading() == Serve(old(conn.Reading())).1
  {
    hide Pending, ValidWire, ReadFrom, ReadExactlyFrom, ParseHandshake;
    var address := TakeHandshake(conn);
    if address.Err? { return Err(address.why); }
    var data := conn.Read(READ_SIZE);
    if data.Err? { return Err(data.why); }
    return Ok(Session(address.value, data.value));
  }

  /** Lines 49 to 108: both exchanges, with their replies. */
  method TakeHandshake(conn: Connection) returns (r: Result<Address>)
    requires conn.kind.Socket? && ValidWire(conn.Reading())
    modifies conn
    ensures var h := ParseHandshake(old(Pending(conn.Reading())));
      && conn.sent == old(conn.sent) + h.replies
      && match h.result
         case Ok((address, used)) => r == Ok(address) && Consumed(conn, old(conn.Reading()), used)
         case Err(e) => r == Err(e)
  {
    ghost var w := conn.Reading();
    NothingConsumed(w);
    hide Pending, ValidWire, ReadFrom, ReadExactlyFrom, Negotiate, ParseRequest, ParseHandshake;
    HandshakeParts(Pending(w));
    var methods := NegotiateMethod(conn, w);
    if methods.Err? { return Err(methods.why); }
    ghost var n, w1 := Negotiate(Pending(w)).0.value, conn.Reading();
    WhatIsLeft(conn, w, n);
    NothingConsumed(w1);
    var address := ReadRequest(conn, w1);
    if address.Err? { return Err(address.why); }
    ContinueConsumed(conn, w, n, ParseRequest(Pending(w1)).value.1);
    ghost var sent := conn.sent;
    conn.Write([5, 0, 0, 1, 0, 0, 0, 0, 0, 0]);
    assert conn.sent == sent + CONNECTED;
    return Ok(address.value);
  }

  /** What is read behind the first `n` octets is read of the whole. */
  lemma ContinueConsumed(conn: Connection, w: Wire, n: nat, used: nat)
    requires w.kind.Socket? && ValidWire(w) && n <= |Pending(w)|
    requires Consumed(conn, ReadExactlyFrom(w, n).1, used)
    ensures Consumed(conn, w, n + used)
  {
    hide Pending, ValidWire, ReadExactlyFrom;
    ExactSegments(w, n);
    ExactInTwo(w, n, used);
  }

  lemma HandshakeParts(s: bytes)
    ensures var (methods, reply) := Negotiate(s);
      ParseHandshake(s)
      == if methods.Err? then Handshake(Err(methods.why), reply)
         else match ParseRequest(s[methods.value..])
           case Err(e) => Handshake(Err(e), reply)
           case Ok((address, used)) => Handshake(Ok((address, methods.value + used)), reply + CONNECTED)
  {
  }

  lemma NothingConsumed(w: Wire)
    requires w.kind.Socket?
    ensures ReadExactlyFrom(w, 0).1 == w
  {
  }

  /**
   How the handler ends, given what the client's bytes say: it fails as they do, or
   queues that address with the client's further bytes, split between `firstData` and
   what is still pending; or the client sends nothing more.
   */
  ghost predicate Outcome(h: Handshake, s: bytes, r: Result<Session>, pending: bytes)
    requires h.result.Ok? ==> h.result.value.1 <= |s|
  {
    match h.result
    case Err(e) => r == Err(e)
    case Ok((address, used)) =>
      match r
      case Ok(session) => session.address == address && session.firstData + pending == s[used..]
      case Err(e) => e == Eof && s[used..] == []
  }

  /** The handler's result, as the client's bytes determine it. */
  lemma ServeByStream(w: Wire)
    requires w.kind.Socket? && ValidWire(w)
    ensures var (r, w') := Serve(w);
      && ValidWire(w') && w'.kind.Socket?
      && Outcome(ParseHandshake(Pending(w)), Pending(w), r, Pending(w'))
  {
    hide Pending, ValidWire, ReadFrom, ReadExactlyFrom, ParseHandshake;
    var h := ParseHandshake(Pending(w)).result;
    if h.Ok? {
      ExactSegments(w, h.value.1);
      var w1 := ReadExactlyFrom(w, h.value.1).1;
      ReadConserves(w1, READ_SIZE);
      if ReadFrom(w1, READ_SIZE).0.Err? { EmptyWhenReadFails(w1, READ_SIZE); }
    }
  }

  lemma ServeNeverGrows(w: Wire)
    requires w.kind.Socket? && ValidWire(w)
    ensures Left(Serve(w).1) <= Left(w)
  {
    hide Pending, ValidWire, ReadFrom, ReadExactlyFrom, ParseHandshake, Left;
    var h := ParseHandshake(Pending(w)).result;
    if h.Ok? {
      ExactSegments(w, h.value.1);
      ExactShrinks(w, h.value.1);
      ReadNeverGrows(ReadExactlyFrom(w, h.value.1).1, READ_SIZE);
    }
  }

  lemma EmptyWhenReadFails(w: Wire, n: nat)
    requires ValidWire(w) && w.kind.Socket? && ReadFrom(w, n).0.Err?
    ensures ReadFrom(w, n).0 == Err(Eof) && Pending(w) == []
  {
  }

  // ---- Round trips ----

  lemma HostRoundTrip(s: bytes, h: Host)
    requires ValidHost(h) && At(s, 3, SerHost(h))
    ensures ParseHost(s) == Ok((h, 3 + |SerHost(h)|))
  {
    hide At;
    match h {
      case Domain(name) =>
        AtByte(s, 3, ATYP_DOMAIN, [|name| as byte] + name);
        AtByte(s, 4, |name|, name);
        AtBound(s, 5, name);
      case Literal(V4(o)) =>
        AtByte(s, 3, ATYP_V4, o);
        AtBound(s, 4, o);
      case Literal(V6(o)) =>
        AtByte(s, 3, ATYP_V6, o);
        AtBound(s, 4, o);
    }
  }

  lemma RequestRoundTrip(reserved: byte, a: Address, rest: bytes)
    requires ValidHost(a.host)
    ensures ParseRequest(SerRequest(reserved, a) + rest) == Ok((a, |SerRequest(reserved, a)|))
  {
    hide At, ParseHost, SerHost;
    var front: bytes := [5, 1, reserved];
    var s, tail := SerRequest(reserved, a) + rest, U16(a.port) + rest;
    assert s == front + (SerHost(a.host) + tail);
    AtBehind(front, SerHost(a.host) + tail);
    AtConcat(s, 3, SerHost(a.host), tail);
    HostRoundTrip(s, a.host);
    AtLength(s, 3 + |SerHost(a.host)|, a.port, rest);
  }

  /**
   A greeting that offers "no authentication" and a CONNECT request are understood as
   such: exactly that address, the two fixed replies, and not an octet more consumed.
   */
  lemma HandshakeRoundTrip(methods: bytes, reserved: byte, a: Address, payload: bytes)
    requires |methods| < 0x100 && 0 in methods && ValidHost(a.host)
    ensures var front := SerMethods(methods) + SerRequest(reserved, a);
      ParseHandshake(front + payload) == Handshake(Ok((a, |front|)), [5, 0, 5, 0, 0, 1, 0, 0, 0, 0, 0, 0])
  {
    var n := |methods| + 1;
    var s := SerMethods(methods) + SerRequest(reserved, a) + payload;
    assert s[0] == |methods| && s[1..n] == methods;
    assert s[n..] == SerRequest(reserved, a) + payload;
    RequestRoundTrip(reserved, a, payload);
  }

  lemma HostIsSerialised(s: bytes)
    requires 4 <= |s| && ParseHost(s).Ok?
    ensures var (h, end) := ParseHost(s).value;
      ValidHost(h) && s[3..end] == SerHost(h)
  {
  }

  lemma RequestIsSerialised(t: bytes)
    requires ParseRequest(t).Ok?
    ensures var (a, used) := ParseRequest(t).value;
      3 <= |t| && ValidHost(a.host) && t[..used] == SerRequest(t[2], a)
  {
    HostIsSerialised(t);
    hide SerHost, ParseHost;
    var end := ParseHost(t).value.1;
    AtReadU16(t, end);
    AtBound(t, end, U16(ReadU16(t, end)));
    assert t[..3] == [5, 1, t[2]];
    assert t[..end + 2] == t[..3] + (t[3..end] + t[end..end + 2]);
  }

  /** Conversely, whatever is accepted is a serialised handshake. */
  lemma AcceptedIsSerialised(s: bytes) returns (methods: bytes, reserved: byte)
    requires ParseHandshake(s).result.Ok?
    ensures |methods| < 0x100 && 0 in methods
    ensures var (a, used) := ParseHandshake(s).result.value;
      ValidHost(a.host) && s[..used] == SerMethods(methods) + SerRequest(reserved, a)
  {
    hide ParseRequest, SerRequest;
    var n := 1 + s[0] as nat;
    methods := s[1..n];
    var t := s[n..];
    RequestIsSerialised(t);
    reserved := t[2];
    var used := ParseRequest(t).value.1;
    assert s[..n + used] == s[..n] + t[..used];
    assert s[..n] == SerMethods(methods);
  }

  // ---- What a client sees of a handshake that fails ----

  /** The replies, whether the handshake succeeds or not. */
  lemma {:induction false} RepliesExactly(s: bytes)
    ensures ParseHandshake(s).replies
         == if |s| < 1 || |s| < 1 + s[0] as nat then []
            else if 0 !in s[1..1 + s[0] as nat] then [5, 0xFF]
            else if ParseHandshake(s).result.Ok? then [5, 0, 5, 0, 0, 1, 0, 0, 0, 0, 0, 0]
            else [5, 0]
  {
  }

  /** Without method 0 on offer there is no acceptable one. */
  lemma {:induction false} NoMethodIsRefused(methods: bytes, rest: bytes)
    requires |methods| < 0x100 && 0 !in methods
    ensures ParseHandshake(SerMethods(methods) + rest) == Handshake(Err(NoMethod), [5, 0xFF])
  {
    var s := SerMethods(methods) + rest;
    assert s[1..1 + |methods|] == methods;
  }

  /** Another version, command or address type is an error, whatever follows. */
  lemma {:induction false} OtherRequestsAreRefused(methods: bytes, request: bytes)
    requires |methods| < 0x100 && 0 in methods && 4 <= |request|
    requires request[0] != 5 || request[1] != 1 || request[3] !in {1, 3, 4}
    ensures ParseHandshake(SerMethods(methods) + request) == Handshake(Err(BadHandshake), [5, 0])
  {
    var s, n := SerMethods(methods) + request, |methods| + 1;
    assert s[1..n] == methods && s[n..] == request;
  }

  /** A client that stops in the middle of a handshake is at the end of its stream. */
  lemma {:induction false} CutHandshakeIsEof(methods: bytes, reserved: byte, a: Address, k: nat)
    requires |methods| < 0x100 && 0 in methods && ValidHost(a.host)
    requires k < |SerMethods(methods) + SerRequest(reserved, a)|
    ensures ParseHandshake((SerMethods(methods) + SerRequest(reserved, a))[..k]).result == Err(Eof)
  {
    var all, n := SerMethods(methods) + SerRequest(reserved, a), |methods| + 1;
    var s := all[..k];
    if n <= k {
      assert s[0] == |methods| && s[1..n] == methods && s[n..] == SerRequest(reserved, a)[..k - n];
      CutRequestIsEof(reserved, a, k - n);
    }
  }

  lemma CutRequestIsEof(reserved: byte, a: Address, k: nat)
    requires ValidHost(a.host) && k < |SerRequest(reserved, a)|
    ensures ParseRequest(SerRequest(reserved, a)[..k]) == Err(Eof)
  {
    var s, t := SerRequest(reserved, a)[..k], SerRequest(reserved, a);
    assert t == [5, 1, reserved] + SerHost(a.host) + U16(a.port);
    if 5 <= k {
      assert s[3] == SerHost(a.host)[0] && s[4] == SerHost(a.host)[1];
    } else if k == 4 {
      assert s[3] == SerHost(a.host)[0];
    }
  }

  // ---- The first data ----

  /**
   The first data of a session are what one read brings behind the handshake: the rest of
   its segment, or if the client waited, the next segment, if that has at most 4096 octets.
   */
  lemma {:induction false} FirstDataIsOneRead(methods: bytes, reserved: byte, a: Address, payload: bytes,
                                              later: seq<Frame>)
    requires |methods| < 0x100 && 0 in methods && ValidHost(a.host) && |payload| <= 4096 && AllBinary(later)
    ensures var front := SerMethods(methods) + SerRequest(reserved, a);
      && (payload != [] ==>
            Serve(Wire(Socket, [Frame(true, front + payload)] + later, []))
            == (Ok(Session(a, payload)), Wire(Socket, later, [])))
      && Serve(Wire(Socket, [Frame(true, front), Frame(true, payload)] + later, []))
         == (Ok(Session(a, payload)), Wire(Socket, later, []))
  {
    hide Serve, SerMethods, SerRequest, ValidHost, Pending;
    var front := SerMethods(methods) + SerRequest(reserved, a);
    if payload != [] {
      OneSegmentIsServed(methods, reserved, a, payload, [Frame(true, front + payload)] + later, later);
    }
    TwoSegmentsAreServed(methods, reserved, a, payload, [Frame(true, front), Frame(true, payload)] + later, later);
  }

  lemma OneSegmentIsServed(methods: bytes, reserved: byte, a: Address, payload: bytes, stream: seq<Frame>,
                           later: seq<Frame>)
    requires |methods| < 0x100 && 0 in methods && ValidHost(a.host) && 0 < |payload| <= 4096 && AllBinary(later)
    requires stream == [Frame(true, SerMethods(methods) + SerRequest(reserved, a) + payload)] + later
    ensures Serve(Wire(Socket, stream, [])) == (Ok(Session(a, payload)), Wire(Socket, later, []))
  {
    hide SerMethods, SerRequest, ParseHandshake, ValidHost;
    var front := SerMethods(methods) + SerRequest(reserved, a);
    var rest := [Frame(true, payload)] + later;
    assert stream[1..] == later && rest[1..] == later;
    assert Payloads(Socket, stream) == front + payload + Payloads(Socket, later);
    Assoc(front, payload, Payloads(Socket, later));
    PendingIs(stream);
    HandshakeRoundTrip(methods, reserved, a, payload + Payloads(Socket, later));
    CutFirst(stream, front, payload, later);
  }

  lemma PendingIs(stream: seq<Frame>)
    ensures Pending(Wire(Socket, stream, [])) == Payloads(Socket, stream)
  {
  }

  lemma CutFirst(stream: seq<Frame>, front: bytes, payload: bytes, later: seq<Frame>)
    requires stream == [Frame(true, front + payload)] + later && payload != []
    ensures ReadExactlyFrom(Wire(Socket, stream, []), |front|).1
         == Wire(Socket, [Frame(true, payload)] + later, [])
  {
    assert (front + payload)[|front|..] == payload && stream[1..] == later;
  }

  lemma TakeFirst(stream: seq<Frame>, front: bytes, later: seq<Frame>)
    requires stream == [Frame(true, front)] + later && front != []
    ensures ReadExactlyFrom(Wire(Socket, stream, []), |front|).1 == Wire(Socket, later, [])
  {
    assert stream[1..] == later && [] + front == front;
    assert Gather(stream, [], |front|) == Gather(later, front, |front|);
  }

  lemma TwoSegmentsAreServed(methods: bytes, reserved: byte, a: Address, payload: bytes, stream: seq<Frame>,
                             later: seq<Frame>)
    requires |methods| < 0x100 && 0 in methods && ValidHost(a.host) && |payload| <= 4096 && AllBinary(later)
    requires stream
          == [Frame(true, SerMethods(methods) + SerRequest(reserved, a)), Frame(true, payload)] + later
    ensures Serve(Wire(Socket, stream, [])) == (Ok(Session(a, payload)), Wire(Socket, later, []))
  {
    hide SerRequest, ParseHandshake, ValidHost;
    var front := SerMethods(methods) + SerRequest(reserved, a);
    var rest := [Frame(true, payload)] + later;
    assert stream == [Frame(true, front)] + rest && stream[1..] == rest && rest[1..] == later;
    PendingIs(stream);
    HandshakeRoundTrip(methods, reserved, a, Payloads(Socket, rest));
    TakeFirst(stream, front, rest);
  }
}
