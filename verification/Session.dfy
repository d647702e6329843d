/**
 A whole session: the front end (`handle_` in src/inbounds/mixed.cpp), then sniffing,
 routing, connecting and relaying (`handleSession_` in src/common/app.cpp), over a
 client and a server connection. The theorems say which bytes end up where.
 */
module Sessions {
  import opened Bytes
  import opened Address
  import opened Connections
  import opened Socks5
  import opened Relay
  import opened Rules
  import Http
  import Sniff
  import Vless

  datatype Outbound = Direct | VlessTo(uuid: bytes)

  datatype Config = Config(
    routes: seq<RouteRule>, final: bytes, outbounds: map<bytes, Outbound>, regex: RegexMatch)

  // ---- Where a session goes ----

  /** A name sniffed from the first data replaces the host; the port stays. */
  function Destination(session: Session): Address {
    var sniffed := Sniff.Sniffed(session.firstData);
    if sniffed == [] then session.address else session.address.(host := Domain(sniffed))
  }

  function Tag(session: Session, cfg: Config): bytes {
    Route(cfg.routes, cfg.final, Destination(session), cfg.regex)
  }

  /** What the outbound writes in front of the session's own bytes. */
  function Front(o: Outbound, destination: Address): bytes {
    match o
    case Direct => []
    case VlessTo(uuid) => Vless.Header(uuid, destination)
  }

  /** The server's bytes the client is to see. */
  function Answer(o: Outbound, fromServer: bytes): bytes {
    match o
    case Direct => fromServer
    case VlessTo(_) => if 2 <= |fromServer| then fromServer[2..] else []
  }

  /** Which directions of a session are treated fairly. */
  datatype Fairness = Fairness(up: bool, down: bool)

  function FairnessOf(schedule: seq<Event>, client: Wire, server: Wire): Fairness {
    Fairness(FairTo(schedule, true, client), FairTo(schedule, false, server))
  }

  /** One side has `first`, and then a prefix of `more`; all of it when it is treated fairly. */
  predicate Gets(bytes: bytes, first: bytes, more: bytes, fair: bool) {
    first <= bytes <= first + more && (fair ==> bytes == first + more)
  }

  /**
   The server got the outbound's front, the first data and a prefix of what the client
   sent after it; the client got a prefix of the server's answer.
   */
  predicate Transferred(front: bytes, first: bytes, fromClient: bytes, answer: bytes, before: bytes, fair: Fairness,
                        toServer: bytes, toClient: bytes) {
    Gets(toServer, front + first, fromClient, fair.up) && Gets(toClient, before, answer, fair.down)
  }

  /** What an attempt that fails leaves at the server. */
  predicate Attempted(session: Session, cfg: Config, toServer: bytes) {
    if Tag(session, cfg) !in cfg.outbounds then toServer == []
    else toServer == Front(cfg.outbounds[Tag(session, cfg)], Destination(session)) + session.firstData
  }

  /** Whether an outbound connects: a direct one does, a VLESS server has to accept. */
  function Connected(o: Outbound, server: Wire): Result<()> {
    match o
    case Direct => Ok(())
    case VlessTo(_) => Vless.TakeReply(server).0
  }

  /** Whether a session is served, and if not, why: known tag and accepting server. */
  function Reached(session: Session, cfg: Config, server: Wire): Result<()> {
    if Tag(session, cfg) !in cfg.outbounds then Err(UnknownOutbound)
    else Connected(cfg.outbounds[Tag(session, cfg)], server)
  }

  /** What becomes of a session: it is relayed, or the client sees nothing of the attempt. */
  predicate Handled(session: Session, cfg: Config, client: Wire, server: Wire, before: bytes, fair: Fairness,
                    toServer: bytes, toClient: bytes) {
    if Reached(session, cfg, server).Ok? then
      var o := cfg.outbounds[Tag(session, cfg)];
      && (o.VlessTo? ==> [0, 0] <= Pending(server))
      && Transferred(Front(o, Destination(session)), session.firstData, Pending(client), Answer(o, Pending(server)),
                     before, fair, toServer, toClient)
    else toClient == before && Attempted(session, cfg, toServer)
  }

  // ---- handleSession_ ----

  /** The outbound's `connect`; the transport has connected `server`. */
  method ConnectOutbound(o: Outbound, server: Connection, session: Session) returns (r: Result<()>)
    requires ValidWire(server.Reading()) && server.sent == []
    modifies server`stream, server`buffer, server`sent
    ensures server.sent == Front(o, session.address) + session.firstData
    ensures ValidWire(server.Reading())
    ensures r == Connected(o, old(server.Reading()))
    ensures o.Direct? ==> server.sent == session.firstData
    ensures Left(server.Reading()) <= Left(old(server.Reading()))
    ensures AllBinary(old(server.stream)) ==> AllBinary(server.stream)
    ensures r.Ok? ==> Pending(server.Reading()) == Answer(o, old(Pending(server.Reading())))
    ensures r.Ok? && o.VlessTo? ==> [0, 0] <= old(Pending(server.Reading()))
  {
    hide Pending, ValidWire, ReadExactlyFrom, Left;
    match o {
      case Direct =>
        server.Write(session.firstData);
        r := Ok(());
      case VlessTo(uuid) =>
        ghost var w := server.Reading();
        ExactConserves(w, 2);
        Vless.ReplyShrinks(w);
        r := Vless.Connect(server, uuid, session);
        if r.Ok? {
          ghost var reply, w' := ReadExactlyFrom(w, 2).0.value, ReadExactlyFrom(w, 2).1;
          assert reply == [0, 0];
          assert (reply + Pending(w'))[2..] == Pending(w');
        }
    }
  }

  /** The relay, from wherever the two connections stand. */
  method RelayAll(client: Connection, server: Connection, schedule: seq<Event>)
    requires client != server && ValidWire(client.Reading()) && ValidWire(server.Reading())
    modifies client`stream, client`buffer, client`sent, server`stream, server`buffer, server`sent
    ensures var fair := FairnessOf(schedule, old(client.Reading()), old(server.Reading()));
      && Gets(server.sent, old(server.sent), old(Pending(client.Reading())), fair.up)
      && Gets(client.sent, old(client.sent), old(Pending(server.Reading())), fair.down)
  {
    hide Pending, ValidWire, Run, FairTo;
    ghost var up, down := Start(client.Reading(), server.sent), Start(server.Reading(), client.sent);
    RunConserves(RelayState(up, down, false), schedule);
    FairDirectionsArrive(up, down, schedule);
    assert Flow(up) == server.sent + Pending(client.Reading());
    assert Flow(down) == client.sent + Pending(server.Reading());
    var _, _ := RunRelay(client, server, schedule);
  }

  lemma StillFair(schedule: seq<Event>, up: bool, w: Wire, w': Wire)
    requires FairTo(schedule, up, w) && Left(w') <= Left(w) && (AllBinary(w.stream) ==> AllBinary(w'.stream))
    ensures FairTo(schedule, up, w')
  {
  }

  /** `outbounds[tag]` for an unknown tag is a null pointer in the program: an error here. */
  method HandleSession(client: Connection, server: Connection, session: Session, cfg: Config, schedule: seq<Event>)
    returns (r: Result<()>)
    requires client != server && server.sent == [] && ValidRoutes(cfg.routes)
    requires ValidWire(client.Reading()) && ValidWire(server.Reading())
    modifies client`stream, client`buffer, client`sent, server`stream, server`buffer, server`sent
    ensures Tag(session, cfg) !in cfg.outbounds ==> r == Err(UnknownOutbound) && server.sent == []
    ensures r == Reached(session, cfg, old(server.Reading()))
    ensures Handled(session, cfg, old(client.Reading()), old(server.Reading()), old(client.sent),
                    FairnessOf(schedule, old(client.Reading()), old(server.Reading())), server.sent, client.sent)
  {
    hide Pending, ValidWire, Route, ValidRoutes, Front, Answer, Connected, FairTo, Left;
    ghost var w := server.Reading();
    var sniffed := Sniff.SniffDomain(session.firstData);
    var address := session.address;
    if sniffed != [] {
      address := address.(host := Domain(sniffed));
    }
    var outboundTag := MatchRoute(cfg.routes, cfg.final, address, cfg.regex);
    if outboundTag !in cfg.outbounds { return Err(UnknownOutbound); }
    r := ConnectOutbound(cfg.outbounds[outboundTag], server, session.(address := address));
    if r.Err? { return; }
    if FairTo(schedule, false, w) { StillFair(schedule, false, w, server.Reading()); }
    RelayAll(client, server, schedule);
  }

  // ---- handle_ and the whole session ----

  /** How the front end ends: a session and what is left to read, or an error. */
  datatype Accepted = Accepted(result: Result<Session>, wire: Wire, reply: bytes)

  /** The front end as a function of the client's wire: the first octet chooses. */
  function Accept(w: Wire, lib: Http.Library): Accepted
    requires w.kind.Socket? && ValidWire(w)
  {
    ExactSegments(w, 1);
    var (first, w1) := ReadExactlyFrom(w, 1);
    if first.Err? then Accepted(Err(first.why), w1, [])
    else if first.value[0] == VERSION then
      var (r, w2) := Socks5.Serve(w1);
      Accepted(r, w2, ParseHandshake(Pending(w1)).replies)
    else
      var h := Http.Handle(w1, first.value[0], lib);
      Accepted(h.result, h.wire, h.reply)
  }

  /** `handle_`. */
  method Handle(client: Connection, lib: Http.Library) returns (r: Result<Session>)
    requires client.kind.Socket? && ValidWire(client.Reading())
    modifies client
    ensures var a := Accept(old(client.Reading()), lib);
      r == a.result && client.sent == old(client.sent) + a.reply && (r.Ok? ==> client.Reading() == a.wire)
  {
    hide Pending, ReadExactlyFrom, Http.Handle, ParseHandshake, Socks5.Serve, ValidWire;
    ExactSegments(client.Reading(), 1);
    var data := client.ReadExactly(1);
    if data.Err? {
      assert client.sent + [] == client.sent;
      return Err(data.why);
    }
    if data.value[0] == 5 {
      r := HandleSocks5(client);
      return;
    }
    ghost var dropped;
    r, dropped := Http.HandleHttp(client, data.value[0], lib);
  }

  /** A session leaves a plain socket behind, with no more to read than before. */
  lemma AcceptNeverGrows(w: Wire, lib: Http.Library)
    requires w.kind.Socket? && ValidWire(w)
    ensures var a := Accept(w, lib); ValidWire(a.wire) && a.wire.kind.Socket? && Left(a.wire) <= Left(w)
  {
    ExactSegments(w, 1);
    ExactShrinks(w, 1);
    var (first, w1) := ReadExactlyFrom(w, 1);
    hide *;
    if first.Ok? {
      AcceptIs(w, lib);
      Socks5.ServeByStream(w1);
      Socks5.ServeNeverGrows(w1);
      Http.HandleNeverGrows(w1, first.value[0], lib);
    }
  }

  lemma AcceptIs(w: Wire, lib: Http.Library)
    requires w.kind.Socket? && ValidWire(w) && ReadExactlyFrom(w, 1).0.Ok?
    ensures var (first, w1) := ReadExactlyFrom(w, 1);
      && ValidWire(w1) && w1.kind.Socket?
      && Accept(w, lib).wire == if first.value[0] == VERSION then Socks5.Serve(w1).1
                                else Http.Handle(w1, first.value[0], lib).wire
  {
    ExactSegments(w, 1);
  }

  /**
   One accepted client, from its first octet to the end of the relay: `handle_`, the
   session queue, and `handleSession_`. What both peers get is told by the wires, and by
   `Socks5Run` and `HttpRun` in terms of the client's bytes.
   */
  method ServeClient(client: Connection, server: Connection, cfg: Config, lib: Http.Library, schedule: seq<Event>)
    returns (r: Result<Session>)
    requires client != server && client.kind.Socket? && client.sent == [] && server.sent == []
    requires ValidWire(client.Reading()) && ValidWire(server.Reading()) && ValidRoutes(cfg.routes)
    modifies client, server
    ensures Served(old(client.Reading()), old(server.Reading()), cfg, lib, schedule, r, server.sent, client.sent)
    ensures var s, fair := old(Pending(client.Reading())),
                           FairnessOf(schedule, old(client.Reading()), old(server.Reading()));
      && (s == [] ==> r == Err(Eof) && client.sent == [] && server.sent == [])
      && (s != [] && s[0] == VERSION ==>
            Socks5Run(s[1..], old(server.Reading()), r, cfg, fair, server.sent, client.sent))
    ensures var s, w, fair := old(Pending(client.Reading())), ReadExactlyFrom(old(client.Reading()), 1).1,
                              FairnessOf(schedule, old(client.Reading()), old(server.Reading()));
      s != [] && s[0] != VERSION ==>
        && ValidWire(w) && w.kind.Socket? && s == [s[0]] + Pending(w)
        && HttpRun(s, w, old(server.Reading()), r, cfg, lib, fair, server.sent, client.sent)
  {
    hide Pending, ValidWire, ReadExactlyFrom, Left, ValidRoutes;
    hide Accept, Handled, Reached, FairnessOf, Socks5Run, HttpRun;
    ghost var w, ws := client.Reading(), server.Reading();
    AcceptNeverGrows(w, lib);
    AcceptByStream(w, lib);
    r := Handle(client, lib);
    NothingInFront(Accept(w, lib).reply);
    if r.Ok? {
      var done := HandleSession(client, server, r.value, cfg, schedule);
      if done.Err? { r := Err(done.why); }
    }
    if Pending(w) != [] {
      if Pending(w)[0] == VERSION {
        Socks5RunIsServed(w, ws, cfg, lib, schedule, r, server.sent, client.sent);
      } else {
        HttpRunIsServed(w, ws, cfg, lib, schedule, r, server.sent, client.sent);
      }
    }
  }

  /** The whole run, as the two wires and the schedule determine it. */
  ghost predicate Served(client: Wire, server: Wire, cfg: Config, lib: Http.Library, schedule: seq<Event>,
                         r: Result<Session>, toServer: bytes, toClient: bytes)
    requires client.kind.Socket? && ValidWire(client)
  {
    var a := Accept(client, lib);
    match a.result
    case Err(_) => r == a.result && toClient == a.reply && toServer == []
    case Ok(session) =>
      && r == (match Reached(session, cfg, server) case Ok(_) => a.result case Err(e) => Err(e))
      && Handled(session, cfg, a.wire, server, a.reply, FairnessOf(schedule, a.wire, server), toServer, toClient)
  }

  // ---- What both peers get, for SOCKS5 ----

  /**
   The bytes of a proxied SOCKS5 session. The server has the outbound's front and then
   a prefix of what the client sent behind its handshake; the client has the two fixed
   replies and then a prefix of the server's answer, for VLESS without the two reply
   octets, whatever messages or segments they came in.
   */
  predicate Proxied(s: bytes, fromServer: bytes, session: Session, cfg: Config,
                    fair: Fairness, toServer: bytes, toClient: bytes) {
    var h := ParseHandshake(s).result;
    && h.Ok? && session.address == h.value.0
    && Tag(session, cfg) in cfg.outbounds
    && var o := cfg.outbounds[Tag(session, cfg)];
       var payload, front := s[h.value.1..], Front(o, Destination(session));
    && session.firstData <= payload
    && front + session.firstData <= toServer <= front + payload && (fair.up ==> toServer == front + payload)
    && Gets(toClient, ACCEPT_METHOD + CONNECTED, Answer(o, fromServer), fair.down)
  }

  /** The requested address is not reached, with some first part of the payload. */
  ghost predicate Unreached(s: bytes, server: Wire, why: Failure, cfg: Config, toServer: bytes) {
    var h := ParseHandshake(s).result;
    && h.Ok?
    && exists first: bytes ::
         first <= s[h.value.1..] && UnreachedBy(Session(h.value.0, first), server, why, cfg, toServer)
  }

  predicate UnreachedBy(session: Session, server: Wire, why: Failure, cfg: Config, toServer: bytes) {
    Reached(session, cfg, server) == Err(why) && Attempted(session, cfg, toServer)
  }

  /**
   A run is served when its session is reached. It fails on a bad handshake, on a client
   that stops behind its handshake, or on a session that is not reached; the client is
   then left with the handshake's replies and nothing else.
   */
  ghost predicate Socks5Run(s: bytes, server: Wire, r: Result<Session>, cfg: Config,
                            fair: Fairness, toServer: bytes, toClient: bytes) {
    match r
    case Ok(session) =>
      Reached(session, cfg, server).Ok? && Proxied(s, Pending(server), session, cfg, fair, toServer, toClient)
    case Err(why) =>
      var h := ParseHandshake(s);
      && toClient == h.replies
      && match h.result
         case Err(bad) => why == bad && toServer == []
         case Ok((_, used)) =>
           (why == Eof && s[used..] == [] && toServer == []) || Unreached(s, server, why, cfg, toServer)
  }

  lemma SplitPayload(h: Handshake, s: bytes, session: Session, later: bytes, front: bytes)
    requires h.result.Ok? ==> h.result.value.1 <= |s|
    requires Socks5.Outcome(h, s, Ok(session), later)
    ensures h.result.Ok? && session.address == h.result.value.0
    ensures session.firstData <= s[h.result.value.1..]
    ensures front + session.firstData + later == front + s[h.result.value.1..]
  {
  }

  /** An accepted handshake was answered with exactly the two fixed replies. */
  lemma AcceptedReplies(s: bytes)
    requires ParseHandshake(s).result.Ok?
    ensures ParseHandshake(s).replies == ACCEPT_METHOD + CONNECTED
  {
  }

  /** What is fair to what was left earlier is fair to what is left now. */
  predicate Implies(fair: Fairness, now: Fairness) { (fair.up ==> now.up) && (fair.down ==> now.down) }

  lemma Socks5IsServed(s: bytes, wire: Wire, server: Wire, session: Session, r: Result<Session>, cfg: Config,
                       fair: Fairness, now: Fairness, toServer: bytes, toClient: bytes)
    requires Socks5.Outcome(ParseHandshake(s), s, Ok(session), Pending(wire))
    requires if r.Ok? then Reached(session, cfg, server).Ok? && r.value == session
             else Reached(session, cfg, server) == Err(r.why)
    requires Handled(session, cfg, wire, server, ParseHandshake(s).replies, now, toServer, toClient)
    requires Implies(fair, now)
    ensures Socks5Run(s, server, r, cfg, fair, toServer, toClient)
  {
    hide ParseHandshake, Front, Answer, Route, Destination, Attempted, Connected, Pending;
    SplitPayload(ParseHandshake(s), s, session, Pending(wire), []);
    AcceptedReplies(s);
    if r.Ok? {
      var o := cfg.outbounds[Tag(session, cfg)];
      SplitPayload(ParseHandshake(s), s, session, Pending(wire), Front(o, Destination(session)));
    } else {
      assert UnreachedBy(Session(session.address, session.firstData), server, r.why, cfg, toServer);
    }
  }

  // ---- What both peers get, for HTTP ----

  /**
   The bytes of a proxied plain HTTP request: the server has the outbound's front, the
   rewritten request line, and then a prefix of what followed the line at the client.
   */
  predicate Forwarded(s: bytes, fromServer: bytes, session: Session, cfg: Config, lib: Http.Library,
                      fair: Fairness, toServer: bytes, toClient: bytes)
    requires Http.LineOf(s).Some?
  {
    var line, pos := Http.LineOf(s).value, Find(s, Http.CRLF, 0).value;
    && lib.parseUri(line.target).Some? && pos + 2 <= |s| && Tag(session, cfg) in cfg.outbounds
    && var o := cfg.outbounds[Tag(session, cfg)];
       var front := Front(o, Destination(session));
       var sent := Http.Rewritten(line, lib.parseUri(line.target).value) + s[pos + 2..];
    && front + session.firstData <= toServer <= front + sent && (fair.up ==> toServer == front + sent)
    && Gets(toClient, [], Answer(o, fromServer), fair.down)
  }

  /**
   The bytes of a tunnel: the server has the outbound's front and then a prefix of what
   the client sent from its byte `k` on, the client the status line and then a prefix
   of the answer.
   */
  predicate TunnelledFrom(s: bytes, k: nat, fromServer: bytes, session: Session, cfg: Config,
                          fair: Fairness, toServer: bytes, toClient: bytes) {
    && k <= |s| && Tag(session, cfg) in cfg.outbounds
    && var o := cfg.outbounds[Tag(session, cfg)];
       var front := Front(o, Destination(session));
    && front + session.firstData <= toServer <= front + s[k..] && (fair.up ==> toServer == front + s[k..])
    && Gets(toClient, Http.ESTABLISHED, Answer(o, fromServer), fair.down)
  }

  /** The tunnel starts where the request ends if and only if `complete`; else later. */
  predicate Tunnelled(s: bytes, complete: bool, fromServer: bytes, session: Session, cfg: Config,
                      fair: Fairness, toServer: bytes, toClient: bytes) {
    var end := Http.RequestEnd(s);
    && end.Some?
    && exists k: nat | end.value <= k <= |s| ::
         (k == end.value <==> complete) && TunnelledFrom(s, k, fromServer, session, cfg, fair, toServer, toClient)
  }

  /** The request has a header line, and a read of the client ends where the request does. */
  predicate TunnelIsComplete(s: bytes, w: Wire)
    requires ValidWire(w) && w.kind.Socket?
  {
    Http.HasHeaderLine(s) && Http.RequestEnd(s).Some? && Http.ReadEndsAt(w, Http.RequestEnd(s).value - 1)
  }

  /** The address a request asks for: `Http.AddressIsRequested` says which that is. */
  predicate Requested(line: Http.RequestLine, lib: Http.Library, a: Address) {
    && lib.parseUri(line.target).Some?
    && var url := lib.parseUri(line.target).value;
    && a.port == (if url.port != 0 then url.port else if line.verb == Text("CONNECT") then 443 else 80)
    && a.host == (match lib.makeAddress(url.host) case Some(ip) => Literal(ip) case None => Domain(url.host))
  }

  /** `w` is the client's wire behind its first octet. */
  predicate HttpRun(s: bytes, w: Wire, server: Wire, r: Result<Session>, cfg: Config, lib: Http.Library,
                    fair: Fairness, toServer: bytes, toClient: bytes)
    requires s != [] && ValidWire(w) && w.kind.Socket?
  {
    var h := Http.Handle(w, s[0], lib);
    && (h.result.Ok? ==> Http.LineOf(s).Some? && Requested(Http.LineOf(s).value, lib, h.result.value.address))
    && match r
       case Ok(session) =>
         && h.result == r && Reached(session, cfg, server).Ok?
         && if Http.LineOf(s).value.verb == Http.METHOD_CONNECT
            then Tunnelled(s, TunnelIsComplete(s, w), Pending(server), session, cfg, fair, toServer, toClient)
            else Forwarded(s, Pending(server), session, cfg, lib, fair, toServer, toClient)
       case Err(why) =>
         && toClient == h.reply
         && if h.result.Ok? then UnreachedBy(h.result.value, server, why, cfg, toServer)
            else r == h.result && toServer == []
  }

  /** The handler's session was reached, and this is what came of it. */
  predicate HttpHandled(s: bytes, w: Wire, server: Wire, cfg: Config, lib: Http.Library, now: Fairness,
                        toServer: bytes, toClient: bytes)
    requires s != [] && ValidWire(w) && w.kind.Socket?
  {
    var h := Http.Handle(w, s[0], lib);
    && s == [s[0]] + Pending(w) && h.result.Ok? && Http.LineOf(s).Some?
    && Handled(h.result.value, cfg, h.wire, server, h.reply, now, toServer, toClient)
  }

  lemma ForwardIsServed(s: bytes, w: Wire, server: Wire, cfg: Config, lib: Http.Library, fair: Fairness, now: Fairness,
                        toServer: bytes, toClient: bytes)
    requires s != [] && ValidWire(w) && w.kind.Socket?
    requires HttpHandled(s, w, server, cfg, lib, now, toServer, toClient) && Implies(fair, now)
    requires Reached(Http.Handle(w, s[0], lib).result.value, cfg, server).Ok?
    requires Http.LineOf(s).value.verb != Http.METHOD_CONNECT
    ensures Forwarded(s, Pending(server), Http.Handle(w, s[0], lib).result.value, cfg, lib, fair, toServer, toClient)
  {
    hide Pending, ValidWire, Http.Handle, Http.LineOf, Http.Rewritten, Find, At, Front, Answer, Route, Destination;
    hide Connected;
    Http.RewrittenConserves(w, s[0], lib);
    var h := Http.Handle(w, s[0], lib);
    var session := h.result.value;
    Assoc(Front(cfg.outbounds[Tag(session, cfg)], Destination(session)), session.firstData, Pending(h.wire));
  }

  lemma TunnelIsServed(s: bytes, w: Wire, server: Wire, cfg: Config, lib: Http.Library, fair: Fairness, now: Fairness,
                       toServer: bytes, toClient: bytes)
    requires s != [] && ValidWire(w) && w.kind.Socket?
    requires HttpHandled(s, w, server, cfg, lib, now, toServer, toClient) && Implies(fair, now)
    requires Reached(Http.Handle(w, s[0], lib).result.value, cfg, server).Ok?
    requires Http.LineOf(s).value.verb == Http.METHOD_CONNECT
    ensures Tunnelled(s, TunnelIsComplete(s, w), Pending(server), Http.Handle(w, s[0], lib).result.value, cfg, fair,
                      toServer, toClient)
  {
    hide Pending, ValidWire, Http.Handle, Http.LineOf, Find, At, Front, Answer, Route, Destination;
    hide Http.RequestEnd, Http.HasHeaderLine, Http.ReadEndsAt, Connected;
    var k := Http.TunnelKeepsSuffix(w, s[0], lib);
    var h := Http.Handle(w, s[0], lib);
    var session := h.result.value;
    Assoc(Front(cfg.outbounds[Tag(session, cfg)], Destination(session)), session.firstData, Pending(h.wire));
    assert TunnelledFrom(s, k, Pending(server), session, cfg, fair, toServer, toClient);
  }

  lemma HttpIsServed(s: bytes, w: Wire, server: Wire, r: Result<Session>, cfg: Config, lib: Http.Library,
                     fair: Fairness, now: Fairness, toServer: bytes, toClient: bytes)
    requires s != [] && ValidWire(w) && w.kind.Socket? && s == [s[0]] + Pending(w)
    requires var h := Http.Handle(w, s[0], lib);
      && h.result.Ok? && Implies(fair, now)
      && (if r.Ok? then Reached(h.result.value, cfg, server).Ok? && r == h.result
          else Reached(h.result.value, cfg, server) == Err(r.why))
      && Handled(h.result.value, cfg, h.wire, server, h.reply, now, toServer, toClient)
    ensures HttpRun(s, w, server, r, cfg, lib, fair, toServer, toClient)
  {
    hide Pending, ValidWire, Http.Handle, Http.LineOf, Find, At, Front, Answer, Route, Destination, Text;
    hide Tunnelled, Forwarded, TunnelIsComplete, Connected, Transferred;
    Http.AddressIsRequested(w, s[0], lib);
    if r.Ok? {
      if Http.LineOf(s).value.verb == Http.METHOD_CONNECT {
        TunnelIsServed(s, w, server, cfg, lib, fair, now, toServer, toClient);
      } else {
        ForwardIsServed(s, w, server, cfg, lib, fair, now, toServer, toClient);
      }
    }
  }

  // ---- From the wires to the bytes ----

  lemma NothingInFront(s: bytes)
    ensures [] + s == s
  {
  }

  /** The front end, seen from the first octet of the client's bytes. */
  lemma AcceptByStream(w: Wire, lib: Http.Library)
    requires w.kind.Socket? && ValidWire(w)
    ensures var s, a, w1 := Pending(w), Accept(w, lib), ReadExactlyFrom(w, 1).1;
      && ValidWire(w1) && w1.kind.Socket?
      && if s == [] then a.result == Err(Eof) && a.reply == []
         else
           && s == [s[0]] + Pending(w1)
           && if s[0] == VERSION
              then a.reply == ParseHandshake(s[1..]).replies
                   && Socks5.Outcome(ParseHandshake(s[1..]), s[1..], a.result, Pending(a.wire))
              else var h := Http.Handle(w1, s[0], lib);
                   a == Accepted(h.result, h.wire, h.reply)
  {
    hide Pending, ValidWire, ReadExactlyFrom, Http.Handle, ParseHandshake, Socks5.Serve, Socks5.Outcome;
    ExactSegments(w, 1);
    var w1 := ReadExactlyFrom(w, 1).1;
    if Pending(w) != [] { Socks5.ServeByStream(w1); }
  }

  /** The two readings of a run are about the same schedule. */
  lemma FairnessCarriesOver(schedule: seq<Event>, client: Wire, later: Wire, server: Wire)
    requires client.kind.Socket? && ValidWire(client) && later.kind.Socket? && ValidWire(later)
    requires Left(later) <= Left(client)
    ensures Implies(FairnessOf(schedule, client, server), FairnessOf(schedule, later, server))
  {
    hide Left, NoFailure, Rounds, Only;
  }

  lemma Socks5RunIsServed(client: Wire, server: Wire, cfg: Config, lib: Http.Library, schedule: seq<Event>,
                          r: Result<Session>, toServer: bytes, toClient: bytes)
    requires client.kind.Socket? && ValidWire(client) && Pending(client) != [] && Pending(client)[0] == VERSION
    requires Served(client, server, cfg, lib, schedule, r, toServer, toClient)
    ensures Socks5Run(Pending(client)[1..], server, r, cfg, FairnessOf(schedule, client, server), toServer, toClient)
  {
    hide Pending, ValidWire, ReadExactlyFrom, Left, ParseHandshake;
    hide Accept, Handled, Reached, FairTo, Unreached, Proxied;
    AcceptByStream(client, lib);
    AcceptNeverGrows(client, lib);
    var s, a := Pending(client)[1..], Accept(client, lib);
    if a.result.Ok? {
      FairnessCarriesOver(schedule, client, a.wire, server);
      Socks5IsServed(s, a.wire, server, a.result.value, r, cfg, FairnessOf(schedule, client, server),
                     FairnessOf(schedule, a.wire, server), toServer, toClient);
    }
  }

  lemma HttpRunIsServed(client: Wire, server: Wire, cfg: Config, lib: Http.Library, schedule: seq<Event>,
                        r: Result<Session>, toServer: bytes, toClient: bytes)
    requires client.kind.Socket? && ValidWire(client) && Pending(client) != [] && Pending(client)[0] != VERSION
    requires Served(client, server, cfg, lib, schedule, r, toServer, toClient)
    ensures var s, w := Pending(client), ReadExactlyFrom(client, 1).1;
      && ValidWire(w) && w.kind.Socket? && s == [s[0]] + Pending(w)
      && HttpRun(s, w, server, r, cfg, lib, FairnessOf(schedule, client, server), toServer, toClient)
  {
    hide Pending, ValidWire, ReadExactlyFrom, Accept, Http.Handle, Handled, Reached, FairTo, Left;
    hide Requested, Tunnelled, Forwarded, UnreachedBy, TunnelIsComplete;
    AcceptByStream(client, lib);
    AcceptNeverGrows(client, lib);
    var s, w, a := Pending(client), ReadExactlyFrom(client, 1).1, Accept(client, lib);
    if a.result.Ok? {
      FairnessCarriesOver(schedule, client, a.wire, server);
      HttpIsServed(s, w, server, r, cfg, lib, FairnessOf(schedule, client, server),
                   FairnessOf(schedule, a.wire, server), toServer, toClient);
    }
  }

  // ---- What the destination depends on ----

  /**
   The destination of a TLS session depends on the first read: only when it brings the
   whole first record does the server name replace the address the client asked for.
   */
  lemma {:induction false} DestinationNeedsTheWholeRecord(a: Address, h: Sniff.ClientHello, rest: bytes, k: nat)
    requires Sniff.Valid(h) && k <= |Sniff.Record(h) + rest|
    ensures var name := Sniff.SniName(h.extensions);
      Destination(Session(a, (Sniff.Record(h) + rest)[..k]))
      == if k < |Sniff.Record(h)| || name == [] then a else a.(host := Domain(name))
  {
    Sniff.AnswerChangesOnce(h, rest, k);
  }

  /** Group `i` is the first to match the address, or none does. */
  predicate FirstGroup(cfg: Config, a: Address, i: nat) {
    && i <= |cfg.routes|
    && (forall k :: 0 <= k < i ==> !GroupMatches(cfg.routes[k].rules, a, cfg.regex))
    && (i < |cfg.routes| ==> GroupMatches(cfg.routes[i].rules, a, cfg.regex))
  }

  /** A session whose first data hold a whole record is routed by the server name in it. */
  lemma {:induction false} SniffedNameIsRouted(session: Session, cfg: Config, h: Sniff.ClientHello, i: nat)
    requires Sniff.Valid(h) && Sniff.Record(h) <= session.firstData && Sniff.SniName(h.extensions) != []
    requires FirstGroup(cfg, Address(Domain(Sniff.SniName(h.extensions)), session.address.port), i)
    ensures Tag(session, cfg) == if i < |cfg.routes| then cfg.routes[i].outbound else cfg.final
  {
    hide Sniff.Sniffed, Sniff.Valid, Sniff.Record, Sniff.SniName, Route, GroupMatches;
    Sniff.SnifferIsComplete(h, session.firstData);
    RouteIsFirstMatch(cfg.routes, cfg.final, Address(Domain(Sniff.SniName(h.extensions)), session.address.port),
                      cfg.regex, i);
  }

  /** One without a name in its first data is routed by the address the client asked for. */
  lemma {:induction false} UnsniffedAddressIsRouted(session: Session, cfg: Config, i: nat)
    requires Sniff.Sniffed(session.firstData) == [] && FirstGroup(cfg, session.address, i)
    ensures Tag(session, cfg) == if i < |cfg.routes| then cfg.routes[i].outbound else cfg.final
  {
    hide Sniff.Sniffed, Route, GroupMatches;
    RouteIsFirstMatch(cfg.routes, cfg.final, session.address, cfg.regex, i);
  }

  // ---- What reaching and serving a session mean ----

  /** Which sessions are served: a direct outbound always connects, a VLESS server accepts with two zeros. */
  lemma {:induction false} ReachedExactly(session: Session, cfg: Config, server: Wire)
    requires ValidWire(server) && AllBinary(server.stream)
    ensures Reached(session, cfg, server).Ok?
       <==> && Tag(session, cfg) in cfg.outbounds
            && (cfg.outbounds[Tag(session, cfg)].Direct? || [0, 0] <= Pending(server))
  {
    hide Pending, ValidWire, Route, Vless.TakeReply;
    Vless.ReplyByStream(server);
    StartsWith(Pending(server), [0, 0]);
  }

  lemma StartsWith(s: bytes, front: bytes)
    ensures front <= s <==> |front| <= |s| && s[..|front|] == front
  {
  }

  /**
   What the peers of a served session make of their bytes. A direct server has the first
   data and then a prefix of the client's further bytes, and the client its answer. A
   VLESS server decodes user, destination and that same payload, and the client has its
   answer without the two reply octets. With fair rounds the prefixes are everything.
   */
  lemma {:induction false} ServedSessionsMean(session: Session, cfg: Config, client: Wire, server: Wire, before: bytes,
                                              fair: Fairness, toServer: bytes, toClient: bytes)
    requires Handled(session, cfg, client, server, before, fair, toServer, toClient)
    requires Reached(session, cfg, server).Ok?
    ensures match cfg.outbounds[Tag(session, cfg)]
      case Direct =>
        && Gets(toServer, session.firstData, Pending(client), fair.up)
        && Gets(toClient, before, Pending(server), fair.down)
      case VlessTo(uuid) =>
        && 2 <= |Pending(server)| && Gets(toClient, before, Pending(server)[2..], fair.down)
        && (|uuid| == 16 && Vless.Encodable(Destination(session).host) ==>
              var d := Vless.Decode(toServer);
              && d.Some? && d.value.uuid == uuid && d.value.session.address == Destination(session)
              && Gets(d.value.session.firstData, session.firstData, Pending(client), fair.up))
  {
    hide Pending, Destination, Route, Connected, Vless.Decode, Vless.Header, Vless.Encodable;
    var o, a := cfg.outbounds[Tag(session, cfg)], Destination(session);
    if o.Direct? {
      NothingInFront(session.firstData);
    } else {
      var front := Vless.Header(o.uuid, a);
      var payload := toServer[|front|..];
      BehindFront(toServer, front, session.firstData, Pending(client));
      if |o.uuid| == 16 { Vless.RoundTripExactly(o.uuid, Session(a, payload)); }
    }
  }

  lemma BehindFront(s: bytes, front: bytes, first: bytes, more: bytes)
    requires front + first <= s <= front + first + more
    ensures |front| <= |s| && s == front + s[|front|..] && first <= s[|front|..] <= first + more
    ensures s == front + first + more ==> s[|front|..] == first + more
  {
  }

  /**
   A VLESS server reads the session back from what it is sent if and only if the name it
   is sent fits the length octet: the sniffed one, or without one the requested one.
   */
  lemma {:induction false} ServerReadsBackExactly(uuid: bytes, session: Session, more: bytes)
    requires |uuid| == 16
    ensures var data := session.firstData + more;
      Vless.Decode(Front(VlessTo(uuid), Destination(session)) + data)
      == Some(Vless.Decoded(uuid, Session(Destination(session), data)))
      <==> if Sniff.Sniffed(session.firstData) == [] then Vless.Encodable(session.address.host)
           else |Sniff.Sniffed(session.firstData)| <= 0xFF
  {
    hide Vless.Decode, Vless.Header, Sniff.Sniffed;
    Vless.RoundTripExactly(uuid, Session(Destination(session), session.firstData + more));
  }

  /**
   So a TLS client decides by its server name alone: a first record that names a host,
   with anything behind it, is read back by a VLESS server if and only if the name has
   at most 255 octets.
   */
  lemma {:induction false} ServerNameDecides(
    uuid: bytes, address: Address, h: Sniff.ClientHello, rest: bytes, more: bytes)
    requires |uuid| == 16 && Sniff.Valid(h) && Sniff.SniName(h.extensions) != []
    ensures var name, first := Sniff.SniName(h.extensions), Sniff.Record(h) + rest;
      var session, data := Session(address, first), first + more;
      && Destination(session) == address.(host := Domain(name))
      && (|name| <= 0xFF
          <==> Vless.Decode(Front(VlessTo(uuid), Destination(session)) + data)
               == Some(Vless.Decoded(uuid, Session(Destination(session), data))))
  {
    hide Vless.Decode, Vless.Header, Sniff.Sniffed, Sniff.Record, Sniff.SniName, Sniff.Valid;
    Sniff.SnifferIsComplete(h, Sniff.Record(h) + rest);
    ServerReadsBackExactly(uuid, Session(address, Sniff.Record(h) + rest), more);
  }

  /** A hello that names `name` and says as little else as possible. */
  function NamedHello(name: bytes): Sniff.ClientHello
    requires |name| <= 4000
  {
    Sniff.ClientHello(1, [3, 3], seq(32, _ => 0), [], [0x13, 0x01], [0],
                      [Sniff.ServerNames(|name| + 3, [Sniff.ServerName(0, name)])])
  }

  /** Names on both sides of the bound occur in hellos that arrive in one read. */
  lemma NamedHelloFits(name: bytes)
    requires |name| <= 4000
    ensures Sniff.Valid(NamedHello(name)) && Sniff.SniName(NamedHello(name).extensions) == name
    ensures var hello := Sniff.Record(NamedHello(name));
      |hello| == |name| + 61 && ReadFrom(Wire(Socket, [Frame(true, hello)], []), READ_SIZE).0 == Ok(hello)
  {
    var h := NamedHello(name);
    var names := h.extensions[0].names;
    assert names[1..] == [] && h.extensions[1..] == [];
    assert |Sniff.SerServerNames(names)| == |name| + 3;
    assert Sniff.ValidExtension(h.extensions[0]);
    assert |Sniff.SerExtensions(h.extensions)| == |name| + 9;
  }
}
