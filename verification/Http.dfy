/**
 The HTTP proxy front end (`handleHttp_` in src/inbounds/mixed.cpp): the request line
 it extracts from however many reads, the line it rewrites, and what becomes of the
 client's other bytes. URL and address parsing are library calls.
 */
module Http {
  import opened Bytes
  import opened Address
  import opened Connections
  import opened Socks5

  const CRLF: bytes := [0x0D, 0x0A]
  const BLANK_LINE: bytes := [0x0D, 0x0A, 0x0D, 0x0A]
  const SPACE: byte := 0x20
  const METHOD_CONNECT: bytes := Text("CONNECT")
  const HTTPS_PORT: u16 := 443
  const HTTP_PORT: u16 := 80
  const ESTABLISHED: bytes := Text("HTTP/1.1 200 Connection Established\r\n\r\n")

  lemma {:induction false} SeparatorsSpell()
    ensures CRLF == Text("\r\n") && BLANK_LINE == Text("\r\n\r\n") && [SPACE] == Text(" ")
  {
  }

  datatype Url = Url(host: bytes, port: u16, path: bytes)

  /** `boost::urls::parse_uri_reference` and `ip::make_address`. */
  datatype Library = Library(parseUri: bytes -> Option<Url>, makeAddress: bytes -> Option<Ip>)

  // ---- Reading until a pattern ----

  lemma ReadShrinks(w: Wire)
    requires ValidWire(w) && w.kind.Socket? && ReadFrom(w, READ_SIZE).0.Ok?
    ensures Left(ReadFrom(w, READ_SIZE).1) < Left(w)
  {
    ReadConserves(w, READ_SIZE);
  }

  /** Reads are appended to `buffer` until it holds `pattern`. */
  function FillUntil(w: Wire, buffer: bytes, pattern: bytes): (Result<bytes>, Wire)
    requires ValidWire(w) && w.kind.Socket?
    decreases Left(w)
  {
    if Find(buffer, pattern, 0).Some? then (Ok(buffer), w)
    else
      var (r, w') := ReadFrom(w, READ_SIZE);
      if r.Err? then (Err(r.why), w')
      else
        ReadConserves(w, READ_SIZE);
        ReadShrinks(w);
        FillUntil(w', buffer + r.value, pattern)
  }

  /** Both reading loops of `handleHttp_`. */
  method ReadUntil(conn: Connection, have: bytes, pattern: bytes) returns (r: Result<bytes>)
    requires conn.kind.Socket? && ValidWire(conn.Reading())
    modifies conn`stream, conn`buffer
    ensures (r, conn.Reading()) == FillUntil(old(conn.Reading()), have, pattern)
    ensures ValidWire(conn.Reading())
  {
    hide Left, ReadFrom, ValidWire;
    var buffer := have;
    while Find(buffer, pattern, 0).None?
      invariant ValidWire(conn.Reading())
      invariant FillUntil(old(conn.Reading()), have, pattern) == FillUntil(conn.Reading(), buffer, pattern)
      decreases Left(conn.Reading())
    {
      ghost var w := conn.Reading();
      ReadConserves(w, READ_SIZE);
      var data := conn.Read(READ_SIZE);
      if data.Err? { return Err(data.why); }
      ReadShrinks(w);
      buffer := buffer + data.value;
    }
    return Ok(buffer);
  }

  /**
   Whether and where the pattern is found depends on the client's bytes alone; the
   buffer and the unread bytes still make up the stream.
   */
  lemma {:induction false} FillByStream(w: Wire, buffer: bytes, pattern: bytes)
    requires ValidWire(w) && w.kind.Socket?
    ensures var (r, w') := FillUntil(w, buffer, pattern);
      var s := buffer + Pending(w);
      && ValidWire(w') && w'.kind.Socket?
      && (r.Ok? <==> Find(s, pattern, 0).Some?)
      && (r.Ok? ==> r.value + Pending(w') == s && Find(r.value, pattern, 0) == Find(s, pattern, 0))
      && (r.Err? ==> r == Err(Eof))
    decreases Left(w)
  {
    hide ReadFrom, Left, At, Pending;
    if Find(buffer, pattern, 0).Some? {
      FindInPrefix(buffer, Pending(w), pattern);
    } else {
      ReadConserves(w, READ_SIZE);
      var (r, w') := ReadFrom(w, READ_SIZE);
      if r.Ok? {
        ReadShrinks(w);
        assert buffer + (r.value + Pending(w')) == buffer + r.value + Pending(w');
        FillByStream(w', buffer + r.value, pattern);
      } else {
        EmptyWhenReadFails(w, READ_SIZE);
        assert buffer + [] == buffer;
      }
    }
  }

  /** `k` bytes from here some read ends. */
  predicate ReadEndsAt(w: Wire, k: int)
    requires ValidWire(w) && w.kind.Socket?
    decreases Left(w)
  {
    if k <= 0 then k == 0
    else
      var (r, w') := ReadFrom(w, READ_SIZE);
      if r.Err? then false
      else
        ReadConserves(w, READ_SIZE);
        ReadShrinks(w);
        ReadEndsAt(w', k - |r.value|)
  }

  /** From the end of the pattern on, the filled buffer is one more place where a read ends. */
  lemma {:induction false} FillKeepsReadEnds(w: Wire, buffer: bytes, pattern: bytes, end: nat)
    requires ValidWire(w) && w.kind.Socket?
    requires var at := Find(buffer + Pending(w), pattern, 0); at.Some? && at.value + |pattern| <= end
    ensures var (r, w') := FillUntil(w, buffer, pattern);
      && r.Ok? && ValidWire(w') && w'.kind.Socket?
      && (ReadEndsAt(w, end - |buffer|) <==> ReadEndsAt(w', end - |r.value|))
    decreases Left(w)
  {
    hide ReadFrom, Left, At, Pending;
    FillByStream(w, buffer, pattern);
    if Find(buffer, pattern, 0).None? {
      PatternNotYetIn(buffer, Pending(w), pattern);
      ReadConserves(w, READ_SIZE);
      var (r, w') := ReadFrom(w, READ_SIZE);
      if r.Ok? {
        ReadShrinks(w);
        assert buffer + (r.value + Pending(w')) == buffer + r.value + Pending(w');
        FillKeepsReadEnds(w', buffer + r.value, pattern, end);
      }
    }
  }

  lemma PatternNotYetIn(buffer: bytes, rest: bytes, pattern: bytes)
    requires Find(buffer, pattern, 0).None? && Find(buffer + rest, pattern, 0).Some?
    ensures |buffer| < Find(buffer + rest, pattern, 0).value + |pattern|
  {
    var at := Find(buffer + rest, pattern, 0).value;
    if at + |pattern| <= |buffer| {
      AtInPrefix(buffer, rest, pattern, at);
    }
  }

  // ---- The request line ----

  predicate IsSpace(b: byte) { b == SPACE || 0x09 <= b <= 0x0D }

  function SkipSpaces(s: bytes): bytes {
    if s != [] && IsSpace(s[0]) then SkipSpaces(s[1..]) else s
  }

  function WordLength(s: bytes): (n: nat)
    ensures n <= |s|
  {
    if s == [] || IsSpace(s[0]) then 0 else 1 + WordLength(s[1..])
  }

  /** One `iss >> word`; the word is empty when none is left. */
  function NextWord(s: bytes): (bytes, bytes) {
    var t := SkipSpaces(s);
    (t[..WordLength(t)], t[WordLength(t)..])
  }

  datatype RequestLine = RequestLine(verb: bytes, target: bytes, version: bytes)

  function ParseLine(line: bytes): RequestLine {
    var (verb, s1) := NextWord(line);
    var (target, s2) := NextWord(s1);
    var (version, _) := NextWord(s2);
    RequestLine(verb, target, version)
  }

  function AddressOf(url: Url, lib: Library, defaultPort: u16): Address {
    Address(match lib.makeAddress(url.host) case Some(ip) => Literal(ip) case None => Domain(url.host),
            if url.port == 0 then defaultPort else url.port)
  }

  /** The rewritten first line carries the path only; query and fragment are dropped. */
  function Rewritten(line: RequestLine, url: Url): bytes {
    line.verb + [SPACE] + url.path + [SPACE] + line.version + CRLF
  }

  // ---- The handler, as a function of the client's wire ----

  /** `dropped` are bytes that were read and reach nobody. */
  datatype Outcome = Outcome(result: Result<Session>, wire: Wire, reply: bytes, dropped: bytes)

  function Tunnel(w: Wire, buffer: bytes, address: Address): Outcome
    requires ValidWire(w) && w.kind.Socket?
  {
    FillByStream(w, buffer, BLANK_LINE);
    var (head, w1) := FillUntil(w, buffer, BLANK_LINE);
    if head.Err? then Outcome(Err(head.why), w1, [], [])
    else
      var dropped := head.value[Find(head.value, BLANK_LINE, 0).value + 4..];
      var (data, w2) := ReadFrom(w1, READ_SIZE);
      if data.Err? then Outcome(Err(data.why), w2, ESTABLISHED, dropped)
      else Outcome(Ok(Session(address, data.value)), w2, ESTABLISHED, dropped)
  }

  function Forward(w: Wire, buffer: bytes, address: Address, firstLine: bytes): Outcome {
    if buffer != [] then Outcome(Ok(Session(address, firstLine + buffer)), w, [], [])
    else
      var (data, w1) := ReadFrom(w, READ_SIZE);
      if data.Err? then Outcome(Err(data.why), w1, [], [])
      else Outcome(Ok(Session(address, firstLine + data.value)), w1, [], [])
  }

  /** What the handler does once it has the request line and the bytes read behind it. */
  function Serve(w: Wire, text: bytes, buffer: bytes, lib: Library): Outcome
    requires ValidWire(w) && w.kind.Socket?
  {
    var line := ParseLine(text);
    match lib.parseUri(line.target)
    case None => Outcome(Err(BadUrl), w, [], [])
    case Some(url) =>
      if line.verb == METHOD_CONNECT then Tunnel(w, buffer, AddressOf(url, lib, HTTPS_PORT))
      else Forward(w, buffer, AddressOf(url, lib, HTTP_PORT), Rewritten(line, url))
  }

  function Handle(w: Wire, first: byte, lib: Library): Outcome
    requires ValidWire(w) && w.kind.Socket?
  {
    FillByStream(w, [first], CRLF);
    var (head, w1) := FillUntil(w, [first], CRLF);
    if head.Err? then Outcome(Err(head.why), w1, [], [])
    else
      var pos := Find(head.value, CRLF, 0).value;
      Serve(w1, head.value[..pos], head.value[pos + 2..], lib)
  }

  method HandleHttp(conn: Connection, first: byte, lib: Library)
    returns (r: Result<Session>, ghost dropped: bytes)
    requires conn.kind.Socket? && ValidWire(conn.Reading())
    modifies conn
    ensures var h := Handle(old(conn.Reading()), first, lib);
      && r == h.result && conn.Reading() == h.wire
      && conn.sent == old(conn.sent) + h.reply && dropped == h.dropped
    ensures ValidWire(conn.Reading())
  {
    hide FillUntil, ValidWire, ParseLine, Find;
    FillByStream(conn.Reading(), [first], CRLF);
    dropped := [];
    assert conn.sent + [] == conn.sent;
    var head := ReadUntil(conn, [first], CRLF);
    if head.Err? { return Err(head.why), dropped; }
    var pos := Find(head.value, CRLF, 0).value;
    var line := ParseLine(head.value[..pos]);
    var buffer := head.value[pos + 2..];
    var url := lib.parseUri(line.target);
    if url.None? { return Err(BadUrl), dropped; }
    if line.verb == METHOD_CONNECT {
      r, dropped := OpenTunnel(conn, buffer, AddressOf(url.value, lib, HTTPS_PORT));
    } else {
      r := ForwardRequest(conn, buffer, AddressOf(url.value, lib, HTTP_PORT), Rewritten(line, url.value));
    }
  }

  /** The CONNECT branch, lines 147 to 166. */
  method OpenTunnel(conn: Connection, have: bytes, address: Address)
    returns (r: Result<Session>, ghost dropped: bytes)
    requires conn.kind.Socket? && ValidWire(conn.Reading())
    modifies conn
    ensures var h := Tunnel(old(conn.Reading()), have, address);
      && r == h.result && conn.Reading() == h.wire
      && conn.sent == old(conn.sent) + h.reply && dropped == h.dropped
    ensures ValidWire(conn.Reading())
  {
    FillByStream(conn.Reading(), have, BLANK_LINE);
    hide FillUntil, ValidWire, Find;
    dropped := [];
    assert conn.sent + [] == conn.sent;
    var head := ReadUntil(conn, have, BLANK_LINE);
    if head.Err? { return Err(head.why), dropped; }
    var buffer := head.value[Find(head.value, BLANK_LINE, 0).value + 4..];
    dropped := buffer;
    conn.Write(ESTABLISHED);
    ReadConserves(conn.Reading(), READ_SIZE);
    var data := conn.Read(READ_SIZE);
    if data.Err? { return Err(data.why), dropped; }
    return Ok(Session(address, data.value)), dropped;
  }

  /** Lines 167 to 180. */
  method ForwardRequest(conn: Connection, buffer: bytes, address: Address, firstLine: bytes)
    returns (r: Result<Session>)
    requires ValidWire(conn.Reading())
    modifies conn`stream, conn`buffer
    ensures var h := Forward(old(conn.Reading()), buffer, address, firstLine);
      r == h.result && conn.Reading() == h.wire
    ensures ValidWire(conn.Reading())
  {
    ReadConserves(conn.Reading(), READ_SIZE);
    var firstData := firstLine;
    if buffer == [] {
      var data := conn.Read(READ_SIZE);
      if data.Err? { return Err(data.why); }
      firstData := firstData + data.value;
    } else {
      firstData := firstData + buffer;
    }
    return Ok(Session(address, firstData));
  }

  // ---- What the client's bytes become ----

  /** The request line is the text before the first CRLF, however it arrives. */
  lemma RequestLineIsByStream(w: Wire, first: byte)
    requires ValidWire(w) && w.kind.Socket?
    ensures var s := [first] + Pending(w);
      var (head, w1) := FillUntil(w, [first], CRLF);
      && (head.Ok? <==> Find(s, CRLF, 0).Some?)
      && (head.Ok? ==> var pos := Find(s, CRLF, 0).value;
            && Find(head.value, CRLF, 0) == Some(pos) && head.value[..pos] == s[..pos]
            && head.value[pos + 2..] + Pending(w1) == s[pos + 2..])
  {
    FillByStream(w, [first], CRLF);
    hide FillUntil, Pending, At, Find, ValidWire;
    var s := [first] + Pending(w);
    var (head, w1) := FillUntil(w, [first], CRLF);
    if head.Ok? {
      var pos := Find(s, CRLF, 0).value;
      assert pos + 2 <= |head.value|;
      TailOf(head.value, Pending(w1), pos + 2);
      assert s == head.value + Pending(w1) && s[..pos] == head.value[..pos];
    }
  }

  /** The verb, the target and the version, read off the client's bytes. */
  function LineOf(s: bytes): Option<RequestLine> {
    match Find(s, CRLF, 0)
    case None => None
    case Some(pos) => Some(ParseLine(s[..pos]))
  }

  function AddressIn(text: bytes, lib: Library): Option<Address> {
    var line := ParseLine(text);
    match lib.parseUri(line.target)
    case None => None
    case Some(url) => Some(AddressOf(url, lib, if line.verb == METHOD_CONNECT then HTTPS_PORT else HTTP_PORT))
  }

  lemma ServedAddress(w: Wire, text: bytes, buffer: bytes, lib: Library)
    requires ValidWire(w) && w.kind.Socket? && Serve(w, text, buffer, lib).result.Ok?
    ensures AddressIn(text, lib) == Some(Serve(w, text, buffer, lib).result.value.address)
  {
  }

  lemma HandledHasLine(w: Wire, first: byte, lib: Library)
    requires ValidWire(w) && w.kind.Socket? && Handle(w, first, lib).result.Ok?
    ensures LineOf([first] + Pending(w)).Some?
  {
    hide Serve, FillUntil, Pending, At, ParseLine;
    FillByStream(w, [first], CRLF);
    var head := FillUntil(w, [first], CRLF).0;
    assert head.Ok?;
    assert Find([first] + Pending(w), CRLF, 0).Some?;
  }

  lemma HandledAddress(w: Wire, first: byte, lib: Library)
    requires ValidWire(w) && w.kind.Socket? && Handle(w, first, lib).result.Ok?
    ensures var s := [first] + Pending(w);
      var pos := Find(s, CRLF, 0);
      && pos.Some? && pos.value <= |s|
      && AddressIn(s[..pos.value], lib) == Some(Handle(w, first, lib).result.value.address)
  {
    hide Serve, AddressIn, FillUntil, Pending, ValidWire, Find, ParseLine;
    var s := [first] + Pending(w);
    HandledHasLine(w, first, lib);
    HandleByStream(w, first, lib);
    var (head, rest) := FillUntil(w, [first], CRLF);
    var pos := Find(s, CRLF, 0).value;
    ServedAddress(rest, s[..pos], head.value[pos + 2..], lib);
  }

  /** However the same bytes are cut into reads, every served request goes to the same address. */
  lemma AddressIsByStream(a: Wire, b: Wire, first: byte, lib: Library)
    requires ValidWire(a) && ValidWire(b) && a.kind.Socket? && b.kind.Socket?
    requires Pending(a) == Pending(b) && Handle(a, first, lib).result.Ok? && Handle(b, first, lib).result.Ok?
    ensures Handle(a, first, lib).result.value.address == Handle(b, first, lib).result.value.address
  {
    hide *;
    HandledAddress(a, first, lib);
    HandledAddress(b, first, lib);
  }

  /**
   Where a served request goes: to the port it names, or else 443 for CONNECT and 80 for
   any other method, and to the literal address its host spells, if it spells one.
   */
  lemma {:induction false} AddressIsRequested(w: Wire, first: byte, lib: Library)
    requires ValidWire(w) && w.kind.Socket? && Handle(w, first, lib).result.Ok?
    ensures LineOf([first] + Pending(w)).Some?
    ensures var line := LineOf([first] + Pending(w)).value;
      && lib.parseUri(line.target).Some?
      && var url, a := lib.parseUri(line.target).value, Handle(w, first, lib).result.value.address;
      && a.port == (if url.port != 0 then url.port else if line.verb == Text("CONNECT") then 443 else 80)
      && a.host == (match lib.makeAddress(url.host) case Some(ip) => Literal(ip) case None => Domain(url.host))
  {
    hide Handle, Pending, ParseLine, Find, ValidWire, Text;
    SeparatorsSpell();
    HandledHasLine(w, first, lib);
    HandledAddress(w, first, lib);
  }

  lemma ForwardByStream(w: Wire, buffer: bytes, address: Address, front: bytes)
    requires ValidWire(w) && w.kind.Socket? && Forward(w, buffer, address, front).result.Ok?
    ensures var h := Forward(w, buffer, address, front);
      h.result.value.firstData + Pending(h.wire) == front + (buffer + Pending(w))
  {
    hide Pending, ReadFrom;
    if buffer == [] {
      ReadConserves(w, READ_SIZE);
      var (data, w') := ReadFrom(w, READ_SIZE);
      assert front + data.value + Pending(w') == front + (data.value + Pending(w'));
      assert [] + Pending(w) == Pending(w);
    } else {
      assert front + buffer + Pending(w) == front + (buffer + Pending(w));
    }
  }

  /** The handler, once the client's bytes are seen to hold a request line. */
  lemma HandleByStream(w: Wire, first: byte, lib: Library)
    requires ValidWire(w) && w.kind.Socket? && LineOf([first] + Pending(w)).Some?
    ensures var s := [first] + Pending(w);
      var (head, w1) := FillUntil(w, [first], CRLF);
      var pos := Find(s, CRLF, 0).value;
      && head.Ok? && pos + 2 <= |head.value| && pos + 2 <= |s| && ValidWire(w1) && w1.kind.Socket?
      && head.value[pos + 2..] + Pending(w1) == s[pos + 2..]
      && Handle(w, first, lib) == Serve(w1, s[..pos], head.value[pos + 2..], lib)
  {
    RequestLineIsByStream(w, first);
    FillByStream(w, [first], CRLF);
  }

  /**
   Without CONNECT no byte behind the request line is lost: what goes to the server, now
   and later, is the rewritten line, which drops query and fragment, and all of them.
   */
  lemma ForwardConserves(w: Wire, first: byte, lib: Library)
    requires ValidWire(w) && w.kind.Socket? && Handle(w, first, lib).result.Ok?
    requires var s := [first] + Pending(w); LineOf(s).Some? && LineOf(s).value.verb != METHOD_CONNECT
    ensures var s := [first] + Pending(w);
      var h, line := Handle(w, first, lib), LineOf(s).value;
      && lib.parseUri(line.target).Some? && Find(s, CRLF, 0).value + 2 <= |s|
      && h.result.value.firstData + Pending(h.wire)
         == line.verb + Text(" ") + lib.parseUri(line.target).value.path + Text(" ") + line.version + Text("\r\n")
            + s[Find(s, CRLF, 0).value + 2..]
      && h.reply == [] && h.dropped == []
  {
    RewrittenSpells(LineOf([first] + Pending(w)).value, lib);
    RewrittenConserves(w, first, lib);
  }

  lemma RewrittenSpells(line: RequestLine, lib: Library)
    ensures lib.parseUri(line.target).Some? ==>
      Rewritten(line, lib.parseUri(line.target).value)
      == line.verb + Text(" ") + lib.parseUri(line.target).value.path + Text(" ") + line.version + Text("\r\n")
  {
    hide Text;
    SeparatorsSpell();
  }

  lemma RewrittenConserves(w: Wire, first: byte, lib: Library)
    requires ValidWire(w) && w.kind.Socket? && Handle(w, first, lib).result.Ok?
    requires var s := [first] + Pending(w); LineOf(s).Some? && LineOf(s).value.verb != METHOD_CONNECT
    ensures var s := [first] + Pending(w);
      var h, line := Handle(w, first, lib), LineOf(s).value;
      && lib.parseUri(line.target).Some? && Find(s, CRLF, 0).value + 2 <= |s|
      && h.result.value.firstData + Pending(h.wire)
         == Rewritten(line, lib.parseUri(line.target).value) + s[Find(s, CRLF, 0).value + 2..]
      && h.reply == [] && h.dropped == []
  {
    HandleByStream(w, first, lib);
    var s := [first] + Pending(w);
    var (head, w1) := FillUntil(w, [first], CRLF);
    var pos, line := Find(s, CRLF, 0).value, LineOf(s).value;
    hide FillUntil, Pending, ParseLine, Rewritten, Find, ReadFrom, ValidWire, Handle;
    var url := lib.parseUri(line.target).value;
    ForwardByStream(w1, head.value[pos + 2..], AddressOf(url, lib, HTTP_PORT), Rewritten(line, url));
  }

  // ---- What a server makes of the rewritten line ----

  predicate IsWord(s: bytes) { forall b <- s :: !IsSpace(b) }

  lemma {:induction false} WordLengthIs(word: bytes, rest: bytes)
    requires IsWord(word) && (rest == [] || IsSpace(rest[0]))
    ensures WordLength(word + rest) == |word|
  {
    if word == [] {
      assert word + rest == rest;
    } else {
      assert (word + rest)[1..] == word[1..] + rest;
      WordLengthIs(word[1..], rest);
    }
  }

  lemma NextWordIs(word: bytes, rest: bytes)
    requires word != [] && IsWord(word) && (rest == [] || IsSpace(rest[0]))
    ensures NextWord(word + rest) == (word, rest)
  {
    WordLengthIs(word, rest);
  }

  lemma SpaceIsSkipped(s: bytes)
    ensures NextWord([SPACE] + s) == NextWord(s)
  {
    assert ([SPACE] + s)[1..] == s;
  }

  lemma {:induction false} WordHasNoSpace(s: bytes)
    ensures IsWord(s[..WordLength(s)])
  {
    if s != [] && !IsSpace(s[0]) {
      WordHasNoSpace(s[1..]);
      assert s[..WordLength(s)] == [s[0]] + s[1..][..WordLength(s[1..])];
    }
  }

  lemma {:induction false} SkippedStartsAWord(s: bytes)
    ensures SkipSpaces(s) == [] || !IsSpace(SkipSpaces(s)[0])
  {
    if s != [] && IsSpace(s[0]) { SkippedStartsAWord(s[1..]); }
  }

  lemma NextIsWord(s: bytes)
    ensures IsWord(NextWord(s).0) && (NextWord(s).0 == [] ==> NextWord(s).1 == [])
  {
    SkippedStartsAWord(s);
    WordHasNoSpace(SkipSpaces(s));
  }

  /** The words of a request line hold no whitespace, and the last ones are missing first. */
  lemma LineHoldsWords(text: bytes)
    ensures var line := ParseLine(text);
      && IsWord(line.verb) && IsWord(line.target) && IsWord(line.version)
      && (line.verb == [] ==> line.target == []) && (line.target == [] ==> line.version == [])
  {
    hide NextWord, IsWord;
    NothingLeft();
    NextIsWord(text);
    NextIsWord(NextWord(text).1);
    NextIsWord(NextWord(NextWord(text).1).1);
  }

  lemma NothingLeft()
    ensures NextWord([]) == ([], [])
  {
  }

  lemma WordsAreParsed(verb: bytes, target: bytes, version: bytes)
    requires IsWord(verb) && IsWord(target) && IsWord(version)
    requires verb != [] && target != []
    ensures ParseLine(verb + ([SPACE] + (target + ([SPACE] + version)))) == RequestLine(verb, target, version)
  {
    hide NextWord, IsWord;
    SpaceIsSpace();
    NextWordIs(verb, [SPACE] + (target + ([SPACE] + version)));
    SpaceIsSkipped(target + ([SPACE] + version));
    NextWordIs(target, [SPACE] + version);
    SpaceIsSkipped(version);
    LastWord(version);
  }

  lemma SpaceIsSpace()
    ensures IsSpace(SPACE)
  {
  }

  lemma LastWord(word: bytes)
    requires IsWord(word)
    ensures NextWord(word) == (word, [])
  {
    if word != [] {
      NextWordIs(word, []);
      assert word + [] == word;
    }
  }

  /** Words in front of which one is missing move up. */
  lemma WordsMoveUp(verb: bytes, path: bytes, version: bytes)
    requires IsWord(verb) && IsWord(path) && IsWord(version)
    requires verb == [] ==> version == []
    ensures var read := ParseLine(verb + ([SPACE] + (path + ([SPACE] + version))));
      && (verb == [] ==> read == RequestLine(path, [], []))
      && (verb != [] && path == [] ==> read == RequestLine(verb, version, []))
  {
    hide NextWord, IsWord;
    SpaceIsSpace();
    NothingLeft();
    SpaceIsSkipped(path + ([SPACE] + version));
    SpaceIsSkipped(version);
    LastWord(version);
    NothingInFront([SPACE] + (path + ([SPACE] + version)));
    NothingInFront([SPACE] + version);
    if verb == [] {
      SpaceIsSkipped([]);
      if path != [] { NextWordIs(path, [SPACE]); }
      assert [SPACE] + [] == [SPACE];
    } else {
      NextWordIs(verb, [SPACE] + (path + ([SPACE] + version)));
      SpaceIsSkipped([SPACE] + version);
    }
  }

  lemma NothingInFront(s: bytes)
    ensures [] + s == s
  {
  }

  lemma RewrittenLine(line: RequestLine, url: Url, rest: bytes)
    requires IsWord(line.verb) && IsWord(url.path) && IsWord(line.version)
    ensures LineOf(Rewritten(line, url) + rest)
         == Some(ParseLine(line.verb + ([SPACE] + (url.path + ([SPACE] + line.version)))))
  {
    hide ParseLine;
    var text := line.verb + ([SPACE] + (url.path + ([SPACE] + line.version)));
    assert Rewritten(line, url) + rest == text + (CRLF + rest);
    assert 0x0D !in text;
    FirstOccurrence(text, CRLF, rest);
    assert (text + (CRLF + rest))[..|text|] == text;
  }

  /** Space, tab, line feed, vertical tab, form feed and carriage return. */
  predicate IsBlank(b: byte) { b == 0x20 || b == 0x09 || b == 0x0A || b == 0x0B || b == 0x0C || b == 0x0D }

  predicate IsGap(s: bytes) { forall k :: 0 <= k < |s| ==> IsBlank(s[k]) }

  predicate IsText(s: bytes) { s != [] && forall k :: 0 <= k < |s| ==> !IsBlank(s[k]) }

  lemma {:induction false} GapIsSkipped(gap: bytes, s: bytes)
    requires IsGap(gap)
    ensures SkipSpaces(gap + s) == SkipSpaces(s)
    decreases |gap|
  {
    if gap == [] {
      assert gap + s == s;
    } else {
      assert (gap + s)[1..] == gap[1..] + s;
      assert IsBlank(gap[0]);
      GapIsSkipped(gap[1..], s);
    }
  }

  lemma TextIsWord(s: bytes)
    requires IsText(s)
    ensures IsWord(s)
  {
  }

  lemma GapThenWord(gap: bytes, word: bytes, rest: bytes)
    requires IsGap(gap) && IsText(word) && (rest == [] || IsBlank(rest[0]))
    ensures NextWord(gap + (word + rest)) == (word, rest)
  {
    GapIsSkipped(gap, word + rest);
    TextIsWord(word);
    NextWordIs(word, rest);
  }

  /** Any three words apart by any whitespace are the verb, the target and the version. */
  lemma {:induction false} LineOfSpacedWords(a: bytes, verb: bytes, b: bytes, target: bytes, c: bytes, version: bytes,
                                             d: bytes)
    requires IsGap(a) && IsGap(b) && IsGap(c) && IsGap(d) && b != [] && c != []
    requires IsText(verb) && IsText(target) && IsText(version)
    ensures ParseLine(a + (verb + (b + (target + (c + (version + d)))))) == RequestLine(verb, target, version)
  {
    hide NextWord, IsText;
    assert IsBlank(b[0]) && IsBlank(c[0]) && (d == [] || IsBlank(d[0]));
    hide IsGap, IsBlank;
    GapThenWord(a, verb, b + (target + (c + (version + d))));
    GapThenWord(b, target, c + (version + d));
    GapThenWord(c, version, d);
  }

  /** A word read as the target is not `path` unless `path` is a word. */
  lemma ReadTargetIsWord(s: bytes)
    requires LineOf(s).Some?
    ensures IsWord(LineOf(s).value.target)
  {
    hide ParseLine, Find, IsWord;
    LineHoldsWords(s[..Find(s, CRLF, 0).value]);
  }

  /**
   A server that reads request lines as the program does gets verb, path and version of
   the rewritten line if and only if the path has no whitespace and no word is missing
   in front of another: the path of an absolute target such as "http://host" is empty,
   and the version is then read in its place.
   */
  lemma {:induction false} RewrittenReadsBackExactly(text: bytes, url: Url, rest: bytes)
    ensures var line := ParseLine(text);
      LineOf(Rewritten(line, url) + rest) == Some(line.(target := url.path))
      <==> && IsWord(url.path)
           && (line.verb == [] ==> url.path == [])
           && (url.path == [] ==> line.version == [])
  {
    hide *;
    var line, s := ParseLine(text), Rewritten(ParseLine(text), url) + rest;
    LineHoldsWords(text);
    if !IsWord(url.path) {
      if LineOf(s).Some? { ReadTargetIsWord(s); }
    } else {
      RewrittenLine(line, url, rest);
      if line.verb != [] && url.path != [] {
        WordsAreParsed(line.verb, url.path, line.version);
      } else {
        WordsMoveUp(line.verb, url.path, line.version);
      }
    }
  }

  /** With an empty path the server reads the version as the target. */
  lemma {:induction false} EmptyPathIsMisread(text: bytes, url: Url, rest: bytes)
    requires url.path == [] && ParseLine(text).version != []
    ensures var line := ParseLine(text);
      LineOf(Rewritten(line, url) + rest) == Some(RequestLine(line.verb, line.version, []))
  {
    hide ParseLine, LineOf, Rewritten, IsWord;
    var line := ParseLine(text);
    LineHoldsWords(text);
    NothingIsAWord();
    RewrittenLine(line, url, rest);
    WordsMoveUp(line.verb, [], line.version);
  }

  lemma NothingIsAWord()
    ensures IsWord([])
  {
  }

  /**
   What the client sees of the front end, and why it fails, from the client's bytes: the
   status line once a CONNECT head is complete, and nothing before or otherwise.
   */
  lemma {:induction false} RepliesExactly(w: Wire, first: byte, lib: Library)
    requires ValidWire(w) && w.kind.Socket?
    ensures var s, h := [first] + Pending(w), Handle(w, first, lib);
      match LineOf(s)
      case None => h.result == Err(Eof) && h.reply == []
      case Some(line) =>
        if lib.parseUri(line.target).None? then h.result == Err(BadUrl) && h.reply == []
        else
          && (h.result.Err? ==> h.result == Err(Eof))
          && if line.verb != Text("CONNECT") then h.reply == []
             else if TunnelStart(s).None? then h.result == Err(Eof) && h.reply == []
             else h.reply == Text("HTTP/1.1 200 Connection Established\r\n\r\n")
  {
    hide FillUntil, Pending, At, Find, ValidWire, Tunnel, Forward, ParseLine;
    var s := [first] + Pending(w);
    FillByStream(w, [first], CRLF);
    if LineOf(s).None? {
      assert FillUntil(w, [first], CRLF).0 == Err(Eof);
    } else {
      HandleByStream(w, first, lib);
      var (head, w1) := FillUntil(w, [first], CRLF);
      var pos := Find(s, CRLF, 0).value;
      var line, buffer := ParseLine(s[..pos]), head.value[pos + 2..];
      if lib.parseUri(line.target).Some? {
        TunnelReplies(w1, buffer, AddressOf(lib.parseUri(line.target).value, lib, HTTPS_PORT));
        ForwardReplies(w1, buffer, AddressOf(lib.parseUri(line.target).value, lib, HTTP_PORT),
                       Rewritten(line, lib.parseUri(line.target).value));
      }
    }
  }

  lemma TunnelReplies(w: Wire, buffer: bytes, address: Address)
    requires ValidWire(w) && w.kind.Socket?
    ensures var h := Tunnel(w, buffer, address);
      && (h.result.Err? ==> h.result == Err(Eof))
      && if Find(buffer + Pending(w), BLANK_LINE, 0).None? then h.result == Err(Eof) && h.reply == []
         else h.reply == ESTABLISHED
  {
    FillByStream(w, buffer, BLANK_LINE);
    hide Find, FillUntil, Pending, ReadFrom;
    var w1 := FillUntil(w, buffer, BLANK_LINE).1;
    if ReadFrom(w1, READ_SIZE).0.Err? { EmptyWhenReadFails(w1, READ_SIZE); }
  }

  lemma ForwardReplies(w: Wire, buffer: bytes, address: Address, front: bytes)
    requires ValidWire(w) && w.kind.Socket?
    ensures var h := Forward(w, buffer, address, front); h.reply == [] && (h.result.Err? ==> h.result == Err(Eof))
  {
    hide Pending, ReadFrom;
    if ReadFrom(w, READ_SIZE).0.Err? { EmptyWhenReadFails(w, READ_SIZE); }
  }

  // ---- What is left to read ----

  lemma {:induction false} FillNeverGrows(w: Wire, buffer: bytes, pattern: bytes)
    requires ValidWire(w) && w.kind.Socket?
    ensures var w' := FillUntil(w, buffer, pattern).1; ValidWire(w') && w'.kind.Socket? && Left(w') <= Left(w)
    decreases Left(w)
  {
    hide ReadFrom, Left, At, Pending, Find;
    if Find(buffer, pattern, 0).None? {
      ReadConserves(w, READ_SIZE);
      ReadNeverGrows(w, READ_SIZE);
      var (r, w') := ReadFrom(w, READ_SIZE);
      if r.Ok? {
        ReadShrinks(w);
        FillNeverGrows(w', buffer + r.value, pattern);
      }
    }
  }

  lemma ServeNeverGrows(w: Wire, text: bytes, buffer: bytes, lib: Library)
    requires ValidWire(w) && w.kind.Socket?
    ensures var w' := Serve(w, text, buffer, lib).wire; ValidWire(w') && w'.kind.Socket? && Left(w') <= Left(w)
  {
    hide FillUntil, ReadFrom, Left, ParseLine, Pending, ValidWire, Rewritten;
    FillByStream(w, buffer, BLANK_LINE);
    FillNeverGrows(w, buffer, BLANK_LINE);
    var w1 := FillUntil(w, buffer, BLANK_LINE).1;
    ReadConserves(w, READ_SIZE);
    ReadNeverGrows(w, READ_SIZE);
    ReadConserves(w1, READ_SIZE);
    ReadNeverGrows(w1, READ_SIZE);
  }

  /** The front end leaves no more to read than there was. */
  lemma HandleNeverGrows(w: Wire, first: byte, lib: Library)
    requires ValidWire(w) && w.kind.Socket?
    ensures var w' := Handle(w, first, lib).wire; ValidWire(w') && w'.kind.Socket? && Left(w') <= Left(w)
  {
    hide FillUntil, Left, Pending, ValidWire, Serve;
    FillByStream(w, [first], CRLF);
    FillNeverGrows(w, [first], CRLF);
    var (head, w1) := FillUntil(w, [first], CRLF);
    if head.Ok? {
      var pos := Find(head.value, CRLF, 0).value;
      ServeNeverGrows(w1, head.value[..pos], head.value[pos + 2..], lib);
    }
  }

  // ---- Where a head ends ----

  /** Line by line: the header lines end behind the first empty one. */
  function HeadEnd(rest: bytes): (r: Option<nat>)
    ensures r.Some? ==> 2 <= r.value <= |rest|
    decreases |rest|
  {
    match Find(rest, CRLF, 0)
    case None => None
    case Some(line) =>
      if line == 0 then Some(2)
      else match HeadEnd(rest[line + 2..])
        case None => None
        case Some(end) => Some(line + 2 + end)
  }

  lemma AtSuffix(s: bytes, from: nat, k: nat, part: bytes)
    requires from <= |s|
    ensures At(s[from..], k, part) <==> At(s, from + k, part)
  {
    if from + k + |part| <= |s| {
      assert s[from..][k..k + |part|] == s[from + k..from + k + |part|];
    }
  }

  lemma BlankIsTwoEnds(s: bytes, k: nat)
    ensures At(s, k, BLANK_LINE) <==> At(s, k, CRLF) && At(s, k + 2, CRLF)
  {
    assert BLANK_LINE == CRLF + CRLF;
    AtConcat(s, k, CRLF, CRLF);
  }

  lemma EndsDoNotOverlap(s: bytes, k: nat)
    requires At(s, k, CRLF)
    ensures !At(s, k + 1, CRLF)
  {
    AtByte(s, k, 0x0D, [0x0A]);
    if At(s, k + 1, CRLF) { AtByte(s, k + 1, 0x0D, [0x0A]); }
    AtOne(s, k + 1, 0x0A);
  }

  /** The blank line is at the end of the first line or behind it. */
  lemma BlankBehindLine(rest: bytes, line: nat)
    requires Find(rest, CRLF, 0) == Some(line) && line + 2 <= |rest|
    ensures var next := rest[line + 2..];
      Find(rest, BLANK_LINE, 0)
      == if At(next, 0, CRLF) then Some(line)
         else match Find(next, BLANK_LINE, 0) case None => None case Some(k) => Some(line + 2 + k)
  {
    hide At, Find;
    var next := rest[line + 2..];
    AtSuffix(rest, line + 2, 0, CRLF);
    forall k: nat | At(rest, k, BLANK_LINE)
      ensures if k == line then At(next, 0, CRLF) else line + 2 <= k && At(next, k - (line + 2), BLANK_LINE)
    {
      BlankIsTwoEnds(rest, k);
      EndsDoNotOverlap(rest, line);
      if line + 2 <= k { AtSuffix(rest, line + 2, k - (line + 2), BLANK_LINE); }
    }
    BlankIsTwoEnds(rest, line);
    if !At(next, 0, CRLF) && Find(next, BLANK_LINE, 0).Some? {
      AtSuffix(rest, line + 2, Find(next, BLANK_LINE, 0).value, BLANK_LINE);
    }
  }

  lemma NoEndNoBlank(rest: bytes)
    requires Find(rest, CRLF, 0).None?
    ensures Find(rest, BLANK_LINE, 0).None?
  {
    hide At, Find;
    if Find(rest, BLANK_LINE, 0).Some? {
      BlankIsTwoEnds(rest, Find(rest, BLANK_LINE, 0).value);
    }
  }

  /** Behind a header line, the search for a blank line finds the end of the head. */
  lemma {:induction false} SearchFindsHeadEnd(rest: bytes)
    requires !At(rest, 0, CRLF)
    ensures HeadEnd(rest) == match Find(rest, BLANK_LINE, 0) case None => None case Some(blank) => Some(blank + 4)
    decreases |rest|
  {
    hide At, Find;
    match Find(rest, CRLF, 0) {
      case None => NoEndNoBlank(rest);
      case Some(line) =>
        var next := rest[line + 2..];
        BlankBehindLine(rest, line);
        if !At(next, 0, CRLF) { SearchFindsHeadEnd(next); } else { EmptyLineFirst(next); }
    }
  }

  lemma EmptyLineFirst(rest: bytes)
    requires At(rest, 0, CRLF)
    ensures HeadEnd(rest) == Some(2) && Find(rest, CRLF, 0) == Some(0)
  {
  }

  /**
   The program's search misses an empty line right behind the request line, because the
   CRLF before it is already consumed: it is right about the end of the head exactly
   when there is a header line.
   */
  lemma HeadEndIsRightExactly(rest: bytes)
    requires HeadEnd(rest).Some?
    ensures (Find(rest, BLANK_LINE, 0).Some? && Find(rest, BLANK_LINE, 0).value + 4 == HeadEnd(rest).value)
       <==> !At(rest, 0, CRLF)
  {
    hide At, Find, HeadEnd;
    if At(rest, 0, CRLF) { EmptyLineFirst(rest); } else { SearchFindsHeadEnd(rest); }
  }

  // ---- What a CONNECT loses ----

  /** Where the program takes the head of a CONNECT to end, counted from the first byte. */
  function TunnelStart(s: bytes): Option<nat> {
    match Find(s, CRLF, 0)
    case None => None
    case Some(pos) =>
      match Find(s[pos + 2..], BLANK_LINE, 0)
      case None => None
      case Some(blank) => Some(pos + 2 + blank + 4)
  }

  lemma TailOf(a: bytes, b: bytes, k: nat)
    requires k <= |a|
    ensures (a + b)[k..] == a[k..] + b
  {
  }

  lemma TunnelByStream(w: Wire, buffer: bytes, address: Address)
    requires ValidWire(w) && w.kind.Socket? && Tunnel(w, buffer, address).result.Ok?
    ensures var s, h := buffer + Pending(w), Tunnel(w, buffer, address);
      var blank := Find(s, BLANK_LINE, 0);
      && blank.Some? && blank.value + 4 <= |s|
      && h.result.value.address == address && h.reply == ESTABLISHED
      && h.dropped + (h.result.value.firstData + Pending(h.wire)) == s[blank.value + 4..]
      && (h.dropped == [] <==> ReadEndsAt(w, blank.value + 4 - |buffer|))
  {
    hide Pending, ReadFrom, ValidWire, At, Find, FillUntil, ReadEndsAt;
    var s := buffer + Pending(w);
    var (head, w1) := FillUntil(w, buffer, BLANK_LINE);
    FillByStream(w, buffer, BLANK_LINE);
    var end := Find(s, BLANK_LINE, 0).value + 4;
    FillKeepsReadEnds(w, buffer, BLANK_LINE, end);
    ReadEndsHere(w1, end - |head.value|);
    ReadConserves(w1, READ_SIZE);
    TailOf(head.value, Pending(w1), end);
    var (data, w2) := ReadFrom(w1, READ_SIZE);
    assert s[end..] == head.value[end..] + (data.value + Pending(w2));
  }

  lemma ReadEndsHere(w: Wire, k: int)
    requires ValidWire(w) && w.kind.Socket? && k <= 0
    ensures ReadEndsAt(w, k) <==> k == 0
  {
  }

  /** What is dropped is what was read behind the program's own end of the head. */
  lemma TunnelDrops(w: Wire, first: byte, lib: Library)
    requires ValidWire(w) && w.kind.Socket? && Handle(w, first, lib).result.Ok?
    requires var s := [first] + Pending(w); LineOf(s).Some? && LineOf(s).value.verb == METHOD_CONNECT
    ensures var s, h := [first] + Pending(w), Handle(w, first, lib);
      var kept := h.result.value.firstData + Pending(h.wire);
      && TunnelStart(s).Some? && TunnelStart(s).value <= |s| && h.reply == ESTABLISHED
      && h.dropped + kept == s[TunnelStart(s).value..]
      && (kept == s[TunnelStart(s).value..] <==> ReadEndsAt(w, TunnelStart(s).value - 1))
  {
    var w1, buffer, address := ConnectIsTunnel(w, first, lib);
    var s, h := [first] + Pending(w), Handle(w, first, lib);
    hide *;
    TunnelByStream(w1, buffer, address);
    var kept := h.result.value.firstData + Pending(h.wire);
    if h.dropped != [] { assert |h.dropped + kept| > |kept|; } else { assert [] + kept == kept; }
  }

  /** The first empty line behind the request line ends the request. */
  function RequestEnd(s: bytes): (r: Option<nat>)
    ensures r.Some? ==> r.value <= |s|
  {
    match Find(s, CRLF, 0)
    case None => None
    case Some(pos) =>
      match HeadEnd(s[pos + 2..])
      case None => None
      case Some(end) => Some(pos + 2 + end)
  }

  /** The line behind the request line is not empty. */
  predicate HasHeaderLine(s: bytes) {
    var pos := Find(s, CRLF, 0);
    pos.Some? && pos.value + 2 <= |s| && !At(s[pos.value + 2..], 0, CRLF)
  }

  lemma StartAndEnd(s: bytes)
    requires TunnelStart(s).Some?
    ensures RequestEnd(s).Some? && RequestEnd(s).value <= TunnelStart(s).value
    ensures RequestEnd(s).value == TunnelStart(s).value <==> HasHeaderLine(s)
  {
    hide At, Find, HeadEnd;
    var rest := s[Find(s, CRLF, 0).value + 2..];
    if At(rest, 0, CRLF) { EmptyLineFirst(rest); } else { SearchFindsHeadEnd(rest); }
  }

  /**
   A CONNECT loses the bytes up to its first blank line behind the request line, and
   those read together with it. The tunnel carries everything behind the request if and
   only if the request has a header line and some read of the client ends right there,
   which is up to the client and the network.
   */
  lemma {:induction false} TunnelConserves(w: Wire, first: byte, lib: Library)
    requires ValidWire(w) && w.kind.Socket? && Handle(w, first, lib).result.Ok?
    requires var s := [first] + Pending(w); LineOf(s).Some? && LineOf(s).value.verb == METHOD_CONNECT
    ensures var s, h := [first] + Pending(w), Handle(w, first, lib);
      var kept := h.result.value.firstData + Pending(h.wire);
      && h.reply == ESTABLISHED && RequestEnd(s).Some? && TunnelStart(s).Some?
      && RequestEnd(s).value <= TunnelStart(s).value <= |s|
      && h.dropped + kept == s[TunnelStart(s).value..]
      && (kept == s[RequestEnd(s).value..] <==> HasHeaderLine(s) && ReadEndsAt(w, RequestEnd(s).value - 1))
  {
    hide *;
    TunnelDrops(w, first, lib);
    StartAndEnd([first] + Pending(w));
  }

  /** So the tunnel carries what is behind some point of the client's bytes. */
  lemma TunnelKeepsSuffix(w: Wire, first: byte, lib: Library) returns (k: nat)
    requires ValidWire(w) && w.kind.Socket? && Handle(w, first, lib).result.Ok?
    requires var s := [first] + Pending(w); LineOf(s).Some? && LineOf(s).value.verb == METHOD_CONNECT
    ensures var s, h := [first] + Pending(w), Handle(w, first, lib);
      && h.reply == ESTABLISHED && RequestEnd(s).Some? && RequestEnd(s).value <= k <= |s|
      && h.result.value.firstData + Pending(h.wire) == s[k..]
      && (k == RequestEnd(s).value <==> HasHeaderLine(s) && ReadEndsAt(w, RequestEnd(s).value - 1))
  {
    hide *;
    TunnelConserves(w, first, lib);
    var s, h := [first] + Pending(w), Handle(w, first, lib);
    k := TunnelStart(s).value + |h.dropped|;
    var kept := h.result.value.firstData + Pending(h.wire);
    SplitSuffix(s, TunnelStart(s).value, h.dropped, kept);
    assert kept == s[RequestEnd(s).value..] ==> k == RequestEnd(s).value;
  }

  lemma SplitSuffix(s: bytes, from: nat, a: bytes, b: bytes)
    requires from <= |s| && a + b == s[from..]
    ensures from + |a| <= |s| && b == s[from + |a|..] && |b| == |s| - from - |a|
  {
    assert (a + b)[|a|..] == b;
  }

  lemma ServeConnect(w: Wire, text: bytes, buffer: bytes, lib: Library) returns (address: Address)
    requires ValidWire(w) && w.kind.Socket?
    requires ParseLine(text).verb == METHOD_CONNECT && Serve(w, text, buffer, lib).result.Ok?
    ensures Serve(w, text, buffer, lib) == Tunnel(w, buffer, address)
  {
    hide Tunnel, ParseLine;
    address := AddressOf(lib.parseUri(ParseLine(text).target).value, lib, HTTPS_PORT);
  }

  /** A served CONNECT is the tunnel opened behind its request line. */
  lemma ConnectIsTunnel(w: Wire, first: byte, lib: Library) returns (w1: Wire, buffer: bytes, address: Address)
    requires ValidWire(w) && w.kind.Socket? && Handle(w, first, lib).result.Ok?
    requires var s := [first] + Pending(w); LineOf(s).Some? && LineOf(s).value.verb == METHOD_CONNECT
    ensures ValidWire(w1) && w1.kind.Socket? && Handle(w, first, lib) == Tunnel(w1, buffer, address)
    ensures var s := [first] + Pending(w);
      var blank := Find(buffer + Pending(w1), BLANK_LINE, 0);
      && blank.Some? && TunnelStart(s).Some? && TunnelStart(s).value <= |s|
      && blank.value + 4 <= |buffer + Pending(w1)|
      && s[TunnelStart(s).value..] == (buffer + Pending(w1))[blank.value + 4..]
      && (ReadEndsAt(w, TunnelStart(s).value - 1) <==> ReadEndsAt(w1, blank.value + 4 - |buffer|))
  {
    hide Handle, Serve, Tunnel, FillUntil, Pending, At, Find, ParseLine, ReadEndsAt, TunnelStart, ValidWire;
    HandleByStream(w, first, lib);
    var s := [first] + Pending(w);
    var (head, rest) := FillUntil(w, [first], CRLF);
    var pos := Find(s, CRLF, 0).value;
    w1, buffer := rest, head.value[pos + 2..];
    address := ServeConnect(w1, s[..pos], buffer, lib);
    TunnelByStream(w1, buffer, address);
    var start := pos + 2 + Find(s[pos + 2..], BLANK_LINE, 0).value + 4;
    TunnelStartIs(s, pos, start);
    FillKeepsReadEnds(w, [first], CRLF, start);
    assert start - |head.value| == start - (pos + 2) - |buffer|;
  }

  lemma TunnelStartIs(s: bytes, pos: nat, start: nat)
    requires Find(s, CRLF, 0) == Some(pos) && pos + 2 <= |s|
    requires Find(s[pos + 2..], BLANK_LINE, 0).Some?
    requires start == pos + 2 + Find(s[pos + 2..], BLANK_LINE, 0).value + 4
    ensures TunnelStart(s) == Some(start) && start <= |s|
    ensures s[start..] == s[pos + 2..][start - pos - 2..]
  {
    hide At, Find;
  }

  // ---- A client that does not wait ----

  function ConnectLine(target: bytes): bytes { METHOD_CONNECT + ([SPACE] + (target + ([SPACE] + Text("HTTP/1.1")))) }

  lemma ConnectLineIsParsed(target: bytes)
    requires target != [] && IsWord(target)
    ensures ParseLine(ConnectLine(target)) == RequestLine(METHOD_CONNECT, target, Text("HTTP/1.1"))
  {
    hide ParseLine, IsWord;
    ConnectWordsAreWords();
    WordsAreParsed(METHOD_CONNECT, target, Text("HTTP/1.1"));
  }

  lemma ConnectWordsAreWords()
    ensures IsWord(METHOD_CONNECT) && IsWord(Text("HTTP/1.1")) && METHOD_CONNECT != [] && Text("HTTP/1.1") != []
  {
  }

  /** A CONNECT with one header line, and what the client sends right behind it. */
  function EagerConnect(target: bytes, header: bytes, payload: bytes): bytes {
    ConnectLine(target) + (CRLF + (header + (BLANK_LINE + payload)))
  }

  lemma EagerLine(target: bytes, header: bytes, payload: bytes)
    requires IsWord(target)
    ensures var s, end := EagerConnect(target, header, payload), |ConnectLine(target)|;
      && Find(s, CRLF, 0) == Some(end) && end + 2 <= |s|
      && s[..end] == ConnectLine(target) && s[end + 2..] == header + (BLANK_LINE + payload)
  {
    FirstOccurrence(ConnectLine(target), CRLF, header + (BLANK_LINE + payload));
  }

  /** One read brings everything up to the payload's end. */
  lemma OneRead(s: bytes, later: seq<Frame>)
    requires s != [] && |s| <= READ_SIZE && AllBinary(later) && Find(s, CRLF, 0).Some?
    ensures var w, w1 := Wire(Socket, [Frame(true, s[1..])] + later, []), Wire(Socket, later, []);
      ValidWire(w) && ValidWire(w1) && FillUntil(w, [s[0]], CRLF) == (Ok(s), w1)
  {
    hide At, Left, Pending;
    var w, w1 := Wire(Socket, [Frame(true, s[1..])] + later, []), Wire(Socket, later, []);
    assert [s[0]] + s[1..] == s && w.stream[1..] == later;
    assert ReadFrom(w, READ_SIZE) == (Ok(s[1..]), w1);
  }

  lemma EagerTunnel(header: bytes, payload: bytes, more: bytes, address: Address)
    requires 0x0D !in header
    ensures var h := Tunnel(Wire(Socket, [Frame(true, more)], []), header + (BLANK_LINE + payload), address);
      && h.result.Ok? && h.dropped == payload && h.result.value.firstData + Pending(h.wire) == more
      && (|more| <= 4096 ==> h.result.value.firstData == more)
  {
    hide At, Left, ReadFrom, Pending;
    var w, buffer := Wire(Socket, [Frame(true, more)], []), header + (BLANK_LINE + payload);
    FirstOccurrence(header, BLANK_LINE, payload);
    assert buffer[|header| + 4..] == payload;
    ReadConserves(w, READ_SIZE);
    OneSegment(more);
  }

  lemma OneSegment(more: bytes)
    ensures var w := Wire(Socket, [Frame(true, more)], []);
      && Pending(w) == more && ReadFrom(w, READ_SIZE).0.Ok?
      && (|more| <= 4096 ==> ReadFrom(w, READ_SIZE).0 == Ok(more))
  {
    var w := Wire(Socket, [Frame(true, more)], []);
    assert w.stream[1..] == [] && Carried(w.kind, w.stream[0]) == more;
    assert Payloads(w.kind, w.stream) == more + Payloads(w.kind, []);
    assert Pending(w) == [] + (more + []);
  }

  /**
   When head and payload of any CONNECT arrive in one segment, the whole payload is
   lost: the tunnel starts with what the client sends later.
   */
  lemma {:induction false} PayloadInTheSameSegmentIsLost(
    target: bytes, header: bytes, payload: bytes, more: bytes, lib: Library)
    requires target != [] && IsWord(target) && lib.parseUri(target).Some?
    requires header != [] && 0x0D !in header
    requires |EagerConnect(target, header, payload)| <= READ_SIZE
    ensures var s := EagerConnect(target, header, payload);
      var h := Handle(Wire(Socket, [Frame(true, s[1..]), Frame(true, more)], []), s[0], lib);
      && h.result.Ok? && h.dropped == payload && h.result.value.firstData + Pending(h.wire) == more
      && (|more| <= 4096 ==> h.result.value.firstData == more)
  {
    hide At, FillUntil, Find, ReadFrom, Pending, ParseLine, ConnectLine, EagerConnect, Tunnel;
    var s, line := EagerConnect(target, header, payload), ConnectLine(target);
    EagerLine(target, header, payload);
    var w, w1 := Wire(Socket, [Frame(true, s[1..]), Frame(true, more)], []), Wire(Socket, [Frame(true, more)], []);
    OneRead(s, w1.stream);
    assert w.stream == [w.stream[0]] + w1.stream;
    ConnectLineIsParsed(target);
    EagerTunnel(header, payload, more, AddressOf(lib.parseUri(target).value, lib, HTTPS_PORT));
  }

  /**
   The first data of a forwarded request are the new line and what came in the segment of
   the client's line, or if that was all, what the next segment brings.
   */
  lemma {:induction false} ForwardTakesSegment(verb: bytes, target: bytes, version: bytes, rest: bytes, more: bytes,
                                               lib: Library)
    requires IsWord(verb) && IsWord(target) && IsWord(version) && verb != [] && target != []
    requires verb != Text("CONNECT") && lib.parseUri(target).Some? && |more| <= 4096
    requires |GetLine(verb, target, version) + (CRLF + rest)| <= 4096
    ensures var s := GetLine(verb, target, version) + (CRLF + rest);
      var h := Handle(Wire(Socket, [Frame(true, s[1..]), Frame(true, more)], []), s[0], lib);
      && h.result.Ok?
      && h.result.value.firstData
         == Rewritten(RequestLine(verb, target, version), lib.parseUri(target).value)
            + if rest != [] then rest else more
  {
    hide At, FillUntil, Find, ReadFrom, Pending, ParseLine, Rewritten, Text, IsWord;
    SeparatorsSpell();
    var line := GetLine(verb, target, version);
    var s := line + (CRLF + rest);
    var w, w1 := Wire(Socket, [Frame(true, s[1..]), Frame(true, more)], []), Wire(Socket, [Frame(true, more)], []);
    GetLineEnds(verb, target, version, rest);
    OneRead(s, w1.stream);
    assert w.stream == [w.stream[0]] + w1.stream;
    WordsAreParsed(verb, target, version);
    assert s[..|line|] == line && s[|line| + 2..] == rest;
    OneSegment(more);
  }

  function GetLine(verb: bytes, target: bytes, version: bytes): bytes {
    verb + ([SPACE] + (target + ([SPACE] + version)))
  }

  lemma GetLineEnds(verb: bytes, target: bytes, version: bytes, rest: bytes)
    requires IsWord(verb) && IsWord(target) && IsWord(version)
    ensures var line := GetLine(verb, target, version); Find(line + (CRLF + rest), CRLF, 0) == Some(|line|)
  {
    var line := GetLine(verb, target, version);
    assert 0x0D !in line;
    FirstOccurrence(line, CRLF, rest);
  }
}
