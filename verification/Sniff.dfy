/**
 The TLS ClientHello sniffer: the loop the program runs, the handshake message
 it is meant for (section 4.1.2 of RFC 8446, section 3 of RFC 6066), and the
 theorems that connect the two.
 */
module Sniff {
  import opened Bytes

  // ---- The wire format ----

  datatype ServerName = ServerName(kind: byte, name: bytes)

  /**
   `ServerNames` is the server_name extension. `declared` is the length written
   in front of the list; RFC 6066 wants it to be the length of the list.
   */
  datatype Extension =
    | ServerNames(declared: u16, names: seq<ServerName>)
    | Other(kind: u16, body: bytes)

  datatype ClientHello = ClientHello(
    recordMinor: byte,
    version: bytes,
    random: bytes,
    sessionId: bytes,
    ciphers: bytes,
    compressions: bytes,
    extensions: seq<Extension>)

  const HOST_NAME: byte := 0
  const HANDSHAKE: byte := 0x16
  const TLS_MAJOR: byte := 0x03
  const CLIENT_HELLO: byte := 0x01

  predicate ValidServerName(n: ServerName) { |n.name| < 0x1_0000 }

  function SerServerName(n: ServerName): bytes
    requires ValidServerName(n)
  {
    [n.kind] + (U16(|n.name|) + n.name)
  }

  predicate ValidServerNames(ns: seq<ServerName>) {
    forall n <- ns :: ValidServerName(n)
  }

  function SerServerNames(ns: seq<ServerName>): bytes
    requires ValidServerNames(ns)
  {
    if ns == [] then [] else SerServerName(ns[0]) + SerServerNames(ns[1..])
  }

  /** `declared` may fall short of the list, which the program tolerates. */
  predicate ValidExtension(e: Extension) {
    match e
    case ServerNames(declared, names) =>
      ValidServerNames(names) && declared <= |SerServerNames(names)| < 0xFFFE
    case Other(kind, body) => kind != 0 && |body| < 0x1_0000
  }

  function ExtensionKind(e: Extension): u16 {
    if e.ServerNames? then 0 else e.kind
  }

  function ExtensionBody(e: Extension): bytes
    requires ValidExtension(e)
  {
    match e
    case ServerNames(declared, names) => U16(declared) + SerServerNames(names)
    case Other(_, body) => body
  }

  function SerExtension(e: Extension): bytes
    requires ValidExtension(e)
  {
    U16(ExtensionKind(e)) + (U16(|ExtensionBody(e)|) + ExtensionBody(e))
  }

  predicate ValidExtensions(es: seq<Extension>) {
    forall e <- es :: ValidExtension(e)
  }

  function SerExtensions(es: seq<Extension>): bytes
    requires ValidExtensions(es)
  {
    if es == [] then [] else SerExtension(es[0]) + SerExtensions(es[1..])
  }

  predicate ValidLengths(h: ClientHello) {
    && |h.sessionId| < 0x100
    && |h.ciphers| < 0x1_0000
    && |h.compressions| < 0x100
    && ValidExtensions(h.extensions)
    && |SerExtensions(h.extensions)| < 0x1_0000
  }

  /** A hello that fits one record. */
  predicate Valid(h: ClientHello) {
    && |h.version| == 2
    && |h.random| == 32
    && ValidLengths(h)
    && |HelloBody(h)| + 4 < 0x1_0000
  }

  // The hello from the extension block backwards: what follows each field.

  function AfterCompressions(h: ClientHello): bytes
    requires ValidLengths(h)
  {
    U16(|SerExtensions(h.extensions)|) + SerExtensions(h.extensions)
  }

  function AfterCiphers(h: ClientHello): bytes
    requires ValidLengths(h)
  {
    [|h.compressions|] + (h.compressions + AfterCompressions(h))
  }

  function AfterSessionId(h: ClientHello): bytes
    requires ValidLengths(h)
  {
    U16(|h.ciphers|) + (h.ciphers + AfterCiphers(h))
  }

  function HelloBody(h: ClientHello): bytes
    requires ValidLengths(h)
  {
    h.version + (h.random + ([|h.sessionId|] + (h.sessionId + AfterSessionId(h))))
  }

  /** The hello behind headers that declare `n` octets for it. */
  function Framed(h: ClientHello, n: nat): bytes
    requires ValidLengths(h) && n + 4 < 0x1_0000
  {
    [0x16, 3, h.recordMinor] + (U16(n + 4) + ([1, 0] + (U16(n) + HelloBody(h))))
  }

  function Record(h: ClientHello): bytes
    requires Valid(h)
  {
    Framed(h, |HelloBody(h)|)
  }

  // ---- What the sniffer is meant to answer ----

  /** The first host_name of a server name list, or nothing. */
  function FirstHostName(ns: seq<ServerName>): bytes {
    if ns == [] then []
    else if ns[0].kind == 0 then ns[0].name
    else FirstHostName(ns[1..])
  }

  /** The answer for an extension list: only its first server_name extension counts. */
  function SniName(es: seq<Extension>): bytes {
    if es == [] then []
    else if es[0].ServerNames? then FirstHostName(es[0].names)
    else SniName(es[1..])
  }

  // ---- The walk over byte offsets ----

  /** The half-open range of offsets holding the extensions, when every check passes. */
  function ExtensionRange(data: bytes): (r: Option<(nat, nat)>)
    ensures r.Some? ==> r.value.0 <= r.value.1 <= |data|
  {
    if |data| < 9 || data[0] != HANDSHAKE || data[1] != TLS_MAJOR then None
    else if ReadU16(data, 3) + 5 > |data| || data[5] != CLIENT_HELLO then None
    else if 9 + data[6] as int * 0x1_0000 + ReadU16(data, 7) > |data| then None
    else if |data| < 44 then None
    else
      var p := 44 + data[43] as nat;
      if p + 2 > |data| then None else
      var p := p + 2 + ReadU16(data, p);
      if p >= |data| then None else
      var p := p + 1 + data[p] as nat;
      if p + 2 > |data| then None else
      var end := p + 2 + ReadU16(data, p);
      if end > |data| then None else Some((p + 2, end))
  }

  function WalkNames(data: bytes, q: nat, end: nat): bytes
    requires end <= |data|
    decreases end - q
  {
    if q + 3 > end then []
    else
      var next := q + 3 + ReadU16(data, q + 1);
      if next > end then []
      else if data[q] == HOST_NAME then data[q + 3..next]
      else WalkNames(data, next, end)
  }

  function WalkExtensions(data: bytes, p: nat, end: nat): bytes
    requires end <= |data|
    decreases end - p
  {
    if p + 4 > end then []
    else
      var next := p + 4 + ReadU16(data, p + 2);
      if next > end then []
      else if ReadU16(data, p) != 0 then WalkExtensions(data, next, end)
      else if next < p + 6 || p + 6 + ReadU16(data, p + 4) > next then []
      else WalkNames(data, p + 6, next)
  }

  function Sniffed(data: bytes): bytes {
    match ExtensionRange(data)
    case None => []
    case Some(range) => WalkExtensions(data, range.0, range.1)
  }

  /** The straight-line part of `sniffDomain`: every check before the extension loop. */
  method FindExtensions(data: bytes) returns (r: Option<(nat, nat)>)
    ensures r == ExtensionRange(data)
  {
    if |data| < 5 { return None; }
    if data[0] != HANDSHAKE || data[1] != TLS_MAJOR { return None; }
    var recordLen := ReadU16(data, 3);
    if recordLen + 5 > |data| { return None; }
    var p: nat := 5;
    if p + 4 > |data| { return None; }
    if data[p] != CLIENT_HELLO { return None; }
    var helloLen := data[p + 1] as int * 0x1_0000 + ReadU16(data, p + 2);
    p := p + 4;
    if p + helloLen > |data| { return None; }
    if p + 2 + 32 > |data| { return None; }
    p := p + 2;
    p := p + 32;
    if p >= |data| { return None; }
    var sessionIdLen := data[p] as nat;
    p := p + 1;
    if p + sessionIdLen > |data| { return None; }
    p := p + sessionIdLen;
    if p + 2 > |data| { return None; }
    var cipherLen := ReadU16(data, p);
    p := p + 2;
    if p + cipherLen > |data| { return None; }
    p := p + cipherLen;
    if p >= |data| { return None; }
    var compressionLen := data[p] as nat;
    p := p + 1;
    if p + compressionLen > |data| { return None; }
    p := p + compressionLen;
    if p + 2 > |data| { return None; }
    var extensionsLen := ReadU16(data, p);
    p := p + 2;
    if p + extensionsLen > |data| { return None; }
    return Some((p, p + extensionsLen));
  }

  /** The inner loop of `sniffDomain`, over the server names of one extension. */
  method ScanNames(data: bytes, start: nat, end: nat) returns (name: bytes)
    requires start <= end <= |data|
    ensures name == WalkNames(data, start, end)
  {
    var q := start;
    while q + 3 <= end
      invariant q <= end
      invariant WalkNames(data, start, end) == WalkNames(data, q, end)
    {
      var nameType := data[q];
      q := q + 1;
      var nameLen := ReadU16(data, q);
      q := q + 2;
      if q + nameLen > end { return []; }
      if nameType == HOST_NAME { return data[q..q + nameLen]; }
      q := q + nameLen;
    }
    return [];
  }

  /** `sniffDomain`; the empty name means "not found". */
  method SniffDomain(data: bytes) returns (name: bytes)
    ensures name == Sniffed(data)
  {
    var range := FindExtensions(data);
    if range.None? { return []; }
    var (p, end) := range.value;
    while p + 4 <= end
      invariant p <= end <= |data|
      invariant Sniffed(data) == WalkExtensions(data, p, end)
    {
      var kind := ReadU16(data, p);
      var len := ReadU16(data, p + 2);
      p := p + 4;
      if p + len > end { return []; }
      if kind == 0x0000 {
        if len < 2 { return []; }
        var listLen := ReadU16(data, p);
        if p + 2 + listLen > p + len { return []; }
        name := ScanNames(data, p + 2, p + len);
        return;
      }
      p := p + len;
    }
    return [];
  }

  // ---- Completeness ----

  /** The fields of a serialised server name, read back at its offset. */
  lemma PeelServerName(data: bytes, q: nat, n: ServerName, rest: bytes)
    requires ValidServerName(n) && At(data, q, SerServerName(n) + rest)
    ensures var next := q + 3 + |n.name|;
      && next == q + |SerServerName(n)| <= |data|
      && data[q] == n.kind && ReadU16(data, q + 1) == |n.name| && data[q + 3..next] == n.name
      && At(data, next, rest)
  {
    AtConcat(data, q, SerServerName(n), rest);
    AtByte(data, q, n.kind, U16(|n.name|) + n.name);
    AtLength(data, q + 1, |n.name|, n.name);
  }

  lemma {:induction false} NamesAreFound(data: bytes, q: nat, ns: seq<ServerName>)
    requires ValidServerNames(ns) && At(data, q, SerServerNames(ns))
    ensures WalkNames(data, q, q + |SerServerNames(ns)|) == FirstHostName(ns)
    decreases |ns|
  {
    hide At;
    if ns != [] {
      PeelServerName(data, q, ns[0], SerServerNames(ns[1..]));
      NamesAreFound(data, q + |SerServerName(ns[0])|, ns[1..]);
    }
  }

  lemma PeelExtension(data: bytes, p: nat, e: Extension, rest: bytes)
    requires ValidExtension(e) && At(data, p, SerExtension(e) + rest)
    ensures var next := p + 4 + |ExtensionBody(e)|;
      && next == p + |SerExtension(e)| <= |data|
      && ReadU16(data, p) == ExtensionKind(e) && ReadU16(data, p + 2) == |ExtensionBody(e)|
      && At(data, p + 4, ExtensionBody(e)) && At(data, next, rest)
  {
    var body := ExtensionBody(e);
    AtConcat(data, p, SerExtension(e), rest);
    AtLength(data, p, ExtensionKind(e), U16(|body|) + body);
    AtLength(data, p + 2, |body|, body);
  }

  /** One step of the extension walk over a serialised extension. */
  lemma ExtensionStep(data: bytes, p: nat, e: Extension, end: nat)
    requires ValidExtension(e) && p + |SerExtension(e)| <= end <= |data|
    requires ReadU16(data, p) == ExtensionKind(e) && ReadU16(data, p + 2) == |ExtensionBody(e)|
    requires At(data, p + 4, ExtensionBody(e))
    ensures WalkExtensions(data, p, end)
         == if e.ServerNames? then FirstHostName(e.names)
            else WalkExtensions(data, p + |SerExtension(e)|, end)
  {
    if e.ServerNames? {
      AtLength(data, p + 4, e.declared, SerServerNames(e.names));
      NamesAreFound(data, p + 6, e.names);
    }
  }

  lemma {:induction false} ExtensionsAreWalked(data: bytes, p: nat, es: seq<Extension>, end: nat)
    requires ValidExtensions(es) && At(data, p, SerExtensions(es))
    requires end == p + |SerExtensions(es)|
    ensures WalkExtensions(data, p, end) == SniName(es)
    decreases |es|
  {
    hide *;
    if es == [] {
      AtBound(data, p, SerExtensions(es));
      NoExtensions(data, p);
    } else {
      ExtensionsSplit(es);
      var e, rest := es[0], es[1..];
      PeelExtension(data, p, e, SerExtensions(rest));
      ExtensionStep(data, p, e, end);
      if !e.ServerNames? { ExtensionsAreWalked(data, p + |SerExtension(e)|, rest, end); }
    }
  }

  lemma NoExtensions(data: bytes, p: nat)
    requires p <= |data|
    ensures WalkExtensions(data, p, p) == SniName([]) && SerExtensions([]) == []
  {
  }

  lemma ExtensionsSplit(es: seq<Extension>)
    requires ValidExtensions(es) && es != []
    ensures ValidExtension(es[0]) && ValidExtensions(es[1..])
    ensures SerExtensions(es) == SerExtension(es[0]) + SerExtensions(es[1..])
    ensures SniName(es) == if es[0].ServerNames? then FirstHostName(es[0].names) else SniName(es[1..])
  {
  }

  lemma PeelRecord(data: bytes, h: ClientHello, n: nat)
    requires Valid(h) && n <= |HelloBody(h)| && At(data, 0, Framed(h, n))
    ensures |data| >= 9 && data[0] == HANDSHAKE && data[1] == TLS_MAJOR
    ensures ReadU16(data, 3) == n + 4
    ensures data[5] == CLIENT_HELLO && data[6] == 0 && ReadU16(data, 7) == n
    ensures At(data, 9, HelloBody(h))
  {
    hide At, HelloBody;
    var body := HelloBody(h);
    var handshake := [1, 0] + (U16(n) + body);
    AtConcat(data, 0, [0x16, 3, h.recordMinor], U16(n + 4) + handshake);
    AtBound(data, 0, [0x16, 3, h.recordMinor]);
    assert data[0] == data[0..3][0] && data[1] == data[0..3][1];
    AtLength(data, 3, n + 4, handshake);
    AtConcat(data, 5, [1, 0], U16(n) + body);
    AtBound(data, 5, [1, 0]);
    assert data[5] == data[5..7][0] && data[6] == data[5..7][1];
    AtLength(data, 7, n, body);
  }

  lemma PeelBody(data: bytes, h: ClientHello)
    requires Valid(h) && At(data, 9, HelloBody(h))
    ensures |data| >= 44 + |h.sessionId| && data[43] == |h.sessionId|
    ensures At(data, 44 + |h.sessionId|, AfterSessionId(h))
    ensures 9 + |HelloBody(h)| <= |data|
  {
    AtBound(data, 9, HelloBody(h));
    hide At;
    var tail := h.sessionId + AfterSessionId(h);
    AtConcat(data, 9, h.version, h.random + ([|h.sessionId|] + tail));
    AtConcat(data, 11, h.random, [|h.sessionId|] + tail);
    AtByte(data, 43, |h.sessionId|, tail);
    AtConcat(data, 44, h.sessionId, AfterSessionId(h));
  }

  lemma PeelCiphers(data: bytes, p: nat, h: ClientHello)
    requires ValidLengths(h) && At(data, p, AfterSessionId(h))
    ensures p + 2 <= |data| && ReadU16(data, p) == |h.ciphers|
    ensures At(data, p + 2 + |h.ciphers|, AfterCiphers(h))
  {
    AtLength(data, p, |h.ciphers|, h.ciphers + AfterCiphers(h));
    AtConcat(data, p + 2, h.ciphers, AfterCiphers(h));
  }

  lemma PeelCompressions(data: bytes, q: nat, h: ClientHello)
    requires ValidLengths(h) && At(data, q, AfterCiphers(h))
    ensures q < |data| && data[q] == |h.compressions|
    ensures var r := q + 1 + |h.compressions|;
      && r + 2 <= |data| && ReadU16(data, r) == |SerExtensions(h.extensions)|
      && At(data, r + 2, SerExtensions(h.extensions))
  {
    hide At;
    AtByte(data, q, |h.compressions|, h.compressions + AfterCompressions(h));
    AtConcat(data, q + 1, h.compressions, AfterCompressions(h));
    AtLength(data, q + 1 + |h.compressions|, |SerExtensions(h.extensions)|, SerExtensions(h.extensions));
  }

  /** Every check before the extension block, from the values of the length fields alone. */
  lemma RangeFromLengths(data: bytes, p: nat, q: nat, r: nat, end: nat)
    requires 44 <= p && p + 2 <= q < |data| && r == q + 1 + data[q] as nat
    requires q == p + 2 + ReadU16(data, p) && r + 2 <= end <= |data|
    requires end == r + 2 + ReadU16(data, r) && p == 44 + data[43] as nat
    requires HeadFits(data)
    ensures ExtensionRange(data) == Some((r + 2, end))
  {
  }

  predicate HeadFits(data: bytes) {
    && 44 <= |data|
    && data[0] == HANDSHAKE && data[1] == TLS_MAJOR && data[5] == CLIENT_HELLO && data[6] == 0
    && ReadU16(data, 3) == ReadU16(data, 7) + 4 && 9 + ReadU16(data, 7) <= |data|
  }

  lemma PeelHead(data: bytes, h: ClientHello, n: nat)
    requires Valid(h) && n <= |HelloBody(h)| && At(data, 0, Framed(h, n))
    ensures HeadFits(data) && data[43] == |h.sessionId|
    ensures At(data, 44 + |h.sessionId|, AfterSessionId(h))
  {
    PeelRecord(data, h, n);
    PeelBody(data, h);
  }

  /** The header of a serialised hello passes every check and yields its extension block. */
  lemma HeaderIsParsed(data: bytes, h: ClientHello, n: nat) returns (p: nat, end: nat)
    requires Valid(h) && n <= |HelloBody(h)| && At(data, 0, Framed(h, n))
    ensures ExtensionRange(data) == Some((p, end))
    ensures end == p + |SerExtensions(h.extensions)| && At(data, p, SerExtensions(h.extensions))
    ensures end == 9 + |HelloBody(h)|
  {
    PeelHead(data, h, n);
    p, end := BlockIsParsed(data, 44 + |h.sessionId|, h);
    BodyLength(h);
  }

  lemma BodyLength(h: ClientHello)
    requires Valid(h)
    ensures |HelloBody(h)| == 35 + |h.sessionId| + |AfterSessionId(h)|
  {
  }

  lemma BlockIsParsed(data: bytes, id: nat, h: ClientHello) returns (p: nat, end: nat)
    requires ValidLengths(h) && At(data, id, AfterSessionId(h))
    requires HeadFits(data) && id == 44 + data[43] as nat
    ensures ExtensionRange(data) == Some((p, end))
    ensures end == p + |SerExtensions(h.extensions)| && At(data, p, SerExtensions(h.extensions))
    ensures end == id + |AfterSessionId(h)|
  {
    hide At;
    PeelCiphers(data, id, h);
    var comp := id + 2 + |h.ciphers|;
    PeelCompressions(data, comp, h);
    p := comp + 1 + |h.compressions| + 2;
    end := p + |SerExtensions(h.extensions)|;
    RangeFromLengths(data, id, comp, p - 2, end);
  }

  /** Completeness: whatever follows the record, the answer is the one the hello carries. */
  lemma {:induction false} SnifferIsComplete(h: ClientHello, data: bytes)
    requires Valid(h) && Record(h) <= data
    ensures Sniffed(data) == SniName(h.extensions)
  {
    AtPrefix(data, Record(h));
    hide Record, At;
    var p, end := HeaderIsParsed(data, h, |HelloBody(h)|);
    ExtensionsAreWalked(data, p, h.extensions, end);
  }

  /** The octets of a small hello, with any random value, that names "a". */
  lemma {:induction false} KnownHello(random: bytes)
    requires |random| == 32
    ensures Sniffed([0x16, 3, 1, 0, 57, 1, 0, 0, 53, 3, 3] + random
                    + [0, 0, 2, 0x13, 1, 1, 0, 0, 10, 0, 0, 0, 6, 0, 4, 0, 0, 1, 0x61])
         == [0x61]
  {
    var head: bytes := [0x16, 3, 1, 0, 57, 1, 0, 0, 53, 3, 3];
    var tail: bytes := [0, 0, 2, 0x13, 1, 1, 0, 0, 10, 0, 0, 0, 6, 0, 4, 0, 0, 1, 0x61];
    var data := head + random + tail;
    hide *;
    KnownHead(data, head, random + tail);
    KnownTail(data, head + random, tail);
    KnownExtension(data);
    RangeFromLengths(data, 44, 48, 50, 62);
    RangeIsWalked(data, 52, 62);
  }

  lemma RangeIsWalked(data: bytes, p: nat, end: nat)
    requires ExtensionRange(data) == Some((p, end))
    ensures Sniffed(data) == WalkExtensions(data, p, end)
  {
  }

  lemma KnownHead(data: bytes, head: bytes, rest: bytes)
    requires data == head + rest && head == [0x16, 3, 1, 0, 57, 1, 0, 0, 53, 3, 3] && |rest| == 51
    ensures |data| == 62 && HeadFits(data)
  {
    assert forall k | 0 <= k < 9 :: data[k] == head[k];
  }

  lemma KnownTail(data: bytes, front: bytes, tail: bytes)
    requires data == front + tail && |front| == 43
    requires tail == [0, 0, 2, 0x13, 1, 1, 0, 0, 10, 0, 0, 0, 6, 0, 4, 0, 0, 1, 0x61]
    ensures |data| == 62 && data[43] == 0 && ReadU16(data, 44) == 2 && data[48] == 1 && ReadU16(data, 50) == 10
    ensures data[52..] == [0, 0, 0, 6, 0, 4, 0, 0, 1, 0x61]
  {
    assert forall k | 0 <= k < 19 :: data[43 + k] == tail[k];
    assert data[44] == tail[1] && data[45] == tail[2] && data[48] == tail[5];
    assert data[50] == tail[7] && data[51] == tail[8];
    assert data[52..] == tail[9..];
  }

  lemma KnownExtension(data: bytes)
    requires |data| == 62 && data[52..] == [0, 0, 0, 6, 0, 4, 0, 0, 1, 0x61]
    ensures WalkExtensions(data, 52, 62) == [0x61]
  {
    var tail: bytes := [0, 0, 0, 6, 0, 4, 0, 0, 1, 0x61];
    assert data[52] == tail[0] && data[53] == tail[1] && data[54] == tail[2] && data[55] == tail[3];
    assert data[56] == tail[4] && data[57] == tail[5] && data[58] == tail[6] && data[59] == tail[7];
    assert data[60] == tail[8] && data[61] == tail[9] && data[61..62] == [data[61]];
    assert WalkNames(data, 58, 62) == data[61..62];
  }

  // ---- Soundness: a name is never made up ----

  predicate NoHostName(ns: seq<ServerName>) { forall n <- ns :: n.kind != 0 }

  predicate NoServerNames(es: seq<Extension>) { forall e <- es :: e.Other? }

  /** The names a walk passed over, in front of the host name it returned. */
  lemma {:induction false} FoundBehindNames(data: bytes, q: nat, end: nat) returns (ns: seq<ServerName>)
    requires end <= |data| && WalkNames(data, q, end) != []
    ensures ValidServerNames(ns) && NoHostName(ns)
    ensures var host := ServerName(0, WalkNames(data, q, end));
      && ValidServerName(host)
      && q + |SerServerNames(ns)| + |SerServerName(host)| <= end
      && At(data, q, SerServerNames(ns)) && At(data, q + |SerServerNames(ns)|, SerServerName(host))
    decreases end - q
  {
    hide At, SerServerName;
    var next := q + 3 + ReadU16(data, q + 1);
    var n := ServerName(data[q], data[q + 3..next]);
    NameIsThere(data, q, n);
    if n.kind == HOST_NAME {
      ns := [];
      AtEmpty(data, q);
    } else {
      var rest := FoundBehindNames(data, next, end);
      ns := [n] + rest;
      assert ns[1..] == rest;
      AtJoin(data, q, SerServerName(n), SerServerNames(rest));
    }
  }

  lemma NameIsThere(data: bytes, q: nat, n: ServerName)
    requires q + 3 + |n.name| <= |data| && n.kind == data[q] && |n.name| == ReadU16(data, q + 1)
    requires n.name == data[q + 3..q + 3 + |n.name|]
    ensures ValidServerName(n) && At(data, q, SerServerName(n)) && |SerServerName(n)| == 3 + |n.name|
  {
    hide At;
    AtSlice(data, q, q + 1);
    assert data[q..q + 1] == [n.kind];
    AtReadU16(data, q + 1);
    AtSlice(data, q + 3, q + 3 + |n.name|);
    AtJoin(data, q + 1, U16(|n.name|), n.name);
    AtJoin(data, q, [n.kind], U16(|n.name|) + n.name);
  }

  lemma OtherIsThere(data: bytes, p: nat, e: Extension)
    requires e.Other? && e.kind != 0 && p + 4 + |e.body| <= |data|
    requires e.kind == ReadU16(data, p) && |e.body| == ReadU16(data, p + 2)
    requires e.body == data[p + 4..p + 4 + |e.body|]
    ensures ValidExtension(e) && At(data, p, SerExtension(e)) && |SerExtension(e)| == 4 + |e.body|
  {
    hide At;
    AtReadU16(data, p);
    AtReadU16(data, p + 2);
    AtSlice(data, p + 4, p + 4 + |e.body|);
    AtJoin(data, p + 2, U16(|e.body|), e.body);
    AtJoin(data, p, U16(e.kind), U16(|e.body|) + e.body);
  }

  /** A server_name extension at `p` holds `name` as its first host name, behind `ns`. */
  predicate HostNameAt(data: bytes, p: nat, end: nat, ns: seq<ServerName>, name: bytes) {
    var host := ServerName(0, name);
    && ValidServerNames(ns) && NoHostName(ns) && ValidServerName(host)
    && p + 6 <= end <= |data| && ReadU16(data, p) == 0
    && p + 4 + ReadU16(data, p + 2) <= end && 2 + ReadU16(data, p + 4) <= ReadU16(data, p + 2)
    && p + 6 + |SerServerNames(ns)| + |SerServerName(host)| <= p + 4 + ReadU16(data, p + 2)
    && At(data, p + 6, SerServerNames(ns)) && At(data, p + 6 + |SerServerNames(ns)|, SerServerName(host))
  }

  /** The extensions a walk passed over, in front of the first server_name extension. */
  lemma {:induction false} FoundBehindExtensions(data: bytes, p: nat, end: nat)
    returns (es: seq<Extension>, ns: seq<ServerName>)
    requires end <= |data| && WalkExtensions(data, p, end) != []
    ensures ValidExtensions(es) && NoServerNames(es) && At(data, p, SerExtensions(es))
    ensures HostNameAt(data, p + |SerExtensions(es)|, end, ns, WalkExtensions(data, p, end))
    decreases end - p
  {
    hide At, HostNameAt, SerExtension, WalkNames;
    if ReadU16(data, p) == 0 {
      ns := FoundHere(data, p, end);
      es := [];
      AtEmpty(data, p);
    } else {
      var next := p + 4 + ReadU16(data, p + 2);
      var e := Other(ReadU16(data, p), data[p + 4..next]);
      OtherIsThere(data, p, e);
      var rest: seq<Extension>;
      rest, ns := FoundBehindExtensions(data, next, end);
      es := [e] + rest;
      assert es[1..] == rest;
      AtJoin(data, p, SerExtension(e), SerExtensions(rest));
    }
  }

  lemma FoundHere(data: bytes, p: nat, end: nat) returns (ns: seq<ServerName>)
    requires end <= |data| && p + 4 <= end && ReadU16(data, p) == 0 && WalkExtensions(data, p, end) != []
    ensures HostNameAt(data, p, end, ns, WalkExtensions(data, p, end))
  {
    hide At, WalkNames, SerServerName;
    ns := FoundBehindNames(data, p + 6, p + 4 + ReadU16(data, p + 2));
  }

  /**
   Whatever the bytes are, a non-empty answer is the host name of the first server_name
   extension in the extension block, with well-formed extensions and names before it.
   */
  lemma SnifferIsSound(data: bytes) returns (p: nat, end: nat, es: seq<Extension>, ns: seq<ServerName>)
    requires Sniffed(data) != []
    ensures ExtensionRange(data) == Some((p, end))
    ensures ValidExtensions(es) && NoServerNames(es) && At(data, p, SerExtensions(es))
    ensures HostNameAt(data, p + |SerExtensions(es)|, end, ns, Sniffed(data))
  {
    var range := ExtensionRange(data).value;
    p, end := range.0, range.1;
    es, ns := FoundBehindExtensions(data, p, end);
  }

  /** The extension block is where a ClientHello of the declared lengths has it. */
  lemma RangeIsHeader(data: bytes) returns (p: nat, end: nat, id: bytes, ciphers: bytes, compressions: bytes)
    requires ExtensionRange(data).Some?
    ensures ExtensionRange(data) == Some((p, end)) && end <= |data|
    ensures data[0] == HANDSHAKE && data[1] == TLS_MAJOR && data[5] == CLIENT_HELLO
    ensures 5 + ReadU16(data, 3) <= |data|
    ensures |id| < 0x100 && |ciphers| < 0x1_0000 && |compressions| < 0x100 && end - p < 0x1_0000
    ensures p == 43 + 1 + |id| + 2 + |ciphers| + 1 + |compressions| + 2
    ensures At(data, 43, [|id|] + (id + (U16(|ciphers|) + (ciphers + ([|compressions|] + (compressions + U16(end - p)))))))
  {
    var c := 44 + data[43] as nat;
    var z := c + 2 + ReadU16(data, c);
    var x := z + 1 + data[z] as nat;
    id, ciphers, compressions := data[44..c], data[c + 2..z], data[z + 1..x];
    p, end := x + 2, x + 2 + ReadU16(data, x);
    hide ExtensionRange, At;
    HeaderIsThere(data, c, z, x);
  }

  lemma HeaderIsThere(data: bytes, c: nat, z: nat, x: nat)
    requires 44 <= c && c + 2 <= z && z + 1 <= x && x + 2 <= |data|
    requires c == 44 + data[43] as nat && z == c + 2 + ReadU16(data, c) && x == z + 1 + data[z] as nat
    ensures At(data, 43, [data[43]] + (data[44..c] + (U16(ReadU16(data, c)) + (data[c + 2..z]
                         + ([data[z]] + (data[z + 1..x] + U16(ReadU16(data, x))))))))
  {
    hide At, ReadU16, U16;
    var last := U16(ReadU16(data, x));
    AtReadU16(data, x);
    AtSlice(data, z + 1, x);
    AtJoin(data, z + 1, data[z + 1..x], last);
    ByteIsThere(data, z, data[z + 1..x] + last);
    var tail := [data[z]] + (data[z + 1..x] + last);
    AtSlice(data, c + 2, z);
    AtJoin(data, c + 2, data[c + 2..z], tail);
    AtReadU16(data, c);
    AtJoin(data, c, U16(ReadU16(data, c)), data[c + 2..z] + tail);
    AtSlice(data, 44, c);
    AtJoin(data, 44, data[44..c], U16(ReadU16(data, c)) + (data[c + 2..z] + tail));
    ByteIsThere(data, 43, data[44..c] + (U16(ReadU16(data, c)) + (data[c + 2..z] + tail)));
  }

  lemma ByteIsThere(data: bytes, p: nat, rest: bytes)
    requires p < |data| && At(data, p + 1, rest)
    ensures At(data, p, [data[p]] + rest)
  {
    AtSlice(data, p, p + 1);
    assert data[p..p + 1] == [data[p]];
    AtJoin(data, p, [data[p]], rest);
  }

  // ---- Stability while bytes arrive ----

  lemma {:induction false} NamesIgnoreTail(d: bytes, d': bytes, q: nat, end: nat)
    requires d <= d' && end <= |d|
    ensures WalkNames(d, q, end) == WalkNames(d', q, end)
    decreases end - q
  {
    if q + 3 <= end {
      var next := q + 3 + ReadU16(d, q + 1);
      if next <= end {
        assert d[q + 3..next] == d'[q + 3..next];
        NamesIgnoreTail(d, d', next, end);
      }
    }
  }

  lemma {:induction false} ExtensionsIgnoreTail(d: bytes, d': bytes, p: nat, end: nat)
    requires d <= d' && end <= |d|
    ensures WalkExtensions(d, p, end) == WalkExtensions(d', p, end)
    decreases end - p
  {
    if p + 4 <= end {
      var next := p + 4 + ReadU16(d, p + 2);
      if next <= end {
        ExtensionsIgnoreTail(d, d', next, end);
        NamesIgnoreTail(d, d', p + 6, next);
      }
    }
  }

  /** For all bytes, well-formed or not: a non-empty answer is final. */
  lemma AnswerIsFinal(d: bytes, d': bytes)
    requires d <= d'
    ensures Sniffed(d) == [] || Sniffed(d) == Sniffed(d')
  {
    var range := ExtensionRange(d);
    if range.Some? {
      ExtensionsIgnoreTail(d, d', range.value.0, range.value.1);
    }
  }

  /** A record that has not fully arrived gives no answer. */
  lemma PartialRecordGivesNothing(d: bytes)
    requires |d| < 5 || |d| < 5 + ReadU16(d, 3)
    ensures Sniffed(d) == []
  {
  }

  /**
   Over a whole delivery: while the record is incomplete the answer is empty, and
   from its last byte on it is the name in the hello, however the bytes arrive.
   */
  lemma {:induction false} AnswerChangesOnce(h: ClientHello, rest: bytes, k: nat)
    requires Valid(h) && k <= |Record(h) + rest|
    ensures Sniffed((Record(h) + rest)[..k])
         == if k < |Record(h)| then [] else SniName(h.extensions)
  {
    var record, arrived := Record(h), (Record(h) + rest)[..k];
    if k < |record| {
      if 5 <= k {
        HeaderLengthIsDeclared(h);
        assert arrived[3] == record[3] && arrived[4] == record[4];
      }
      PartialRecordGivesNothing(arrived);
    } else {
      assert arrived == record + rest[..k - |record|];
      SnifferIsComplete(h, arrived);
    }
  }

  lemma HeaderLengthIsDeclared(h: ClientHello)
    requires Valid(h)
    ensures |Record(h)| >= 5 && ReadU16(Record(h), 3) == |Record(h)| - 5
  {
  }

  // ---- The record as a bound ----

  function RecordEnd(data: bytes): nat
    requires 9 <= |data|
  {
    5 + ReadU16(data, 3)
  }

  function HelloEnd(data: bytes): nat
    requires 9 <= |data|
  {
    9 + data[6] as nat * 0x1_0000 + ReadU16(data, 7)
  }

  /** What the header checks make of a shorter delivery. */
  lemma RangeOfPrefix(data: bytes, k: nat)
    requires ExtensionRange(data).Some? && RecordEnd(data) <= k <= |data|
    ensures var end := ExtensionRange(data).value.1;
      ExtensionRange(data[..k]) == if end <= k && HelloEnd(data) <= k then ExtensionRange(data) else None
  {
    var d := data[..k];
    assert forall i | 0 <= i < k :: d[i] == data[i];
  }

  /**
   The declared lengths are compared with the delivery only. Sniffing the record alone
   gives the same answer if and only if the hello and the extension block end within it.
   */
  lemma {:induction false} AnswerIsInTheRecordExactly(data: bytes)
    requires Sniffed(data) != []
    ensures RecordEnd(data) <= |data|
    ensures Sniffed(data[..RecordEnd(data)]) == Sniffed(data)
       <==> ExtensionRange(data).value.1 <= RecordEnd(data) && HelloEnd(data) <= RecordEnd(data)
  {
    hide WalkExtensions;
    var range, record := ExtensionRange(data).value, data[..RecordEnd(data)];
    RangeOfPrefix(data, RecordEnd(data));
    if range.1 <= |record| {
      ExtensionsIgnoreTail(record, data, range.0, range.1);
    }
  }

  /**
   The other inputs exist: headers that declare any part of a hello give the same
   answer. With the octets in front of the extension block declared, the record is a
   hello without extensions, and the name is made of the bytes behind it.
   */
  lemma {:induction false} DeclaredLengthIsNoBound(h: ClientHello, n: nat, rest: bytes)
    requires Valid(h) && n <= |HelloBody(h)|
    ensures var data := Framed(h, n) + rest;
      && RecordEnd(data) == 9 + n <= |data| && Sniffed(data) == SniName(h.extensions)
      && (n < |HelloBody(h)| ==> Sniffed(data[..RecordEnd(data)]) == [])
  {
    hide At, Framed, HelloBody, ExtensionRange, SerExtensions, Sniffed, RecordEnd;
    var data := Framed(h, n) + rest;
    AtPrefix(data, Framed(h, n));
    FramedInRange(data, h, n);
    if n < |HelloBody(h)| { WithinRecord(data, h, n); }
  }

  lemma FramedInRange(data: bytes, h: ClientHello, n: nat)
    requires Valid(h) && n <= |HelloBody(h)| && At(data, 0, Framed(h, n))
    ensures ExtensionRange(data).Some? && ExtensionRange(data).value.1 == 9 + |HelloBody(h)|
    ensures RecordEnd(data) == 9 + n && HelloEnd(data) == 9 + n <= |data| && Sniffed(data) == SniName(h.extensions)
  {
    hide At, Framed, HelloBody, SerExtensions, ExtensionRange, WalkExtensions;
    PeelRecord(data, h, n);
    var p, end := HeaderIsParsed(data, h, n);
    ExtensionsAreWalked(data, p, h.extensions, end);
  }

  lemma WithinRecord(data: bytes, h: ClientHello, n: nat)
    requires Valid(h) && n < |HelloBody(h)|
    requires ExtensionRange(data).Some? && ExtensionRange(data).value.1 == 9 + |HelloBody(h)|
    requires RecordEnd(data) == 9 + n <= |data|
    ensures Sniffed(data[..9 + n]) == []
  {
    hide HelloBody, ExtensionRange, WalkExtensions;
    RangeOfPrefix(data, 9 + n);
  }

  // ---- The server name list as a bound ----

  /** A walk up to `end` reaches the first host name or stops before it. */
  lemma {:induction false} WalkReaches(data: bytes, q: nat, ns: seq<ServerName>, host: ServerName, end: nat)
    requires ValidServerNames(ns) && NoHostName(ns) && ValidServerName(host) && host.kind == HOST_NAME
    requires At(data, q, SerServerNames(ns)) && At(data, q + |SerServerNames(ns)|, SerServerName(host))
    requires end <= |data|
    ensures WalkNames(data, q, end)
         == if q + |SerServerNames(ns)| + |SerServerName(host)| <= end then host.name else []
    decreases |ns|
  {
    hide At, SerServerName;
    if ns == [] {
      NameStep(data, q, host, end);
    } else {
      AtPeel(data, q, SerServerName(ns[0]), SerServerNames(ns[1..]));
      NameStep(data, q, ns[0], end);
      WalkReaches(data, q + |SerServerName(ns[0])|, ns[1..], host, end);
    }
  }

  lemma NameStep(data: bytes, q: nat, n: ServerName, end: nat)
    requires ValidServerName(n) && At(data, q, SerServerName(n)) && end <= |data|
    ensures WalkNames(data, q, end)
         == if end < q + |SerServerName(n)| then []
            else if n.kind == HOST_NAME then n.name
            else WalkNames(data, q + |SerServerName(n)|, end)
  {
    AtBound(data, q, SerServerName(n));
    hide At;
    AtByte(data, q, n.kind, U16(|n.name|) + n.name);
    AtLength(data, q + 1, |n.name|, n.name);
    AtBound(data, q + 3, n.name);
  }

  /**
   The declared length of a server name list is compared with the extension only. The
   names of the list alone, as declared, give the same answer if and only if the host
   name ends within it; they give none otherwise.
   */
  lemma {:induction false} NameIsInTheListExactly(data: bytes, x: nat, end: nat, ns: seq<ServerName>, name: bytes)
    requires HostNameAt(data, x, end, ns, name)
    ensures var size := |SerServerNames(ns)| + |SerServerName(ServerName(0, name))|;
      WalkNames(data, x + 6, x + 6 + ReadU16(data, x + 4)) == if size <= ReadU16(data, x + 4) then name else []
  {
    hide At, WalkNames, SerServerNames, SerServerName;
    WalkReaches(data, x + 6, ns, ServerName(0, name), x + 6 + ReadU16(data, x + 4));
  }
}
