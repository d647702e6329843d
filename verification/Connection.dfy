/**
 Byte-stream connections: the WebSocket ones, which re-chunk binary messages through
 `buffer_` (src/connections/wss.cpp and ws.cpp, one state machine), and the TCP and
 TLS ones, whose bytes wait in the socket (src/connections/tcp.cpp and tls.cpp).
 */
module Connections {
  import opened Bytes

  datatype Kind = Socket | WebSocket

  /** A TCP segment, or a WebSocket message with its type. */
  datatype Frame = Frame(binary: bool, payload: bytes)

  /**
   The reading side: what the peer still delivers in this run, in the order and the
   pieces it arrives in, and the bytes a WebSocket connection holds back.
   */
  datatype Wire = Wire(kind: Kind, stream: seq<Frame>, buffer: bytes)

  // ---- The bytes of a wire ----

  /** A text message carries no bytes for the caller: reading it is an error. */
  function Carried(kind: Kind, f: Frame): bytes {
    if kind.Socket? || f.binary then f.payload else []
  }

  function Payloads(kind: Kind, stream: seq<Frame>): bytes {
    if stream == [] then [] else Carried(kind, stream[0]) + Payloads(kind, stream[1..])
  }

  /** Every byte that has not been delivered yet. */
  function Pending(w: Wire): bytes { w.buffer + Payloads(w.kind, w.stream) }

  /** What is left to read, in bytes and pieces. */
  function Left(w: Wire): nat { |Pending(w)| + |w.stream| }

  predicate AllBinary(stream: seq<Frame>) { forall f <- stream :: f.binary }

  /** `TcpConnection` and `TlsConnection` have no buffer; every segment is plain data. */
  predicate ValidWire(w: Wire) { w.kind.Socket? ==> w.buffer == [] && AllBinary(w.stream) }

  // ---- read ----

  /** `read(n)`: a WebSocket connection ignores `n`, a socket returns at most `n` bytes. */
  function ReadFrom(w: Wire, n: nat): (Result<bytes>, Wire) {
    if w.kind.WebSocket? && w.buffer != [] then (Ok(w.buffer), w.(buffer := []))
    else if w.stream == [] then (Err(Eof), w)
    else
      var f := w.stream[0];
      if w.kind.WebSocket? then
        (if f.binary then Ok(f.payload) else Err(NotBinary), w.(stream := w.stream[1..]))
      else if |f.payload| <= n then (Ok(f.payload), w.(stream := w.stream[1..]))
      else (Ok(f.payload[..n]), w.(stream := [f.(payload := f.payload[n..])] + w.stream[1..]))
  }

  // ---- read_exactly ----

  /** The WebSocket loop: messages are appended to the buffer until it holds `n` bytes. */
  function Fill(stream: seq<Frame>, buffer: bytes, n: nat): (Result<()>, seq<Frame>, bytes) {
    if n <= |buffer| then (Ok(()), stream, buffer)
    else if stream == [] then (Err(Eof), stream, buffer)
    else if !stream[0].binary then (Err(NotBinary), stream[1..], buffer)
    else Fill(stream[1..], buffer + stream[0].payload, n)
  }

  /** The socket loop of `asio::async_read`; on a short stream what was read is lost. */
  function Gather(stream: seq<Frame>, got: bytes, n: nat): (r: (Result<bytes>, seq<Frame>))
    requires |got| <= n
    ensures r.0.Ok? ==> |r.0.value| == n
  {
    if |got| == n then (Ok(got), stream)
    else if stream == [] then (Err(Eof), stream)
    else
      var f, need := stream[0], n - |got|;
      if |f.payload| <= need then Gather(stream[1..], got + f.payload, n)
      else (Ok(got + f.payload[..need]), [f.(payload := f.payload[need..])] + stream[1..])
  }

  function ReadExactlyFrom(w: Wire, n: nat): (r: (Result<bytes>, Wire))
    ensures r.0.Ok? ==> |r.0.value| == n
  {
    if w.kind.WebSocket? then
      var (filled, stream, buffer) := Fill(w.stream, w.buffer, n);
      if filled.Ok? && n <= |buffer| then (Ok(buffer[..n]), Wire(w.kind, stream, buffer[n..]))
      else (Err(if filled.Ok? then Eof else filled.why), Wire(w.kind, stream, buffer))
    else
      var (r, stream) := Gather(w.stream, [], n);
      (r, w.(stream := stream))
  }

  // ---- The class ----

  class Connection {
    const kind: Kind
    var stream: seq<Frame>
    var buffer: bytes
    var sent: bytes
    var closed: bool

    function Reading(): (w: Wire)
      reads this
    {
      Wire(kind, stream, buffer)
    }

    constructor (kind: Kind, stream: seq<Frame>)
      ensures Reading() == Wire(kind, stream, []) && sent == [] && !closed
    {
      this.kind, this.stream, buffer, sent, closed := kind, stream, [], [], false;
    }

    method Read(n: nat) returns (r: Result<bytes>)
      modifies this`stream, this`buffer
      ensures (r, Reading()) == ReadFrom(old(Reading()), n)
    {
      if kind.WebSocket? && buffer != [] {
        var res := buffer;
        buffer := [];
        return Ok(res);
      }
      if stream == [] { return Err(Eof); }
      var f := stream[0];
      if kind.Socket? && n < |f.payload| {
        stream := [f.(payload := f.payload[n..])] + stream[1..];
        return Ok(f.payload[..n]);
      }
      stream := stream[1..];
      if kind.WebSocket? && !f.binary { return Err(NotBinary); }
      return Ok(f.payload);
    }

    method ReadExactly(n: nat) returns (r: Result<bytes>)
      modifies this`stream, this`buffer
      ensures (r, Reading()) == ReadExactlyFrom(old(Reading()), n)
    {
      if kind.WebSocket? {
        r := ReadMessages(n);
      } else {
        r := ReadSegments(n);
      }
    }

    /** src/connections/wss.cpp:20-33. */
    method ReadMessages(n: nat) returns (r: Result<bytes>)
      requires kind.WebSocket?
      modifies this`stream, this`buffer
      ensures (r, Reading()) == ReadExactlyFrom(old(Reading()), n)
    {
      while |buffer| < n
        invariant Fill(old(stream), old(buffer), n) == Fill(stream, buffer, n)
        decreases |stream|
      {
        if stream == [] { return Err(Eof); }
        var message := stream[0];
        stream := stream[1..];
        if !message.binary { return Err(NotBinary); }
        buffer := buffer + message.payload;
      }
      var res := buffer[..n];
      buffer := buffer[n..];
      return Ok(res);
    }

    /** `asio::async_read` on a socket (src/connections/tcp.cpp:14-18). */
    method ReadSegments(n: nat) returns (r: Result<bytes>)
      requires kind.Socket?
      modifies this`stream
      ensures (r, Reading()) == ReadExactlyFrom(old(Reading()), n)
    {
      var got: bytes := [];
      while |got| < n
        invariant |got| <= n
        invariant Gather(old(stream), [], n) == Gather(stream, got, n)
        decreases |stream|
      {
        if stream == [] { return Err(Eof); }
        var f, need := stream[0], n - |got|;
        if need < |f.payload| {
          stream := [f.(payload := f.payload[need..])] + stream[1..];
          return Ok(got + f.payload[..need]);
        }
        stream := stream[1..];
        got := got + f.payload;
      }
      return Ok(got);
    }

    method Write(data: bytes)
      modifies this`sent
      ensures sent == old(sent) + data
    {
      sent := sent + data;
    }

    method Close()
      modifies this`closed
      ensures closed
    {
      closed := true;
    }
  }

  // ---- Conservation ----

  lemma PayloadsCons(kind: Kind, f: Frame, rest: seq<Frame>)
    ensures Payloads(kind, [f] + rest) == Carried(kind, f) + Payloads(kind, rest)
  {
    assert ([f] + rest)[1..] == rest;
  }

  lemma SplitSegment(f: Frame, n: nat, rest: seq<Frame>)
    requires n <= |f.payload|
    ensures var left := f.(payload := f.payload[n..]);
      f.payload[..n] + Payloads(Socket, [left] + rest) == f.payload + Payloads(Socket, rest)
  {
    PayloadsCons(Socket, f.(payload := f.payload[n..]), rest);
    assert f.payload[..n] + (f.payload[n..] + Payloads(Socket, rest)) == f.payload + Payloads(Socket, rest);
  }

  /** A read delivers the next bytes and leaves the others; a failed one takes none. */
  lemma ReadConserves(w: Wire, n: nat)
    requires ValidWire(w)
    ensures var (r, w') := ReadFrom(w, n);
      && ValidWire(w') && w'.kind == w.kind
      && Pending(w) == (if r.Ok? then r.value else []) + Pending(w')
  {
    if w.kind.WebSocket? && w.buffer != [] {
      assert w.buffer + Payloads(w.kind, w.stream) == w.buffer + ([] + Payloads(w.kind, w.stream));
    } else if w.stream != [] {
      StreamConserves(w, n);
    }
  }

  lemma StreamConserves(w: Wire, n: nat)
    requires ValidWire(w) && w.buffer == [] && w.stream != []
    ensures var (r, w') := ReadFrom(w, n);
      && ValidWire(w') && w'.kind == w.kind
      && Pending(w) == (if r.Ok? then r.value else []) + Pending(w')
  {
    var f, rest := w.stream[0], w.stream[1..];
    assert Payloads(w.kind, w.stream) == Carried(w.kind, f) + Payloads(w.kind, rest);
    if w.kind.Socket? && n < |f.payload| { SplitSegment(f, n, rest); }
    hide Payloads;
    NoBuffer(Payloads(w.kind, w.stream));
    NoBuffer(Payloads(w.kind, ReadFrom(w, n).1.stream));
  }

  lemma NoBuffer(s: bytes)
    ensures [] + s == s
  {
  }

  /** On binary messages a read fails only at the end of the stream, and else takes something off. */
  lemma BinaryRead(w: Wire, n: nat)
    requires ValidWire(w) && AllBinary(w.stream) && n > 0
    ensures var (r, w') := ReadFrom(w, n);
      && AllBinary(w'.stream)
      && if r.Err? then r.why == Eof && w' == w && w.stream == [] && Pending(w) == [] else Left(w') < Left(w)
  {
    ReadConserves(w, n);
  }

  lemma {:induction false} FillShrinks(stream: seq<Frame>, buffer: bytes, n: nat)
    ensures |Fill(stream, buffer, n).1| <= |stream|
    decreases |stream|
  {
    if |buffer| < n && stream != [] && stream[0].binary { FillShrinks(stream[1..], buffer + stream[0].payload, n); }
  }

  lemma {:induction false} GatherShrinks(stream: seq<Frame>, got: bytes, n: nat)
    requires |got| <= n
    ensures |Gather(stream, got, n).1| <= |stream|
    decreases |stream|
  {
    if |got| < n && stream != [] && |stream[0].payload| <= n - |got| {
      GatherShrinks(stream[1..], got + stream[0].payload, n);
    }
  }

  /** No exact read adds to what is left to read. */
  lemma ExactShrinks(w: Wire, n: nat)
    requires ValidWire(w)
    ensures Left(ReadExactlyFrom(w, n).1) <= Left(w)
  {
    hide Pending, ValidWire, Fill, Gather, Payloads;
    ExactConserves(w, n);
    if w.kind.WebSocket? {
      FillShrinks(w.stream, w.buffer, n);
    } else {
      ExactSegments(w, n);
      GatherShrinks(w.stream, [], n);
    }
  }

  /** Nor a read. */
  lemma ReadNeverGrows(w: Wire, n: nat)
    requires ValidWire(w)
    ensures Left(ReadFrom(w, n).1) <= Left(w)
  {
    ReadConserves(w, n);
  }

  lemma TakeAcross(a: bytes, b: bytes, rest: bytes, n: nat)
    requires |a| <= n <= |a + b|
    ensures (a + b + rest)[..n] == a + b[..n - |a|] && (a + b + rest)[n..] == b[n - |a|..] + rest
  {
  }

  lemma {:induction false} FillConserves(stream: seq<Frame>, buffer: bytes, n: nat)
    ensures var (r, stream', buffer') := Fill(stream, buffer, n);
      && (r.Ok? ==> n <= |buffer'|)
      && buffer' + Payloads(WebSocket, stream') == buffer + Payloads(WebSocket, stream)
      && (AllBinary(stream) ==> AllBinary(stream') && (r.Ok? <==> n <= |buffer + Payloads(WebSocket, stream)|)
                                && (r.Err? ==> r.why == Eof))
    decreases |stream|
  {
    if |buffer| < n && stream != [] {
      var f, rest := stream[0], stream[1..];
      assert stream == [f] + rest;
      assert buffer + (f.payload + Payloads(WebSocket, rest)) == buffer + f.payload + Payloads(WebSocket, rest);
      if f.binary {
        FillConserves(rest, buffer + f.payload, n);
      }
    }
  }

  lemma {:induction false} GatherTakes(stream: seq<Frame>, got: bytes, n: nat)
    requires |got| <= n
    ensures var (r, stream') := Gather(stream, got, n);
      var all := got + Payloads(Socket, stream);
      && (AllBinary(stream) ==> AllBinary(stream'))
      && if n <= |all| then r == Ok(all[..n]) && Payloads(Socket, stream') == all[n..]
         else r == Err(Eof) && stream' == []
    decreases |stream|
  {
    var all := got + Payloads(Socket, stream);
    if |got| == n {
      assert all[..n] == got && all[n..] == Payloads(Socket, stream);
    } else if stream != [] {
      var f, need, rest := stream[0], n - |got|, stream[1..];
      assert all == got + f.payload + Payloads(Socket, rest);
      if |f.payload| <= need {
        GatherTakes(rest, got + f.payload, n);
      } else {
        PayloadsCons(Socket, f.(payload := f.payload[need..]), rest);
        TakeAcross(got, f.payload, Payloads(Socket, rest), n);
      }
    }
  }

  lemma ExactMessages(w: Wire, n: nat)
    requires w.kind.WebSocket?
    ensures var (r, w') := ReadExactlyFrom(w, n);
      && w'.kind == w.kind
      && Pending(w) == (if r.Ok? then r.value else []) + Pending(w')
      && (r.Ok? ==> |r.value| == n)
  {
    FillConserves(w.stream, w.buffer, n);
    var (filled, stream, buffer) := Fill(w.stream, w.buffer, n);
    if filled.Ok? {
      assert buffer[..n] + (buffer[n..] + Payloads(w.kind, stream)) == buffer + Payloads(w.kind, stream);
    }
  }

  lemma ExactSegments(w: Wire, n: nat)
    requires w.kind.Socket? && ValidWire(w)
    ensures var (r, w') := ReadExactlyFrom(w, n);
      && ValidWire(w') && w'.kind == w.kind
      && if n <= |Pending(w)| then r == Ok(Pending(w)[..n]) && Pending(w') == Pending(w)[n..]
         else r == Err(Eof) && Pending(w') == []
  {
    GatherTakes(w.stream, [], n);
    var (r, stream) := Gather(w.stream, [], n);
    assert [] + Payloads(Socket, w.stream) == Payloads(Socket, w.stream);
    assert [] + Payloads(Socket, stream) == Payloads(Socket, stream);
  }

  /** An exact read delivers exactly the next `n` bytes and leaves the others. */
  lemma ExactConserves(w: Wire, n: nat)
    requires ValidWire(w)
    ensures var (r, w') := ReadExactlyFrom(w, n);
      && ValidWire(w') && w'.kind == w.kind
      && (r.Ok? ==> |r.value| == n && Pending(w) == r.value + Pending(w'))
      && (r.Err? && w.kind.WebSocket? ==> Pending(w') == Pending(w))
  {
    hide Pending;
    if w.kind.WebSocket? {
      ExactMessages(w, n);
      var w' := ReadExactlyFrom(w, n).1;
      assert [] + Pending(w') == Pending(w');
    } else {
      ExactSegments(w, n);
    }
  }

  /**
   On a wire without text messages an exact read depends on the pending bytes alone,
   not on the pieces they arrive in.
   */
  lemma ExactByStream(w: Wire, n: nat)
    requires ValidWire(w) && AllBinary(w.stream)
    ensures var (r, w') := ReadExactlyFrom(w, n);
      && AllBinary(w'.stream) && ValidWire(w') && w'.kind == w.kind
      && (n <= |Pending(w)| ==> r == Ok(Pending(w)[..n]) && Pending(w') == Pending(w)[n..])
      && (|Pending(w)| < n ==> r == Err(Eof) && Pending(w') == if w.kind.Socket? then [] else Pending(w))
  {
    if w.kind.WebSocket? {
      FillConserves(w.stream, w.buffer, n);
      var (filled, stream, buffer) := Fill(w.stream, w.buffer, n);
      if filled.Ok? {
        var all := buffer + Payloads(w.kind, stream);
        assert all[..n] == buffer[..n] && all[n..] == buffer[n..] + Payloads(w.kind, stream);
      }
    } else {
      ExactSegments(w, n);
    }
  }

  // ---- Sequences of reads ----

  datatype Call = CallRead(n: nat) | CallExactly(n: nat)

  function Step(w: Wire, c: Call): (Result<bytes>, Wire) {
    match c
    case CallRead(n) => ReadFrom(w, n)
    case CallExactly(n) => ReadExactlyFrom(w, n)
  }

  /** The wire after a sequence of calls, and all bytes they delivered. */
  function Delivered(w: Wire, calls: seq<Call>): (bytes, Wire)
    decreases |calls|
  {
    if calls == [] then ([], w)
    else
      var (r, w1) := Step(w, calls[0]);
      var (rest, w2) := Delivered(w1, calls[1..]);
      ((if r.Ok? then r.value else []) + rest, w2)
  }

  /**
   Re-chunking loses, duplicates and reorders nothing: for every sequence of calls
   on a WebSocket connection, failed ones included, what was delivered, what the
   buffer holds and what is unread make up the binary messages.
   */
  lemma {:induction false} RechunkingConserves(w: Wire, calls: seq<Call>)
    requires w.kind.WebSocket?
    ensures var (out, w') := Delivered(w, calls);
      w'.kind.WebSocket? && out + Pending(w') == Pending(w)
    decreases |calls|
  {
    hide Pending, ReadFrom, ReadExactlyFrom;
    if calls != [] {
      StepConserves(w, calls[0]);
      var (r, w1) := Step(w, calls[0]);
      RechunkingConserves(w1, calls[1..]);
      var (rest, w2) := Delivered(w1, calls[1..]);
      Assoc(if r.Ok? then r.value else [], rest, Pending(w2));
    } else {
      assert [] + Pending(w) == Pending(w);
    }
  }

  lemma StepConserves(w: Wire, c: Call)
    requires w.kind.WebSocket?
    ensures var (r, w') := Step(w, c);
      w'.kind.WebSocket? && Pending(w) == (if r.Ok? then r.value else []) + Pending(w')
  {
    hide Pending, ReadFrom, ReadExactlyFrom;
    match c {
      case CallRead(n) => ReadConserves(w, n);
      case CallExactly(n) => ExactMessages(w, n);
    }
  }

  function ExactResults(w: Wire, sizes: seq<nat>): seq<Result<bytes>>
    decreases |sizes|
  {
    if sizes == [] then []
    else
      var (r, w') := ReadExactlyFrom(w, sizes[0]);
      [r] + ExactResults(w', sizes[1..])
  }

  /** Two deliveries of the same bytes answer every sequence of exact reads alike. */
  lemma {:induction false} SegmentationIsInvisible(a: Wire, b: Wire, sizes: seq<nat>)
    requires ValidWire(a) && ValidWire(b) && a.kind == b.kind
    requires AllBinary(a.stream) && AllBinary(b.stream) && Pending(a) == Pending(b)
    ensures ExactResults(a, sizes) == ExactResults(b, sizes)
    decreases |sizes|
  {
    if sizes != [] {
      ExactByStream(a, sizes[0]);
      ExactByStream(b, sizes[0]);
      SegmentationIsInvisible(ReadExactlyFrom(a, sizes[0]).1, ReadExactlyFrom(b, sizes[0]).1, sizes[1..]);
    }
  }

  // ---- Reads follow the pieces ----

  /** The results of `count` reads in a row. */
  function ReadResults(w: Wire, n: nat, count: nat): seq<Result<bytes>>
    decreases count
  {
    if count == 0 then []
    else
      var (r, w') := ReadFrom(w, n);
      [r] + ReadResults(w', n, count - 1)
  }

  /** What the caller is to get for one message or segment. */
  function PieceResult(kind: Kind, f: Frame): Result<bytes> {
    if kind.WebSocket? && !f.binary then Err(NotBinary) else Ok(f.payload)
  }

  function PieceResults(kind: Kind, stream: seq<Frame>): seq<Result<bytes>> {
    seq(|stream|, i requires 0 <= i < |stream| => PieceResult(kind, stream[i]))
  }

  lemma OnePiece(w: Wire, n: nat, count: nat)
    requires ValidWire(w) && w.buffer == [] && w.stream != [] && count > 0
    requires w.kind.Socket? ==> |w.stream[0].payload| <= n
    ensures ReadResults(w, n, count)
         == [PieceResult(w.kind, w.stream[0])] + ReadResults(w.(stream := w.stream[1..]), n, count - 1)
  {
  }

  /**
   Reads deliver what a connection holds back, then one message or segment each in the
   order they were sent, an error for each text message, and then the end of the stream.
   */
  lemma {:induction false} ReadsArePieces(w: Wire, n: nat)
    requires ValidWire(w) && (w.kind.Socket? ==> forall f <- w.stream :: |f.payload| <= n)
    ensures var held := if w.buffer == [] then [] else [Ok(w.buffer)];
      ReadResults(w, n, |held| + |w.stream| + 1) == held + PieceResults(w.kind, w.stream) + [Err(Eof)]
    decreases |w.stream|, |w.buffer|
  {
    hide ReadFrom, PieceResult, ReadResults;
    if w.buffer != [] {
      var w' := w.(buffer := []);
      ReadsArePieces(w', n);
      BufferFirst(w, n, |w.stream| + 2);
      assert [Ok(w.buffer)] + ([] + PieceResults(w.kind, w.stream) + [Err(Eof)])
          == [Ok(w.buffer)] + PieceResults(w.kind, w.stream) + [Err(Eof)];
    } else if w.stream != [] {
      var rest := w.stream[1..];
      assert forall f <- rest :: f in w.stream;
      ReadsArePieces(w.(stream := rest), n);
      OnePiece(w, n, |w.stream| + 1);
      assert PieceResults(w.kind, w.stream) == [PieceResult(w.kind, w.stream[0])] + PieceResults(w.kind, rest);
    } else {
      NothingToRead(w, n);
    }
  }

  lemma BufferFirst(w: Wire, n: nat, count: nat)
    requires w.kind.WebSocket? && w.buffer != [] && count > 0
    ensures ReadResults(w, n, count) == [Ok(w.buffer)] + ReadResults(w.(buffer := []), n, count - 1)
  {
  }

  lemma NothingToRead(w: Wire, n: nat)
    requires w.buffer == [] && w.stream == []
    ensures ReadResults(w, n, 1) == [Err(Eof)]
  {
  }

  /** A longer segment is cut: the front goes to the caller, the rest stays first. */
  lemma LongSegmentIsCut(w: Wire, n: nat, a: bytes, b: bytes)
    requires w.kind.Socket? && ValidWire(w) && w.stream != [] && w.stream[0].payload == a + b && |a| == n && b != []
    ensures ReadFrom(w, n) == (Ok(a), w.(stream := [Frame(true, b)] + w.stream[1..]))
  {
  }

  /**
   An exact read over messages stops at the first text message it needs to pass: the
   message is gone, and what came before it stays held back.
   */
  lemma {:induction false} TextStopsExactRead(buffer: bytes, front: seq<Frame>, text: Frame, rest: seq<Frame>, n: nat)
    requires AllBinary(front) && !text.binary && |buffer + Payloads(WebSocket, front)| < n
    ensures ReadExactlyFrom(Wire(WebSocket, front + [text] + rest, buffer), n)
         == (Err(NotBinary), Wire(WebSocket, rest, buffer + Payloads(WebSocket, front)))
    decreases |front|
  {
    var stream := front + [text] + rest;
    if front == [] {
      assert stream[0] == text && stream[1..] == rest;
      assert buffer + [] == buffer;
    } else {
      assert stream[0] == front[0] && stream[1..] == front[1..] + [text] + rest;
      assert buffer + (front[0].payload + Payloads(WebSocket, front[1..]))
          == buffer + front[0].payload + Payloads(WebSocket, front[1..]);
      TextStopsExactRead(buffer + front[0].payload, front[1..], text, rest, n);
    }
  }

  // ---- Exact reads in a row ----

  lemma {:induction false} GatherFrom(stream: seq<Frame>, got: bytes, more: bytes, n: nat)
    requires |got| <= n
    ensures var (r, left) := Gather(stream, got, n);
      var (r', left') := Gather(stream, more + got, |more| + n);
      && left == left' && (r.Ok? ==> r' == Ok(more + r.value)) && (r.Err? ==> r' == r)
    decreases |stream|
  {
    if |got| < n && stream != [] {
      var f, need := stream[0], n - |got|;
      if |f.payload| <= need {
        assert more + (got + f.payload) == more + got + f.payload;
        GatherFrom(stream[1..], got + f.payload, more, n);
      } else {
        assert more + (got + f.payload[..need]) == more + got + f.payload[..need];
      }
    }
  }

  lemma {:induction false} GatherInTwo(stream: seq<Frame>, got: bytes, m: nat, n: nat)
    requires |got| <= m && Gather(stream, got, m).0.Ok?
    ensures var (r, left) := Gather(stream, got, m);
      Gather(stream, got, m + n) == Gather(left, r.value, m + n)
    decreases |stream|
  {
    if |got| < m {
      var f, need := stream[0], m - |got|;
      if |f.payload| <= need {
        GatherInTwo(stream[1..], got + f.payload, m, n);
      } else {
        var left := [f.(payload := f.payload[need..])] + stream[1..];
        assert left[0].payload == f.payload[need..] && left[1..] == stream[1..];
        if |f.payload| <= need + n {
          assert got + f.payload[..need] + f.payload[need..] == got + f.payload;
        } else {
          assert got + f.payload[..need] + f.payload[need..][..n] == got + f.payload[..need + n];
          assert f.payload[need..][n..] == f.payload[need + n..];
        }
      }
    }
  }

  /** Two exact reads leave a socket where one of both sizes does. */
  lemma {:induction false} ExactInTwo(w: Wire, m: nat, n: nat)
    requires w.kind.Socket? && ReadExactlyFrom(w, m).0.Ok?
    ensures ReadExactlyFrom(ReadExactlyFrom(w, m).1, n).1 == ReadExactlyFrom(w, m + n).1
  {
    var (r, left) := Gather(w.stream, [], m);
    GatherInTwo(w.stream, [], m, n);
    GatherFrom(left, [], r.value, n);
    assert r.value + [] == r.value;
  }
}
