/**
 DNS messages (section 4.1 of RFC 1035): building a query, and the parsers for
 queries and responses, against a serialiser for whole messages.
 */
module DnsMessage {
  import opened Bytes
  import opened Address
  import opened DnsName

  const TYPE_A: u16 := 1
  const TYPE_AAAA: u16 := 28
  const CLASS_IN: u16 := 1
  const HEADER: nat := 12
  const RECURSION_DESIRED: u16 := 0x0100

  // ---- The wire format ----

  datatype Question = Question(name: Name, kind: u16, klass: u16)

  datatype Record = Record(name: Name, kind: u16, klass: u16, ttl: Octets4, rdata: bytes)

  /** `rest` holds the authority and additional sections, and anything behind them. */
  datatype Message = Message(
    id: u16, flags: u16,
    questions: seq<Question>, answers: seq<Record>,
    nscount: u16, arcount: u16, rest: bytes)

  predicate ValidQuestions(qs: seq<Question>) { forall q <- qs :: ValidName(q.name) }

  predicate ValidRecord(r: Record) { ValidName(r.name) && |r.rdata| < 0x1_0000 }

  predicate ValidRecords(rs: seq<Record>) { forall r <- rs :: ValidRecord(r) }

  predicate ValidMessage(m: Message) {
    && ValidQuestions(m.questions) && |m.questions| < 0x1_0000
    && ValidRecords(m.answers) && |m.answers| < 0x1_0000
  }

  function SerQuestions(qs: seq<Question>): bytes
    requires ValidQuestions(qs)
  {
    if qs == [] then []
    else SerName(qs[0].name) + (U16(qs[0].kind) + U16(qs[0].klass)) + SerQuestions(qs[1..])
  }

  function RecordFields(r: Record): bytes
    requires ValidRecord(r)
  {
    U16(r.kind) + (U16(r.klass) + (r.ttl + (U16(|r.rdata|) + r.rdata)))
  }

  function SerRecord(r: Record): bytes
    requires ValidRecord(r)
  {
    SerName(r.name) + RecordFields(r)
  }

  function SerRecords(rs: seq<Record>): bytes
    requires ValidRecords(rs)
  {
    if rs == [] then [] else SerRecord(rs[0]) + SerRecords(rs[1..])
  }

  function SerHeader(id: u16, flags: u16, qd: u16, an: u16, ns: u16, ar: u16): (b: bytes)
    ensures |b| == HEADER && ReadU16(b, 4) == qd && ReadU16(b, 6) == an
  {
    U16(id) + U16(flags) + U16(qd) + U16(an) + U16(ns) + U16(ar)
  }

  function SerMessage(m: Message): bytes
    requires ValidMessage(m)
  {
    SerHeader(m.id, m.flags, |m.questions|, |m.answers|, m.nscount, m.arcount)
    + (SerQuestions(m.questions) + (SerRecords(m.answers) + m.rest))
  }

  /** The address a resource record holds: only class IN, types A and AAAA, full length. */
  function AddressOf(kind: u16, klass: u16, rdata: bytes): (ips: seq<Ip>)
    ensures |ips| <= 1 && 4 * |ips| <= |rdata|
  {
    if kind == TYPE_A && klass == CLASS_IN && |rdata| == 4 then [V4(rdata)]
    else if kind == TYPE_AAAA && klass == CLASS_IN && |rdata| == 16 then [V6(rdata)]
    else []
  }

  /** What an answer contributes: type 1 or 28, class 1, and 4 or 16 octets of data. */
  function Held(r: Record): seq<Ip> {
    if r.klass != 1 then []
    else if r.kind == 1 && |r.rdata| == 4 then [V4(r.rdata)]
    else if r.kind == 28 && |r.rdata| == 16 then [V6(r.rdata)]
    else []
  }

  function Addresses(rs: seq<Record>): seq<Ip> {
    if rs == [] then [] else Held(rs[0]) + Addresses(rs[1..])
  }

  // ---- parse_dns_response ----

  function AfterQuestions(packet: bytes, n: nat, offset: nat): (r: Result<nat>)
    ensures r.Ok? && offset <= |packet| ==> offset + 5 * n <= r.value <= |packet|
  {
    if n == 0 then Ok(offset)
    else match AfterName(packet, offset)
      case Err(e) => Err(e)
      case Ok(o) =>
        if o + 4 > |packet| then Err(BadPacket) else AfterQuestions(packet, n - 1, o + 4)
  }

  /** The offset behind the record at `offset`, and the address it holds. */
  function ReadRecord(packet: bytes, offset: nat): (r: Result<(nat, seq<Ip>)>)
    ensures r.Ok? ==> |r.value.1| <= 1 && offset + 11 + 4 * |r.value.1| <= r.value.0 <= |packet|
  {
    match AfterName(packet, offset)
    case Err(e) => Err(e)
    case Ok(o) =>
      if o + 10 > |packet| then Err(BadPacket)
      else
        var end := o + 10 + ReadU16(packet, o + 8);
        if end > |packet| then Err(BadPacket)
        else Ok((end, AddressOf(ReadU16(packet, o), ReadU16(packet, o + 2), packet[o + 10..end])))
  }

  function Collect(done: seq<Ip>, rest: Result<seq<Ip>>): Result<seq<Ip>> {
    if rest.Ok? then Ok(done + rest.value) else rest
  }

  function ReadAnswers(packet: bytes, n: nat, offset: nat): Result<seq<Ip>> {
    if n == 0 then Ok([])
    else match ReadRecord(packet, offset)
      case Err(e) => Err(e)
      case Ok((next, ips)) => Collect(ips, ReadAnswers(packet, n - 1, next))
  }

  function Response(packet: bytes): Result<seq<Ip>> {
    if |packet| < HEADER then Err(BadPacket)
    else match AfterQuestions(packet, ReadU16(packet, 4), HEADER)
      case Err(e) => Err(e)
      case Ok(offset) => ReadAnswers(packet, ReadU16(packet, 6), offset)
  }

  lemma CollectTwice(a: seq<Ip>, b: seq<Ip>, r: Result<seq<Ip>>)
    ensures Collect(a, Collect(b, r)) == Collect(a + b, r)
  {
    if r.Ok? { assert a + (b + r.value) == a + b + r.value; }
  }

  lemma CollectNothing(r: Result<seq<Ip>>)
    ensures Collect([], r) == r
    ensures forall done: seq<Ip> :: Collect(done, Ok([])) == Ok(done)
  {
    if r.Ok? { assert [] + r.value == r.value; }
    forall done: seq<Ip> ensures Collect(done, Ok([])) == Ok(done) { assert done + [] == done; }
  }

  method ParseDnsResponse(packet: bytes) returns (r: Result<seq<Ip>>)
    ensures r == Response(packet)
  {
    if |packet| < HEADER { return Err(BadPacket); }
    var qdcount := ReadU16(packet, 4);
    var ancount := ReadU16(packet, 6);
    var questionsEnd := SkipQuestions(packet, qdcount);
    if questionsEnd.Err? { return Err(questionsEnd.why); }
    r := CollectAnswers(packet, ancount, questionsEnd.value);
  }

  /** The question loop of `parse_dns_response`. */
  method SkipQuestions(packet: bytes, qdcount: u16) returns (r: Result<nat>)
    requires |packet| >= HEADER
    ensures r == AfterQuestions(packet, qdcount, HEADER)
  {
    var offset: nat := HEADER;
    for i := 0 to qdcount
      invariant AfterQuestions(packet, qdcount, HEADER) == AfterQuestions(packet, qdcount - i, offset)
    {
      var name := SkipName(packet, offset);
      if name.Err? { return Err(name.why); }
      offset := name.value;
      if offset + 4 > |packet| { return Err(BadPacket); }
      offset := offset + 4;
    }
    return Ok(offset);
  }

  /** The body of the answer loop: one record, and the address it contributes. */
  method ReadAnswer(packet: bytes, start: nat) returns (r: Result<(nat, seq<Ip>)>)
    ensures r == ReadRecord(packet, start)
  {
    var name := SkipName(packet, start);
    if name.Err? { return Err(name.why); }
    var offset: nat := name.value;
    if offset + 10 > |packet| { return Err(BadPacket); }
    var kind := ReadU16(packet, offset);
    offset := offset + 2;
    var klass := ReadU16(packet, offset);
    offset := offset + 2;
    offset := offset + 4;
    var rdlength := ReadU16(packet, offset);
    offset := offset + 2;
    if offset + rdlength > |packet| { return Err(BadPacket); }
    var result: seq<Ip> := [];
    if kind == TYPE_A && klass == CLASS_IN && rdlength == 4 {
      result := result + [V4(packet[offset..offset + 4])];
    }
    if kind == TYPE_AAAA && klass == CLASS_IN && rdlength == 16 {
      result := result + [V6(packet[offset..offset + 16])];
    }
    assert result == AddressOf(kind, klass, packet[offset..offset + rdlength]);
    offset := offset + rdlength;
    return Ok((offset, result));
  }

  /** The answer loop of `parse_dns_response`. */
  method CollectAnswers(packet: bytes, ancount: u16, start: nat) returns (r: Result<seq<Ip>>)
    ensures r == ReadAnswers(packet, ancount, start)
  {
    var offset: nat := start;
    var result: seq<Ip> := [];
    CollectNothing(ReadAnswers(packet, ancount, start));
    for i := 0 to ancount
      invariant ReadAnswers(packet, ancount, start)
             == Collect(result, ReadAnswers(packet, ancount - i, offset))
    {
      var answer := ReadAnswer(packet, offset);
      if answer.Err? { return Err(answer.why); }
      CollectTwice(result, answer.value.1, ReadAnswers(packet, ancount - i - 1, answer.value.0));
      offset, result := answer.value.0, result + answer.value.1;
    }
    return Ok(result);
  }

  // ---- Exactness ----

  function SerQuestion(q: Question): bytes
    requires ValidName(q.name)
  {
    SerName(q.name) + (U16(q.kind) + U16(q.klass))
  }

  lemma QuestionsCons(q: Question, rest: seq<Question>)
    requires ValidName(q.name) && ValidQuestions(rest)
    ensures ValidQuestions([q] + rest) && SerQuestions([q] + rest) == SerQuestion(q) + SerQuestions(rest)
    ensures SerQuestions([]) == []
  {
    assert ([q] + rest)[1..] == rest;
  }

  lemma QuestionIsSkipped(packet: bytes, p: nat, n: nat, q: Question)
    requires n > 0 && ValidName(q.name) && At(packet, p, SerQuestion(q))
    ensures AfterQuestions(packet, n, p) == AfterQuestions(packet, n - 1, p + |SerQuestion(q)|)
  {
    var fixed := U16(q.kind) + U16(q.klass);
    AtBound(packet, p, SerQuestion(q));
    hide At;
    AtConcat(packet, p, SerName(q.name), fixed);
    NameIsSkipped(packet, p, q.name);
  }

  lemma AfterNoQuestions(packet: bytes, p: nat)
    ensures AfterQuestions(packet, 0, p) == Ok(p) && ValidQuestions([]) && SerQuestions([]) == []
  {
  }

  lemma QuestionsSplit(qs: seq<Question>)
    requires ValidQuestions(qs) && qs != []
    ensures ValidName(qs[0].name) && ValidQuestions(qs[1..])
    ensures SerQuestions(qs) == SerQuestion(qs[0]) + SerQuestions(qs[1..])
  {
  }

  lemma {:induction false} QuestionsAreSkipped(packet: bytes, p: nat, qs: seq<Question>, tail: bytes)
    requires ValidQuestions(qs) && At(packet, p, SerQuestions(qs) + tail)
    ensures AfterQuestions(packet, |qs|, p) == Ok(p + |SerQuestions(qs)|)
    ensures At(packet, p + |SerQuestions(qs)|, tail)
    decreases |qs|
  {
    hide *;
    if qs == [] {
      AfterNoQuestions(packet, p);
      AtNothing(packet, p, tail);
    } else {
      QuestionsSplit(qs);
      var q, rest := qs[0], qs[1..];
      Assoc(SerQuestion(q), SerQuestions(rest), tail);
      AtPeel(packet, p, SerQuestion(q), SerQuestions(rest) + tail);
      QuestionIsSkipped(packet, p, |qs|, q);
      QuestionsAreSkipped(packet, p + |SerQuestion(q)|, rest, tail);
    }
  }

  lemma FieldsAreRead(packet: bytes, o: nat, r: Record)
    requires ValidRecord(r) && At(packet, o, RecordFields(r))
    ensures o + 10 + |r.rdata| <= |packet|
    ensures ReadU16(packet, o) == r.kind && ReadU16(packet, o + 2) == r.klass
    ensures ReadU16(packet, o + 8) == |r.rdata| && packet[o + 10..o + 10 + |r.rdata|] == r.rdata
  {
    AtLength(packet, o, r.kind, U16(r.klass) + (r.ttl + (U16(|r.rdata|) + r.rdata)));
    AtLength(packet, o + 2, r.klass, r.ttl + (U16(|r.rdata|) + r.rdata));
    AtConcat(packet, o + 4, r.ttl, U16(|r.rdata|) + r.rdata);
    AtLength(packet, o + 8, |r.rdata|, r.rdata);
  }

  lemma RecordIsRead(packet: bytes, p: nat, r: Record, tail: bytes)
    requires ValidRecord(r) && At(packet, p, SerRecord(r) + tail)
    ensures var next := p + |SerRecord(r)|;
      && ReadRecord(packet, p) == Ok((next, Held(r)))
      && At(packet, next, tail)
  {
    hide At;
    var name, fields := SerName(r.name), RecordFields(r);
    AtConcat(packet, p, name + fields, tail);
    AtConcat(packet, p, name, fields);
    NameIsSkipped(packet, p, r.name);
    FieldsAreRead(packet, p + |name|, r);
  }

  lemma RecordsCons(r: Record, rest: seq<Record>)
    requires ValidRecord(r) && ValidRecords(rest)
    ensures ValidRecords([r] + rest) && SerRecords([r] + rest) == SerRecord(r) + SerRecords(rest)
    ensures Addresses([r] + rest) == Held(r) + Addresses(rest)
  {
    assert ([r] + rest)[1..] == rest;
  }

  lemma AnswersNone(packet: bytes, p: nat)
    ensures ReadAnswers(packet, 0, p) == Ok(Addresses([])) && ValidRecords([]) && SerRecords([]) == []
  {
  }

  lemma AnswersCons(packet: bytes, n: nat, p: nat, next: nat, ips: seq<Ip>, more: seq<Ip>)
    requires n > 0 && ReadRecord(packet, p) == Ok((next, ips)) && ReadAnswers(packet, n - 1, next) == Ok(more)
    ensures ReadAnswers(packet, n, p) == Ok(ips + more)
  {
  }

  lemma RecordsSplit(rs: seq<Record>)
    requires ValidRecords(rs) && rs != []
    ensures ValidRecord(rs[0]) && ValidRecords(rs[1..])
    ensures SerRecords(rs) == SerRecord(rs[0]) + SerRecords(rs[1..])
    ensures Addresses(rs) == Held(rs[0]) + Addresses(rs[1..])
  {
  }

  lemma {:induction false} RecordsAreRead(packet: bytes, p: nat, rs: seq<Record>, tail: bytes)
    requires ValidRecords(rs) && At(packet, p, SerRecords(rs) + tail)
    ensures ReadAnswers(packet, |rs|, p) == Ok(Addresses(rs))
    decreases |rs|
  {
    hide *;
    if rs == [] {
      AnswersNone(packet, p);
    } else {
      RecordsSplit(rs);
      var r, rest := rs[0], rs[1..];
      Assoc(SerRecord(r), SerRecords(rest), tail);
      RecordIsRead(packet, p, r, SerRecords(rest) + tail);
      var next := p + |SerRecord(r)|;
      RecordsAreRead(packet, next, rest, tail);
      AnswersCons(packet, |rs|, p, next, Held(r), Addresses(rest));
    }
  }

  /**
   Every serialised message parses to exactly the class IN addresses of its
   answer section, in order, whatever its authority and additional sections are.
   */
  lemma ResponseIsExact(packet: bytes, m: Message)
    requires ValidMessage(m) && packet == SerMessage(m)
    ensures Response(packet) == Ok(Addresses(m.answers))
  {
    var header := SerHeader(m.id, m.flags, |m.questions|, |m.answers|, m.nscount, m.arcount);
    var tail := SerRecords(m.answers) + m.rest;
    hide *;
    HeaderIsRead(packet, m);
    AtBehind(header, SerQuestions(m.questions) + tail);
    QuestionsAreSkipped(packet, HEADER, m.questions, tail);
    RecordsAreRead(packet, HEADER + |SerQuestions(m.questions)|, m.answers, m.rest);
  }

  lemma HeaderIsRead(packet: bytes, m: Message)
    requires ValidMessage(m) && packet == SerMessage(m)
    ensures ValidQuestions(m.questions) && |m.questions| < 0x1_0000 && ValidRecords(m.answers) && |m.answers| < 0x1_0000
    ensures var header := SerHeader(m.id, m.flags, |m.questions|, |m.answers|, m.nscount, m.arcount);
      |header| == HEADER
      && packet == header + (SerQuestions(m.questions) + (SerRecords(m.answers) + m.rest))
    ensures var end := AfterQuestions(packet, |m.questions|, HEADER);
      Response(packet) == if end.Err? then Err(end.why) else ReadAnswers(packet, |m.answers|, end.value)
  {
    hide AfterQuestions, ReadAnswers, SerQuestions, SerRecords, SerHeader, ValidQuestions, ValidRecords;
    var header := SerHeader(m.id, m.flags, |m.questions|, |m.answers|, m.nscount, m.arcount);
    CountsBehind(header, SerQuestions(m.questions) + (SerRecords(m.answers) + m.rest));
  }

  lemma CountsBehind(header: bytes, body: bytes)
    requires |header| == HEADER
    ensures ReadU16(header + body, 4) == ReadU16(header, 4) && ReadU16(header + body, 6) == ReadU16(header, 6)
  {
  }

  lemma {:induction false} AddressesAppend(a: seq<Record>, b: seq<Record>)
    ensures Addresses(a + b) == Addresses(a) + Addresses(b)
    decreases |a|
  {
    if a == [] {
      assert a + b == b;
    } else {
      assert (a + b)[1..] == a[1..] + b;
      AddressesAppend(a[1..], b);
    }
  }

  /**
   Each answer contributes on its own: in a message whose answers are those before, one
   record and those after it, its data are one address if it is of class 1 and of type 1
   with four octets or of type 28 with sixteen, and no address otherwise.
   */
  lemma {:induction false} EachAnswerCounts(m: Message, before: seq<Record>, r: Record, after: seq<Record>)
    requires ValidMessage(m) && m.answers == before + [r] + after
    ensures var own := if r.kind == 1 && r.klass == 1 && |r.rdata| == 4 then [V4(r.rdata)]
                       else if r.kind == 28 && r.klass == 1 && |r.rdata| == 16 then [V6(r.rdata)]
                       else [];
      Response(SerMessage(m)) == Ok(Addresses(before) + own + Addresses(after))
  {
    hide Response, SerMessage;
    ResponseIsExact(SerMessage(m), m);
    AddressesAppend(before + [r], after);
    AddressesAppend(before, [r]);
    assert [r][1..] == [] && Addresses([r]) == Held(r) + Addresses([]) && Held(r) + [] == Held(r);
    assert Addresses(m.answers) == Addresses(before) + Held(r) + Addresses(after);
  }

  /** A response for "a", whose answer names it by a pointer and holds 10.0.0.1. */
  lemma {:induction false} KnownResponse()
    ensures Response([0x12, 0x34, 0x81, 0x80, 0, 1, 0, 1, 0, 0, 0, 0]
                     + ([1, 0x61, 0, 0, 1, 0, 1] + [0xC0, 0x0C, 0, 1, 0, 1, 0, 0, 0, 60, 0, 4, 10, 0, 0, 1]))
         == Ok([V4([10, 0, 0, 1])])
  {
    var q := Question(Name([[0x61]], Root), 1, 1);
    var r := Record(Name([], Pointer(0xC0, 0x0C)), 1, 1, [0, 0, 0, 60], [10, 0, 0, 1]);
    var m := Message(0x1234, 0x8180, [q], [r], 0, 0, []);
    KnownMessage(q, r, m);
    hide *;
    ResponseIsExact(SerMessage(m), m);
  }

  lemma KnownMessage(q: Question, r: Record, m: Message)
    requires q == Question(Name([[0x61]], Root), 1, 1)
    requires r == Record(Name([], Pointer(0xC0, 0x0C)), 1, 1, [0, 0, 0, 60], [10, 0, 0, 1])
    requires m == Message(0x1234, 0x8180, [q], [r], 0, 0, [])
    ensures ValidMessage(m) && Addresses(m.answers) == [V4([10, 0, 0, 1])]
    ensures SerMessage(m)
         == [0x12, 0x34, 0x81, 0x80, 0, 1, 0, 1, 0, 0, 0, 0]
            + ([1, 0x61, 0, 0, 1, 0, 1] + [0xC0, 0x0C, 0, 1, 0, 1, 0, 0, 0, 60, 0, 4, 10, 0, 0, 1])
  {
    KnownQuestion(q);
    KnownRecord(r);
    hide SerQuestions, SerRecords, SerQuestion, SerRecord, ValidName, ValidRecord;
    assert [q] == [q] + [] && [r] == [r] + [];
    QuestionsCons(q, []);
    RecordsCons(r, []);
    AnswersNone([], 0);
    assert SerQuestions([q]) == SerQuestion(q) && SerRecords([r]) + [] == SerRecord(r);
    assert SerHeader(0x1234, 0x8180, 1, 1, 0, 0) == [0x12, 0x34, 0x81, 0x80, 0, 1, 0, 1, 0, 0, 0, 0];
  }

  lemma KnownQuestion(q: Question)
    requires q == Question(Name([[0x61]], Root), 1, 1)
    ensures ValidName(q.name) && SerQuestion(q) == [1, 0x61, 0, 0, 1, 0, 1]
  {
    SerLabelsCons([0x61], []);
  }

  lemma KnownRecord(r: Record)
    requires r == Record(Name([], Pointer(0xC0, 0x0C)), 1, 1, [0, 0, 0, 60], [10, 0, 0, 1])
    ensures ValidRecord(r) && SerRecord(r) == [0xC0, 0x0C, 0, 1, 0, 1, 0, 0, 0, 60, 0, 4, 10, 0, 0, 1]
  {
    assert SerLabels([]) == [];
  }

  // ---- And nothing else is accepted ----

  lemma SkippedIsQuestion(packet: bytes, n: nat, p: nat) returns (q: Question)
    requires n > 0 && AfterQuestions(packet, n, p).Ok?
    ensures ValidName(q.name) && At(packet, p, SerQuestion(q)) && p + |SerQuestion(q)| <= |packet|
    ensures AfterQuestions(packet, n, p) == AfterQuestions(packet, n - 1, p + |SerQuestion(q)|)
  {
    hide At, SerName;
    var name := SkippedIsName(packet, p);
    var o := p + |SerName(name)|;
    q := Question(name, ReadU16(packet, o), ReadU16(packet, o + 2));
    AtReadU16(packet, o);
    AtReadU16(packet, o + 2);
    AtJoin(packet, o, U16(q.kind), U16(q.klass));
    AtJoin(packet, p, SerName(name), U16(q.kind) + U16(q.klass));
  }

  lemma {:induction false} SkippedAreQuestions(packet: bytes, n: nat, p: nat) returns (qs: seq<Question>)
    requires AfterQuestions(packet, n, p).Ok? && p <= |packet|
    ensures |qs| == n && ValidQuestions(qs) && At(packet, p, SerQuestions(qs))
    ensures AfterQuestions(packet, n, p) == Ok(p + |SerQuestions(qs)|)
    decreases n
  {
    hide *;
    if n == 0 {
      AfterNoQuestions(packet, p);
      AtEmpty(packet, p);
      qs := [];
    } else {
      var q := SkippedIsQuestion(packet, n, p);
      var rest := SkippedAreQuestions(packet, n - 1, p + |SerQuestion(q)|);
      qs := [q] + rest;
      QuestionsCons(q, rest);
      AtJoin(packet, p, SerQuestion(q), SerQuestions(rest));
    }
  }

  lemma FieldsAreThere(packet: bytes, o: nat, r: Record)
    requires ValidRecord(r) && o + 10 + |r.rdata| <= |packet|
    requires r.kind == ReadU16(packet, o) && r.klass == ReadU16(packet, o + 2)
    requires r.ttl == packet[o + 4..o + 8] && |r.rdata| == ReadU16(packet, o + 8)
    requires r.rdata == packet[o + 10..o + 10 + |r.rdata|]
    ensures At(packet, o, RecordFields(r))
  {
    hide At;
    AtReadU16(packet, o);
    AtReadU16(packet, o + 2);
    AtSlice(packet, o + 4, o + 8);
    AtReadU16(packet, o + 8);
    AtSlice(packet, o + 10, o + 10 + |r.rdata|);
    AtJoin(packet, o + 8, U16(|r.rdata|), r.rdata);
    AtJoin(packet, o + 4, r.ttl, U16(|r.rdata|) + r.rdata);
    AtJoin(packet, o + 2, U16(r.klass), r.ttl + (U16(|r.rdata|) + r.rdata));
    AtJoin(packet, o, U16(r.kind), U16(r.klass) + (r.ttl + (U16(|r.rdata|) + r.rdata)));
  }

  lemma ReadIsRecord(packet: bytes, p: nat) returns (r: Record)
    requires ReadRecord(packet, p).Ok?
    ensures ValidRecord(r) && At(packet, p, SerRecord(r))
    ensures ReadRecord(packet, p) == Ok((p + |SerRecord(r)|, Held(r)))
  {
    hide At, U16, SerName;
    var name := SkippedIsName(packet, p);
    var o := p + |SerName(name)|;
    var end := o + 10 + ReadU16(packet, o + 8);
    r := Record(name, ReadU16(packet, o), ReadU16(packet, o + 2), packet[o + 4..o + 8], packet[o + 10..end]);
    FieldsAreThere(packet, o, r);
    AtJoin(packet, p, SerName(name), RecordFields(r));
  }

  lemma AnswersStep(packet: bytes, n: nat, p: nat)
    requires n > 0 && ReadAnswers(packet, n, p).Ok?
    ensures ReadRecord(packet, p).Ok?
    ensures var (next, ips) := ReadRecord(packet, p).value;
      && ReadAnswers(packet, n - 1, next).Ok?
      && ReadAnswers(packet, n, p).value == ips + ReadAnswers(packet, n - 1, next).value
  {
  }

  /** One more record in front of those already recovered. */
  lemma RecordInFront(packet: bytes, n: nat, p: nat, r: Record, rest: seq<Record>)
    requires n > 0 && |rest| == n - 1 && ValidRecord(r) && ValidRecords(rest)
    requires At(packet, p, SerRecord(r)) && At(packet, p + |SerRecord(r)|, SerRecords(rest))
    requires ReadRecord(packet, p) == Ok((p + |SerRecord(r)|, Held(r)))
    requires ReadAnswers(packet, n - 1, p + |SerRecord(r)|) == Ok(Addresses(rest))
    ensures ValidRecords([r] + rest) && At(packet, p, SerRecords([r] + rest))
    ensures ReadAnswers(packet, n, p) == Ok(Addresses([r] + rest))
  {
    hide At, SerRecord, ValidRecord, Held, ReadRecord, ReadAnswers;
    AnswersCons(packet, n, p, p + |SerRecord(r)|, Held(r), Addresses(rest));
    RecordsCons(r, rest);
    hide *;
    AtJoin(packet, p, SerRecord(r), SerRecords(rest));
  }

  lemma {:induction false} ReadAreRecords(packet: bytes, n: nat, p: nat) returns (rs: seq<Record>)
    requires ReadAnswers(packet, n, p).Ok? && p <= |packet|
    ensures |rs| == n && ValidRecords(rs) && At(packet, p, SerRecords(rs))
    ensures ReadAnswers(packet, n, p) == Ok(Addresses(rs))
    decreases n
  {
    hide *;
    if n == 0 {
      AnswersNone(packet, p);
      AtEmpty(packet, p);
      rs := [];
    } else {
      AnswersStep(packet, n, p);
      var r := ReadIsRecord(packet, p);
      var rest := ReadAreRecords(packet, n - 1, p + |SerRecord(r)|);
      RecordInFront(packet, n, p, r, rest);
      rs := [r] + rest;
    }
  }

  lemma HeaderOf(packet: bytes)
    requires HEADER <= |packet|
    ensures packet[..HEADER] == SerHeader(ReadU16(packet, 0), ReadU16(packet, 2), ReadU16(packet, 4),
                                          ReadU16(packet, 6), ReadU16(packet, 8), ReadU16(packet, 10))
  {
  }

  lemma Sections(packet: bytes, a: nat, qs: bytes, rs: bytes)
    requires a <= |packet| && At(packet, a, qs) && At(packet, a + |qs|, rs)
    ensures a + |qs| + |rs| <= |packet|
    ensures packet == packet[..a] + (qs + (rs + packet[a + |qs| + |rs|..]))
  {
  }

  /** Whatever the parser accepts is a serialised message with those addresses. */
  lemma AcceptedIsMessage(packet: bytes) returns (m: Message)
    requires Response(packet).Ok?
    ensures ValidMessage(m) && packet == SerMessage(m) && Response(packet) == Ok(Addresses(m.answers))
  {
    hide At, SerHeader, ReadAnswers, SerQuestions, SerRecords, Addresses;
    HeaderOf(packet);
    var qs := SkippedAreQuestions(packet, ReadU16(packet, 4), HEADER);
    var p := HEADER + |SerQuestions(qs)|;
    var rs := ReadAreRecords(packet, ReadU16(packet, 6), p);
    Sections(packet, HEADER, SerQuestions(qs), SerRecords(rs));
    var rest := packet[p + |SerRecords(rs)|..];
    m := Message(ReadU16(packet, 0), ReadU16(packet, 2), qs, rs, ReadU16(packet, 8), ReadU16(packet, 10), rest);
  }

  /** `parse_dns_response` accepts exactly the serialised messages. */
  lemma MessagesExactly(packet: bytes)
    ensures Response(packet).Ok? <==> exists m :: ValidMessage(m) && packet == SerMessage(m)
  {
    if Response(packet).Ok? {
      var m := AcceptedIsMessage(packet);
    }
    if m :| ValidMessage(m) && packet == SerMessage(m) {
      ResponseIsExact(packet, m);
    }
  }

  // ---- Totality and the size of a result ----

  lemma {:induction false} AnswersFit(packet: bytes, n: nat, offset: nat)
    requires offset <= |packet| && ReadAnswers(packet, n, offset).Ok?
    ensures offset + 11 * n + 4 * |ReadAnswers(packet, n, offset).value| <= |packet|
    decreases n
  {
    if n > 0 {
      AnswersFit(packet, n - 1, ReadRecord(packet, offset).value.0);
    }
  }

  /** On every octet sequence: an accepted packet is long enough for what it declares. */
  lemma ResponseFits(packet: bytes)
    requires Response(packet).Ok?
    ensures HEADER + 5 * ReadU16(packet, 4) + 11 * ReadU16(packet, 6) + 4 * |Response(packet).value|
         <= |packet|
  {
    var offset := AfterQuestions(packet, ReadU16(packet, 4), HEADER).value;
    AnswersFit(packet, ReadU16(packet, 6), offset);
  }

  // ---- build_dns_query and parse_dns_query ----

  function QueryHeader(id: u16): bytes { SerHeader(id, RECURSION_DESIRED, 1, 0, 0, 0) }

  function QueryType(v6: bool): u16 { if v6 then TYPE_AAAA else TYPE_A }

  function Query(id: u16, domain: bytes, v6: bool): Result<bytes> {
    match Encode(domain)
    case Err(e) => Err(e)
    case Ok(qname) => Ok(QueryHeader(id) + (qname + (U16(QueryType(v6)) + U16(CLASS_IN))))
  }

  /** The random id is a parameter. */
  method BuildDnsQuery(id: u16, domain: bytes, v6: bool) returns (r: Result<bytes>)
    ensures r == Query(id, domain, v6)
  {
    var packet: bytes := U16(id);
    packet := packet + U16(0x0100);
    packet := packet + U16(1);
    packet := packet + U16(0);
    packet := packet + U16(0);
    packet := packet + U16(0);
    var qname := EncodeQname(domain);
    if qname.Err? { return Err(qname.why); }
    packet := packet + qname.value;
    if v6 {
      packet := packet + U16(28);
    } else {
      packet := packet + U16(1);
    }
    packet := packet + U16(1);
    assert packet == QueryHeader(id) + (qname.value + (U16(QueryType(v6)) + U16(CLASS_IN)));
    return Ok(packet);
  }

  function QueryDomain(data: bytes): Result<bytes> {
    if |data| < HEADER then Err(BadPacket) else ReadDomain(data, HEADER, [])
  }

  method ParseDnsQuery(data: bytes) returns (r: Result<bytes>)
    ensures r == QueryDomain(data)
  {
    if |data| < HEADER { return Err(BadPacket); }
    var pos: nat := HEADER;
    var domain: bytes := [];
    while true
      invariant ReadDomain(data, HEADER, []) == ReadDomain(data, pos, domain)
      decreases |data| - pos
    {
      if pos >= |data| { return Err(BadPacket); }
      var len := data[pos] as nat;
      pos := pos + 1;
      if len == 0 { break; }
      if pos + len > |data| { return Err(BadPacket); }
      ghost var before := domain;
      if domain != [] { domain := domain + [DOT]; }
      domain := domain + data[pos..pos + len];
      assert domain == Dotted(before, data[pos..pos + len]);
      pos := pos + len;
    }
    return Ok(domain);
  }

  /** A query octet by octet: recursion desired, one question, no other section. */
  lemma {:induction false} QueryOctets(id: u16, domain: bytes, v6: bool)
    requires Encode(domain).Ok?
    ensures Query(id, domain, v6)
         == Ok([id / 0x100, id % 0x100, 1, 0, 0, 1, 0, 0, 0, 0, 0, 0] + Encode(domain).value
               + [0, if v6 then 28 else 1, 0, 1])
  {
    assert QueryHeader(id) == [id / 0x100, id % 0x100, 1, 0, 0, 1, 0, 0, 0, 0, 0, 0];
    Assoc(QueryHeader(id), Encode(domain).value, [0, if v6 then 28 else 1, 0, 1]);
    assert U16(QueryType(v6)) + U16(CLASS_IN) == [0, if v6 then 28 else 1, 0, 1];
  }

  /** The query built for a spelled domain is a well-formed message with that one question. */
  lemma QueryIsAMessage(id: u16, domain: bytes, v6: bool, ls: seq<bytes>, dots: nat)
    requires Spells(domain, ls, dots) && |domain| <= MAX_DOMAIN
    ensures var m := Message(id, RECURSION_DESIRED,
                             [Question(Name(ls, Root), QueryType(v6), CLASS_IN)], [], 0, 0, []);
      ValidMessage(m) && Query(id, domain, v6) == Ok(SerMessage(m))
  {
    SpelledIsEncoded(domain, ls, dots);
    var q := Question(Name(ls, Root), QueryType(v6), CLASS_IN);
    var fixed := U16(QueryType(v6)) + U16(CLASS_IN);
    assert SerQuestions([q]) == SerName(q.name) + fixed + SerQuestions([]);
    assert SerQuestions([q]) + (SerRecords([]) + []) == SerName(q.name) + fixed;
  }

  lemma RootedNameIsRead(data: bytes, p: nat, ls: seq<bytes>, tail: bytes)
    requires ls != [] && ValidLabels(ls) && At(data, p, SerName(Name(ls, Root)) + tail)
    ensures AfterName(data, p) == Ok(p + |SerName(Name(ls, Root))|)
    ensures ReadDomain(data, p, []) == Ok(Join(ls))
  {
    hide At;
    AtConcat(data, p, SerName(Name(ls, Root)), tail);
    NameIsSkipped(data, p, Name(ls, Root));
    LabelsAreRead(data, p, ls, []);
    assert Dotted([], Join(ls)) == Join(ls);
  }

  /**
   Whatever domain the builder accepts, the query parser gives it back without its
   trailing dots, and skipping the name lands four octets before the end.
   */
  lemma QueryRoundTrip(id: u16, domain: bytes, v6: bool)
    requires Query(id, domain, v6).Ok?
    ensures var packet := Query(id, domain, v6).value;
      && QueryDomain(packet) == Ok(StripDots(domain))
      && |packet| == HEADER + |StripDots(domain)| + 2 + 4
      && AfterName(packet, HEADER) == Ok(|packet| - 4)
  {
    hide At, Encode, StripDots, SerName, SerHeader, AfterName, ReadDomain, Join;
    var ls, dots := EncodedIsSpelled(domain);
    SpelledIsEncoded(domain, ls, dots);
    StripJoined(ls, dots);
    EncodedLength(domain);
    var tail := U16(QueryType(v6)) + U16(CLASS_IN);
    AtBehind(QueryHeader(id), SerName(Name(ls, Root)) + tail);
    RootedNameIsRead(Query(id, domain, v6).value, HEADER, ls, tail);
  }

  /** A domain without a trailing dot comes back unchanged. */
  lemma QueryRoundTripExact(id: u16, domain: bytes, v6: bool)
    requires Query(id, domain, v6).Ok? && domain[|domain| - 1] != DOT
    ensures QueryDomain(Query(id, domain, v6).value) == Ok(domain)
  {
    QueryRoundTrip(id, domain, v6);
  }

  /**
   What `parse_dns_query` accepts: behind the header, labels of up to 255 octets and the
   empty one that ends them, whatever follows; it reads them with dots between.
   */
  lemma {:induction false} QueriesExactly(data: bytes)
    ensures QueryDomain(data).Ok?
       <==> 12 <= |data| && exists ls :: RawValid(ls) && At(data, 12, RawLabels(ls))
    ensures forall ls ::
      12 <= |data| && RawValid(ls) && At(data, 12, RawLabels(ls)) ==> QueryDomain(data) == Ok(Join(ls))
  {
    hide At, ReadDomain, RawLabels, RawValid, Join, Dotted;
    if QueryDomain(data).Ok? {
      var ls := ReadIsRaw(data, 12, []);
    }
    forall ls | 12 <= |data| && RawValid(ls) && At(data, 12, RawLabels(ls))
      ensures QueryDomain(data) == Ok(Join(ls))
    {
      RawIsRead(data, 12, ls, []);
      DottedNothing(ls);
    }
  }
}
