/**
 Domain names on the DNS wire (sections 3.1 and 4.1.4 of RFC 1035): encoding a
 dotted text, skipping a possibly compressed name, and reading a name back.
 */
module DnsName {
  import opened Bytes

  const DOT: byte := 0x2E
  const MAX_DOMAIN: nat := 255
  const MAX_LABEL: nat := 63
  const COMPRESSED: byte := 0xC0

  // ---- The wire format ----

  datatype NameEnd = Root | Pointer(hi: byte, lo: byte)

  /** Labels ending in the root label or in a compression pointer. */
  datatype Name = Name(labels: seq<bytes>, end: NameEnd)

  predicate ValidLabel(l: bytes) { 1 <= |l| <= 63 }

  predicate ValidLabels(ls: seq<bytes>) { forall l <- ls :: ValidLabel(l) }

  predicate ValidName(n: Name) {
    ValidLabels(n.labels) && (n.end.Pointer? ==> 0xC0 <= n.end.hi)
  }

  function LabelBytes(l: bytes): bytes
    requires ValidLabel(l)
  {
    [|l| as byte] + l
  }

  function SerLabels(ls: seq<bytes>): bytes
    requires ValidLabels(ls)
  {
    if ls == [] then [] else LabelBytes(ls[0]) + SerLabels(ls[1..])
  }

  function SerEnd(e: NameEnd): bytes {
    match e
    case Root => [0]
    case Pointer(hi, lo) => [hi, lo]
  }

  function SerName(n: Name): bytes
    requires ValidName(n)
  {
    SerLabels(n.labels) + SerEnd(n.end)
  }

  // ---- Dotted text ----

  function Join(ls: seq<bytes>): bytes {
    if ls == [] then []
    else if |ls| == 1 then ls[0]
    else ls[0] + ([0x2E] + Join(ls[1..]))
  }

  /** Labels that a dotted text can spell. */
  predicate Spellable(ls: seq<bytes>) {
    ls != [] && ValidLabels(ls) && forall l <- ls :: 0x2E !in l
  }

  function Dots(n: nat): bytes { seq(n, _ => 0x2E) }

  function StripDots(text: bytes): bytes {
    if text != [] && text[|text| - 1] == 0x2E then StripDots(text[..|text| - 1]) else text
  }

  // ---- encodeQname ----

  /** The labels of `text`, encoded; a text that ends right after a dot has no last label. */
  function EncodeLabels(text: bytes): Result<bytes>
    decreases |text|
  {
    if text == [] then Ok([])
    else
      var dot := Find(text, [DOT], 0);
      var n := if dot.Some? then dot.value else |text|;
      if n == 0 || n > MAX_LABEL then Err(BadDomain)
      else if dot.None? then Ok(LabelBytes(text))
      else Prepend(LabelBytes(text[..n]), EncodeLabels(text[n + 1..]))
  }

  function Encode(domain: bytes): Result<bytes> {
    if domain == [] || |domain| > MAX_DOMAIN then Err(BadDomain)
    else
      var text := if domain[|domain| - 1] == DOT then domain[..|domain| - 1] else domain;
      if text == [] then Err(BadDomain)
      else match EncodeLabels(text)
        case Ok(labels) => Ok(labels + [0])
        case Err(e) => Err(e)
  }

  function Prepend(done: bytes, rest: Result<bytes>): Result<bytes> {
    if rest.Ok? then Ok(done + rest.value) else rest
  }

  lemma PrependTwice(a: bytes, b: bytes, r: Result<bytes>)
    ensures Prepend(a, Prepend(b, r)) == Prepend(a + b, r)
  {
    if r.Ok? { assert a + (b + r.value) == a + b + r.value; }
  }

  lemma FindInSuffix(s: bytes, pattern: bytes, start: nat)
    requires start <= |s|
    ensures var r, t := Find(s, pattern, start), Find(s[start..], pattern, 0);
      r.Some? == t.Some? && (r.Some? ==> r.value == start + t.value)
  {
    var r, t := Find(s, pattern, start), Find(s[start..], pattern, 0);
    forall j: nat ensures At(s[start..], j, pattern) == At(s, start + j, pattern) {
      if start + j + |pattern| <= |s| {
        assert s[start..][j..j + |pattern|] == s[start + j..start + j + |pattern|];
      }
    }
    if r.Some? { assert At(s[start..], r.value - start, pattern); }
    if t.Some? { assert At(s, start + t.value, pattern); }
  }

  /** One label of `text` from `start`, as the encoder sees it. */
  lemma EncodeOneLabel(text: bytes, start: nat)
    requires start < |text|
    ensures var dot := Find(text, [DOT], start);
      var end := if dot.Some? then dot.value else |text|;
      EncodeLabels(text[start..])
      == if end == start || end - start > MAX_LABEL then Err(BadDomain)
         else if dot.None? then Ok(LabelBytes(text[start..end]))
         else Prepend(LabelBytes(text[start..end]), EncodeLabels(text[dot.value + 1..]))
  {
    hide At;
    FindInSuffix(text, [DOT], start);
    var dot := Find(text, [DOT], start);
    if dot.Some? {
      var n := dot.value - start;
      assert text[start..][..n] == text[start..dot.value];
      assert text[start..][n + 1..] == text[dot.value + 1..];
    } else {
      assert text[start..] == text[start..|text|];
    }
  }

  /** The copying loop for one label (src/dns/message.cpp:45-48). */
  method WriteLabel(buffer: bytes, text: bytes, start: nat, end: nat) returns (r: bytes)
    requires start < end <= |text| && end - start <= MAX_LABEL
    ensures r == buffer + LabelBytes(text[start..end])
  {
    r := buffer + [(end - start) as byte];
    var i := start;
    while i < end
      invariant start <= i <= end
      invariant r == buffer + ([(end - start) as byte] + text[start..i])
    {
      r := r + [text[i]];
      i := i + 1;
    }
  }

  method EncodeQname(domain: bytes) returns (r: Result<bytes>)
    ensures r == Encode(domain)
  {
    if domain == [] { return Err(BadDomain); }
    if |domain| > MAX_DOMAIN { return Err(BadDomain); }
    var text := domain;
    if text[|text| - 1] == DOT { text := text[..|text| - 1]; }
    if text == [] { return Err(BadDomain); }
    r := EncodeText(text);
  }

  /** The loop of `encodeQname`, after the trailing dot has been dropped. */
  method EncodeText(text: bytes) returns (r: Result<bytes>)
    requires text != []
    ensures r == match EncodeLabels(text) case Ok(labels) => Ok(labels + [0]) case Err(e) => Err(e)
  {
    hide At;
    var start: nat := 0;
    var buffer: bytes := [];
    assert text[0..] == text;
    assert EncodeLabels(text).Ok? ==> [] + EncodeLabels(text).value == EncodeLabels(text).value;
    while start < |text|
      invariant start <= |text|
      invariant Prepend([], EncodeLabels(text)) == Prepend(buffer, EncodeLabels(text[start..]))
    {
      EncodeOneLabel(text, start);
      var dot := Find(text, [DOT], start);
      var end := if dot.None? then |text| else dot.value;
      var labelLength := end - start;
      if labelLength == 0 || labelLength > MAX_LABEL { return Err(BadDomain); }
      if dot.Some? { PrependTwice(buffer, LabelBytes(text[start..end]), EncodeLabels(text[dot.value + 1..])); }
      buffer := WriteLabel(buffer, text, start, end);
      if dot.None? { return Ok(buffer + [0]); }
      start := dot.value + 1;
    }
    assert text[start..] == [] && buffer + [] == buffer;
    return Ok(buffer + [0]);
  }

  // ---- Exactly which domains are accepted, and what they encode to ----

  lemma FirstDot(l: bytes, rest: bytes)
    requires DOT !in l
    ensures Find(l + [DOT] + rest, [DOT], 0) == Some(|l|)
    ensures Find(l, [DOT], 0) == None
  {
    var text := l + [DOT] + rest;
    assert text[|l|..|l| + 1] == [DOT];
    assert At(text, |l|, [DOT]);
    forall j: nat | j < |l| ensures !At(text, j, [DOT]) {
      assert l[j] in l && text[j..j + 1][0] == l[j];
    }
  }

  /** Nothing before the first dot is a dot. */
  lemma NoDotBefore(text: bytes, n: nat)
    requires n <= |text| && (Find(text, [DOT], 0).Some? ==> n <= Find(text, [DOT], 0).value)
    ensures DOT !in text[..n]
  {
    if i :| 0 <= i < n && text[i] == DOT {
      assert text[i..i + 1] == [DOT];
      assert At(text, i, [DOT]);
    }
  }

  lemma DotFound(text: bytes)
    requires Find(text, [DOT], 0).Some?
    ensures var i := Find(text, [DOT], 0).value;
      i < |text| && text == text[..i] + [DOT] + text[i + 1..]
  {
    hide At;
    var i := Find(text, [DOT], 0).value;
    AtOne(text, i, DOT);
    SplitAt(text, i);
  }

  lemma CutAtDot(l: bytes, rest: bytes)
    ensures var text := l + [DOT] + rest;
      text[..|l|] == l && text[|l| + 1..] == rest
  {
  }

  lemma EncodePlain(l: bytes)
    requires ValidLabel(l) && DOT !in l
    ensures EncodeLabels(l) == Ok(LabelBytes(l))
  {
    FirstDot(l, []);
  }

  lemma EncodeDotted(l: bytes, rest: bytes)
    requires ValidLabel(l) && DOT !in l
    ensures EncodeLabels(l + [DOT] + rest) == Prepend(LabelBytes(l), EncodeLabels(rest))
  {
    hide At;
    FirstDot(l, rest);
    CutAtDot(l, rest);
  }

  lemma SerLabelsCons(l: bytes, rest: seq<bytes>)
    requires ValidLabel(l) && ValidLabels(rest)
    ensures ValidLabels([l] + rest) && SerLabels([l] + rest) == LabelBytes(l) + SerLabels(rest)
    ensures SerLabels([l]) == LabelBytes(l) && SerLabels([]) == []
  {
    assert ([l] + rest)[1..] == rest;
    assert SerLabels([l]) == LabelBytes(l) + SerLabels([l][1..]);
  }

  lemma JoinCons(l: bytes, rest: seq<bytes>)
    ensures Join([l] + rest) == if rest == [] then l else l + [DOT] + Join(rest)
  {
    assert ([l] + rest)[1..] == rest;
    assert l + ([DOT] + Join(rest)) == l + [DOT] + Join(rest);
  }

  lemma SpellableCons(ls: seq<bytes>)
    requires Spellable(ls)
    ensures ls == [ls[0]] + ls[1..] && ValidLabel(ls[0]) && DOT !in ls[0] && ValidLabels(ls[1..])
    ensures ls[1..] == [] || Spellable(ls[1..])
  {
  }

  lemma SomeDots(l: bytes, dots: nat)
    requires dots <= 1
    ensures l + Dots(dots) == if dots == 0 then l else l + [DOT] + []
  {
  }

  lemma {:induction false} JoinedIsEncoded(ls: seq<bytes>, dots: nat)
    requires Spellable(ls) && dots <= 1
    ensures EncodeLabels(Join(ls) + Dots(dots)) == Ok(SerLabels(ls))
    decreases |ls|
  {
    hide *;
    SpellableCons(ls);
    var l, rest := ls[0], ls[1..];
    SerLabelsCons(l, rest);
    JoinCons(l, rest);
    if rest == [] {
      EncodePlain(l);
      EncodeDotted(l, []);
      EncodeNothing();
      SomeDots(l, dots);
      PrependOk(LabelBytes(l), []);
      assert LabelBytes(l) + [] == LabelBytes(l);
    } else {
      JoinedIsEncoded(rest, dots);
      EncodeDotted(l, Join(rest) + Dots(dots));
      PrependOk(LabelBytes(l), SerLabels(rest));
      assert Join(ls) + Dots(dots) == l + [DOT] + (Join(rest) + Dots(dots));
    }
  }

  lemma PrependOk(a: bytes, b: bytes)
    ensures Prepend(a, Ok(b)) == Ok(a + b)
  {
  }

  lemma EncodeNothing()
    ensures EncodeLabels([]) == Ok([])
  {
  }

  /** Whatever the encoder accepts spells a list of labels, and at most one more dot. */
  lemma {:induction false} EncodedIsJoined(text: bytes) returns (ls: seq<bytes>, dots: nat)
    requires text != [] && EncodeLabels(text).Ok?
    ensures Spellable(ls) && dots <= 1 && text == Join(ls) + Dots(dots)
    decreases |text|
  {
    hide At;
    var dot := Find(text, [DOT], 0);
    var l := if dot.Some? then text[..dot.value] else text;
    NoDotBefore(text, |l|);
    assert text[..|l|] == l && DOT !in l;
    if dot.None? {
      ls, dots := [l], 0;
      assert text == Join(ls) + Dots(0);
    } else {
      DotFound(text);
      var rest := text[dot.value + 1..];
      assert text == l + ([DOT] + rest);
      if rest == [] {
        ls, dots := [l], 1;
        assert text == Join(ls) + Dots(1);
      } else {
        var ls', dots' := EncodedIsJoined(rest);
        ls, dots := [l] + ls', dots';
        assert ls[1..] == ls';
        assert Join(ls) == l + ([DOT] + Join(ls'));
        assert text == Join(ls) + Dots(dots);
      }
    }
  }

  /** A spelled label list does not end in a dot. */
  lemma {:induction false} JoinHasNoTrailingDot(ls: seq<bytes>)
    requires Spellable(ls)
    ensures Join(ls) != [] && Join(ls)[|Join(ls)| - 1] != DOT
    decreases |ls|
  {
    if |ls| == 1 {
      assert ValidLabel(ls[0]);
      assert Join(ls)[|ls[0]| - 1] in ls[0];
    } else {
      JoinHasNoTrailingDot(ls[1..]);
    }
  }

  lemma {:induction false} StripJoined(ls: seq<bytes>, dots: nat)
    requires Spellable(ls)
    ensures StripDots(Join(ls) + Dots(dots)) == Join(ls)
    decreases dots
  {
    JoinHasNoTrailingDot(ls);
    var text := Join(ls) + Dots(dots);
    if dots == 0 {
      assert text == Join(ls);
    } else {
      assert text[..|text| - 1] == Join(ls) + Dots(dots - 1);
      StripJoined(ls, dots - 1);
    }
  }

  /** The domains a label list spells, with the dots the encoder tolerates behind it. */
  predicate Spells(domain: bytes, ls: seq<bytes>, dots: nat) {
    Spellable(ls) && dots <= 2 && domain == Join(ls) + Dots(dots)
  }

  /** A spelled domain of at most 255 octets encodes to its labels and the root. */
  lemma SpelledIsEncoded(domain: bytes, ls: seq<bytes>, dots: nat)
    requires Spells(domain, ls, dots) && |domain| <= MAX_DOMAIN
    ensures Encode(domain) == Ok(SerName(Name(ls, Root)))
  {
    JoinHasNoTrailingDot(ls);
    if dots == 0 {
      assert domain == Join(ls);
      assert domain == Join(ls) + Dots(0);
      JoinedIsEncoded(ls, 0);
    } else {
      assert domain[..|domain| - 1] == Join(ls) + Dots(dots - 1);
      JoinedIsEncoded(ls, dots - 1);
    }
  }

  /** Conversely, an accepted domain is spelled by a label list, with at most two dots behind. */
  lemma EncodedIsSpelled(domain: bytes) returns (ls: seq<bytes>, dots: nat)
    requires Encode(domain).Ok?
    ensures Spells(domain, ls, dots) && |domain| <= MAX_DOMAIN
  {
    if domain[|domain| - 1] == DOT {
      var text := domain[..|domain| - 1];
      ls, dots := EncodedIsJoined(text);
      assert domain == text + [DOT] == Join(ls) + (Dots(dots) + [DOT]);
      assert Dots(dots) + [DOT] == Dots(dots + 1);
      dots := dots + 1;
    } else {
      ls, dots := EncodedIsJoined(domain);
    }
  }

  /** `encodeQname` accepts exactly the spelled domains of at most 255 octets. */
  lemma AcceptedExactly(domain: bytes)
    ensures Encode(domain).Ok?
       <==> |domain| <= 255 && exists ls: seq<bytes>, dots: nat :: Spells(domain, ls, dots)
  {
    if Encode(domain).Ok? {
      var ls, dots := EncodedIsSpelled(domain);
    }
    if ls: seq<bytes>, dots: nat :| |domain| <= MAX_DOMAIN && Spells(domain, ls, dots) {
      SpelledIsEncoded(domain, ls, dots);
    }
  }

  lemma {:induction false} SerLabelsLength(ls: seq<bytes>)
    requires Spellable(ls)
    ensures |SerLabels(ls)| == |Join(ls)| + 1
    decreases |ls|
  {
    if |ls| == 1 {
      assert SerLabels(ls) == LabelBytes(ls[0]) + SerLabels([]);
    } else {
      SerLabelsLength(ls[1..]);
    }
  }

  /**
   The encoded name is two octets longer than the domain without its trailing
   dots, so it keeps to the 255 octets of section 2.3.4 of RFC 1035 exactly when
   that domain has at most 253; the program's own limit of 255 is on the text.
   */
  lemma EncodedLength(domain: bytes)
    requires Encode(domain).Ok?
    ensures |Encode(domain).value| == |StripDots(domain)| + 2
    ensures |Encode(domain).value| <= 255 <==> |StripDots(domain)| <= 253
  {
    var ls, dots := EncodedIsSpelled(domain);
    SpelledIsEncoded(domain, ls, dots);
    StripJoined(ls, dots);
    SerLabelsLength(ls);
  }

  /** Four labels of 63 octets are accepted and encode to 257 octets. */
  lemma EncodedNameCanExceedTheLimit() returns (domain: bytes)
    ensures Encode(domain).Ok? && |Encode(domain).value| == 257
  {
    var l: bytes := seq(MAX_LABEL, _ => 0x61);
    var ls := [l, l, l, l];
    domain := Join(ls);
    assert ls[1..] == [l, l, l] && ls[1..][1..] == [l, l] && ls[1..][1..][1..] == [l];
    assert Join([l]) == l && |Join([l, l])| == 127 && |Join([l, l, l])| == 191;
    assert domain == Join(ls) + Dots(0);
    SpelledIsEncoded(domain, ls, 0);
    StripJoined(ls, 0);
    EncodedLength(domain);
  }

  // ---- skipName ----

  /** The offset behind the name at `offset`, following no pointer. */
  function AfterName(packet: bytes, offset: nat): (r: Result<nat>)
    ensures r.Ok? ==> offset < r.value <= |packet|
    decreases |packet| - offset
  {
    if offset >= |packet| then Err(BadPacket)
    else
      var len := packet[offset];
      if len >= COMPRESSED then
        if offset + 2 > |packet| then Err(BadPacket) else Ok(offset + 2)
      else if len == 0 then Ok(offset + 1)
      else if len > MAX_LABEL then Err(BadPacket)
      else AfterName(packet, offset + len as nat + 1)
  }

  /** `len & 0xc0 == 0xc0` is `len >= 0xc0` on one octet. */
  method SkipName(packet: bytes, start: nat) returns (r: Result<nat>)
    ensures r == AfterName(packet, start)
  {
    var offset := start;
    while true
      invariant AfterName(packet, start) == AfterName(packet, offset)
      decreases |packet| - offset
    {
      if offset >= |packet| { return Err(BadPacket); }
      var len := packet[offset];
      if len >= COMPRESSED {
        if offset + 2 > |packet| { return Err(BadPacket); }
        return Ok(offset + 2);
      }
      if len == 0 { return Ok(offset + 1); }
      if len > MAX_LABEL { return Err(BadPacket); }
      offset := offset + len as nat + 1;
    }
  }

  lemma PeelLabel(data: bytes, p: nat, l: bytes, rest: bytes)
    requires ValidLabel(l) && At(data, p, LabelBytes(l) + rest)
    ensures p + 1 + |l| <= |data| && data[p] == |l| && data[p + 1..p + 1 + |l|] == l
    ensures At(data, p + 1 + |l|, rest)
  {
    AtConcat(data, p, LabelBytes(l), rest);
    AtByte(data, p, |l|, l);
  }

  lemma SerLabelsSplit(ls: seq<bytes>)
    requires ls != [] && ValidLabels(ls)
    ensures ValidLabel(ls[0]) && ValidLabels(ls[1..])
    ensures SerLabels(ls) == LabelBytes(ls[0]) + SerLabels(ls[1..])
  {
    assert ValidLabel(ls[0]);
  }

  lemma PeelLabels(data: bytes, p: nat, ls: seq<bytes>, tail: bytes)
    requires ls != [] && ValidLabels(ls) && At(data, p, SerLabels(ls) + tail)
    ensures var l := ls[0];
      && ValidLabel(l) && p + 1 + |l| <= |data| && data[p] == |l| && data[p + 1..p + 1 + |l|] == l
      && At(data, p + 1 + |l|, SerLabels(ls[1..]) + tail)
  {
    hide *;
    SerLabelsSplit(ls);
    Assoc(LabelBytes(ls[0]), SerLabels(ls[1..]), tail);
    PeelLabel(data, p, ls[0], SerLabels(ls[1..]) + tail);
  }

  lemma EndIsSkipped(packet: bytes, p: nat, name: Name)
    requires ValidName(name) && name.labels == [] && At(packet, p, SerName(name))
    ensures AfterName(packet, p) == Ok(p + |SerName(name)|)
  {
    assert SerName(name) == SerEnd(name.end);
    AtByte(packet, p, SerEnd(name.end)[0], SerEnd(name.end)[1..]);
  }

  lemma LabelIsSkipped(packet: bytes, p: nat, name: Name)
    requires ValidName(name) && name.labels != [] && At(packet, p, SerName(name))
    ensures var next, rest := p + 1 + |name.labels[0]|, Name(name.labels[1..], name.end);
      && AfterName(packet, p) == AfterName(packet, next)
      && ValidName(rest) && At(packet, next, SerName(rest)) && p + |SerName(name)| == next + |SerName(rest)|
  {
    PeelLabels(packet, p, name.labels, SerEnd(name.end));
    SerLabelsSplit(name.labels);
    hide At, SerLabels, ValidLabels;
  }

  /** Every name, compressed or not, is skipped to its last octet. */
  lemma {:induction false} NameIsSkipped(packet: bytes, p: nat, name: Name)
    requires ValidName(name) && At(packet, p, SerName(name))
    ensures AfterName(packet, p) == Ok(p + |SerName(name)|)
    decreases |name.labels|
  {
    hide *;
    if name.labels == [] {
      EndIsSkipped(packet, p, name);
    } else {
      LabelIsSkipped(packet, p, name);
      NameIsSkipped(packet, p + 1 + |name.labels[0]|, Name(name.labels[1..], name.end));
    }
  }

  /** A label in front of a name that was already recovered. */
  lemma LabelInFront(packet: bytes, p: nat, l: bytes, rest: Name)
    requires ValidLabel(l) && ValidName(rest) && p + 1 + |l| <= |packet|
    requires packet[p] == |l| && packet[p + 1..p + 1 + |l|] == l
    requires At(packet, p + 1 + |l|, SerName(rest))
    ensures var name := Name([l] + rest.labels, rest.end);
      ValidName(name) && At(packet, p, SerName(name)) && |SerName(name)| == 1 + |l| + |SerName(rest)|
  {
    SerLabelsCons(l, rest.labels);
    assert packet[p..p + 1 + |l|] == LabelBytes(l);
    hide At, SerLabels, ValidLabel, ValidLabels;
    AtSlice(packet, p, p + 1 + |l|);
    AtJoin(packet, p, LabelBytes(l), SerName(rest));
    Assoc(LabelBytes(l), SerLabels(rest.labels), SerEnd(rest.end));
  }

  /** Conversely, whatever is skipped is a name. */
  lemma {:induction false} SkippedIsName(packet: bytes, p: nat) returns (name: Name)
    requires AfterName(packet, p).Ok?
    ensures ValidName(name) && At(packet, p, SerName(name))
    ensures AfterName(packet, p) == Ok(p + |SerName(name)|)
    decreases |packet| - p
  {
    var len := packet[p];
    if len >= COMPRESSED {
      name := Name([], Pointer(len, packet[p + 1]));
      assert SerName(name) == packet[p..p + 2];
    } else if len == 0 {
      name := Name([], Root);
      assert SerName(name) == packet[p..p + 1];
    } else {
      hide At, SerName;
      var next := p + 1 + len as nat;
      var rest := SkippedIsName(packet, next);
      var l := packet[p + 1..next];
      LabelInFront(packet, p, l, rest);
      name := Name([l] + rest.labels, rest.end);
    }
  }

  // ---- The reader of parse_dns_query ----

  /** The labels from `pos` up to the root, appended to `domain` with dots between. */
  function ReadDomain(data: bytes, pos: nat, domain: bytes): Result<bytes>
    decreases |data| - pos
  {
    if pos >= |data| then Err(BadPacket)
    else
      var len := data[pos] as nat;
      if len == 0 then Ok(domain)
      else if pos + 1 + len > |data| then Err(BadPacket)
      else
        ReadDomain(data, pos + 1 + len, Dotted(domain, data[pos + 1..pos + 1 + len]))
  }

  /** `domain` with one more label, as the reader appends it. */
  function Dotted(domain: bytes, l: bytes): bytes {
    (if domain == [] then [] else domain + [DOT]) + l
  }

  lemma DottedJoin(domain: bytes, l: bytes, rest: seq<bytes>)
    requires l != []
    ensures Dotted(domain, Join([l] + rest))
         == if rest == [] then Dotted(domain, l) else Dotted(Dotted(domain, l), Join(rest))
  {
    assert ([l] + rest)[1..] == rest;
  }

  lemma ReadOneLabel(data: bytes, pos: nat, l: bytes, domain: bytes)
    requires ValidLabel(l) && pos + 1 + |l| <= |data|
    requires data[pos] == |l| && data[pos + 1..pos + 1 + |l|] == l
    ensures ReadDomain(data, pos, domain) == ReadDomain(data, pos + 1 + |l|, Dotted(domain, l))
  {
  }

  lemma ReadRoot(data: bytes, pos: nat, domain: bytes)
    requires At(data, pos, [0])
    ensures ReadDomain(data, pos, domain) == Ok(domain)
  {
    AtOne(data, pos, 0);
  }

  lemma {:induction false} LabelsAreRead(data: bytes, pos: nat, ls: seq<bytes>, domain: bytes)
    requires ls != [] && ValidLabels(ls) && At(data, pos, SerLabels(ls) + [0])
    ensures ReadDomain(data, pos, domain) == Ok(Dotted(domain, Join(ls)))
    decreases |ls|
  {
    hide At, ReadDomain, Dotted, Join, SerLabels;
    PeelLabels(data, pos, ls, [0]);
    var l, rest, next := ls[0], ls[1..], pos + 1 + |ls[0]|;
    assert ValidLabel(l) && ls == [l] + rest;
    ReadOneLabel(data, pos, l, domain);
    DottedJoin(domain, l, rest);
    if rest == [] {
      SerLabelsCons(l, []);
      assert SerLabels(rest) + [0] == [0];
      ReadRoot(data, next, Dotted(domain, l));
    } else {
      LabelsAreRead(data, next, rest, Dotted(domain, l));
    }
  }

  /** A name of two labels, octet by octet, with and without a trailing dot. */
  lemma {:induction false} TwoLabelOctets(a: bytes, b: bytes)
    requires 1 <= |a| <= 63 && 1 <= |b| <= 63 && 0x2E !in a && 0x2E !in b
    ensures Encode(a + [0x2E] + b) == Encode(a + [0x2E] + b + [0x2E]) == Ok([|a|] + a + [|b|] + b + [0])
  {
    hide Encode, SerLabels, Join;
    var ls, domain := [a, b], a + [0x2E] + b;
    SerLabelsCons(a, [b]);
    SerLabelsCons(b, []);
    JoinCons(a, [b]);
    JoinCons(b, []);
    assert ls == [a] + [b] && [b] == [b] + [];
    assert domain == Join(ls) + Dots(0) && domain + [0x2E] == Join(ls) + Dots(1);
    assert SerName(Name(ls, Root)) == LabelBytes(a) + LabelBytes(b) + [0] == [|a|] + a + [|b|] + b + [0];
    SpelledIsEncoded(domain, ls, 0);
    SpelledIsEncoded(domain + [0x2E], ls, 1);
  }

  // ---- Everything the reader accepts ----

  predicate RawValid(ls: seq<bytes>) { forall l <- ls :: 1 <= |l| <= 255 }

  /** Labels behind their length octets, and the empty one. */
  function RawLabels(ls: seq<bytes>): bytes
    requires RawValid(ls)
  {
    if ls == [] then [0] else [|ls[0]|] + (ls[0] + RawLabels(ls[1..]))
  }

  lemma RawLabelIsRead(data: bytes, pos: nat, l: bytes, rest: bytes, domain: bytes)
    requires 1 <= |l| <= 255 && At(data, pos, [|l|] + (l + rest))
    ensures At(data, pos + 1 + |l|, rest)
    ensures ReadDomain(data, pos, domain) == ReadDomain(data, pos + 1 + |l|, Dotted(domain, l))
  {
    AtByte(data, pos, |l|, l + rest);
    AtPeel(data, pos + 1, l, rest);
    AtBound(data, pos + 1, l);
  }

  lemma {:induction false} RawIsRead(data: bytes, pos: nat, ls: seq<bytes>, domain: bytes)
    requires RawValid(ls) && At(data, pos, RawLabels(ls))
    ensures ReadDomain(data, pos, domain) == Ok(if ls == [] then domain else Dotted(domain, Join(ls)))
    decreases |ls|
  {
    hide At, ReadDomain, Dotted, Join;
    if ls == [] {
      ReadRoot(data, pos, domain);
    } else {
      var l, rest := ls[0], ls[1..];
      assert 1 <= |l| <= 255 && ls == [l] + rest;
      RawLabelIsRead(data, pos, l, RawLabels(rest), domain);
      RawIsRead(data, pos + 1 + |l|, rest, Dotted(domain, l));
      DottedJoin(domain, l, rest);
    }
  }

  lemma {:induction false} ReadIsRaw(data: bytes, pos: nat, domain: bytes) returns (ls: seq<bytes>)
    requires ReadDomain(data, pos, domain).Ok?
    ensures RawValid(ls) && At(data, pos, RawLabels(ls))
    decreases |data| - pos
  {
    hide At, Dotted;
    AtSlice(data, pos, pos + 1);
    assert data[pos..pos + 1] == [data[pos]];
    if data[pos] == 0 {
      ls := [];
    } else {
      var next := pos + 1 + data[pos] as nat;
      var l := data[pos + 1..next];
      var rest := ReadIsRaw(data, next, Dotted(domain, l));
      ls := [l] + rest;
      AtSlice(data, pos + 1, next);
      AtJoin(data, pos + 1, l, RawLabels(rest));
      AtJoin(data, pos, [|l|], l + RawLabels(rest));
      assert ls[1..] == rest;
    }
  }

  lemma DottedNothing(ls: seq<bytes>)
    ensures Dotted([], Join(ls)) == Join(ls) && (ls == [] ==> Join(ls) == [])
  {
  }
}
