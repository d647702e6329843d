/**
 Octets, big-endian integers and byte search: the vocabulary shared by every
 other module. A C++ `std::string` and a `std::vector<u8>` are both `bytes`
 here, because the program only ever treats text as octets.
 */
module Bytes {

  type byte = x: int | 0 <= x < 0x100
  type u16 = x: int | 0 <= x < 0x1_0000
  type bytes = seq<byte>

  datatype Option<+T> = None | Some(value: T)

  /** The outcome of an operation that throws in the program. */
  datatype Result<+T> = Ok(value: T) | Err(why: Failure)

  datatype Failure =
    | Eof                 // the peer delivers nothing more
    | NotBinary           // a WebSocket text message
    | BadDomain           // encodeQname rejects its argument
    | BadPacket           // a DNS message that does not parse
    | BadHandshake        // a SOCKS5 or VLESS field with an unexpected value
    | NoMethod            // no acceptable SOCKS5 authentication method
    | BadUrl              // a request target that is not a URI reference
    | UnknownRuleSet      // a rule names a rule set that was not loaded
    | UnknownServer       // no DNS server carries the chosen tag
    | UnknownOutbound     // no outbound carries the chosen tag

  // ---- Big-endian integers (src/utils/bytes.cpp) ----

  function U16(v: u16): (b: bytes)
    ensures |b| == 2
  {
    [v / 0x100, v % 0x100]
  }

  function ReadU16(b: bytes, p: nat): (v: u16)
    requires p + 2 <= |b|
  {
    b[p] as int * 0x100 + b[p + 1] as int
  }

  /** The number a string of octets spells, the most significant octet first. */
  function BigEndian(b: bytes): nat {
    if b == [] then 0 else 0x100 * BigEndian(b[..|b| - 1]) + b[|b| - 1] as nat
  }

  lemma {:induction false} U16IsBigEndian(v: u16)
    ensures BigEndian(U16(v)) == v
  {
    var b := U16(v);
    assert b[..1] == [b[0]] && b[..1][..0] == [] && BigEndian(b[..1]) == b[0] as nat;
  }

  lemma {:induction false} ReadsBigEndian(b: bytes, p: nat)
    requires p + 2 <= |b|
    ensures ReadU16(b, p) == BigEndian(b[p..p + 2])
  {
    var s := b[p..p + 2];
    assert s[..1] == [b[p]] && s[..1][..0] == [] && BigEndian(s[..1]) == b[p] as nat;
  }

  function Octet(c: char): byte { c as int % 0x100 }

  /** A text of ASCII characters, as octets. */
  function Text(s: string): bytes {
    seq(|s|, i requires 0 <= i < |s| => Octet(s[i]))
  }

  // ---- Substrings ----

  /** `part` occupies `data` from offset `p`. */
  predicate At(data: bytes, p: nat, part: bytes) {
    p + |part| <= |data| && data[p..p + |part|] == part
  }

  lemma Assoc(a: bytes, b: bytes, c: bytes)
    ensures a + b + c == a + (b + c)
  {
  }

  lemma AtConcat(data: bytes, p: nat, a: bytes, b: bytes)
    ensures At(data, p, a + b) <==> At(data, p, a) && At(data, p + |a|, b)
  {
    if At(data, p, a + b) {
      var s := data[p..p + |a + b|];
      assert s[..|a|] == a && s[|a|..] == b;
    }
  }

  lemma AtPeel(data: bytes, p: nat, a: bytes, b: bytes)
    requires At(data, p, a + b)
    ensures At(data, p, a) && At(data, p + |a|, b)
  {
    AtConcat(data, p, a, b);
  }

  lemma AtNothing(data: bytes, p: nat, b: bytes)
    requires At(data, p, [] + b)
    ensures At(data, p, b)
  {
    assert [] + b == b;
  }

  lemma AtU16(data: bytes, p: nat, v: u16)
    requires At(data, p, U16(v))
    ensures p + 2 <= |data| && ReadU16(data, p) == v
  {
    assert data[p] == data[p..p + 2][0] && data[p + 1] == data[p..p + 2][1];
  }

  lemma AtByte(data: bytes, p: nat, v: byte, rest: bytes)
    requires At(data, p, [v] + rest)
    ensures p < |data| && data[p] == v && At(data, p + 1, rest)
  {
    AtConcat(data, p, [v], rest);
    assert data[p] == data[p..p + 1][0];
  }

  lemma AtLength(data: bytes, p: nat, v: u16, rest: bytes)
    requires At(data, p, U16(v) + rest)
    ensures p + 2 <= |data| && ReadU16(data, p) == v && At(data, p + 2, rest)
  {
    AtConcat(data, p, U16(v), rest);
    AtU16(data, p, v);
  }

  lemma AtEmpty(data: bytes, p: nat)
    requires p <= |data|
    ensures At(data, p, [])
  {
  }

  lemma AtSlice(data: bytes, p: nat, q: nat)
    requires p <= q <= |data|
    ensures At(data, p, data[p..q])
  {
  }

  lemma AtJoin(data: bytes, p: nat, a: bytes, b: bytes)
    requires At(data, p, a) && At(data, p + |a|, b)
    ensures At(data, p, a + b)
  {
    AtConcat(data, p, a, b);
  }

  /** The two octets at `p`, as the integer they spell. */
  lemma AtReadU16(data: bytes, p: nat)
    requires p + 2 <= |data|
    ensures At(data, p, U16(ReadU16(data, p)))
  {
  }

  lemma SplitAt(s: bytes, i: nat)
    requires i < |s|
    ensures s == s[..i] + [s[i]] + s[i + 1..]
  {
  }

  lemma AtOne(data: bytes, p: nat, v: byte)
    requires At(data, p, [v])
    ensures p < |data| && data[p] == v
  {
    assert data[p] == data[p..p + 1][0];
  }

  lemma AtPrefix(data: bytes, front: bytes)
    requires front <= data
    ensures At(data, 0, front)
  {
  }

  lemma AtBound(data: bytes, p: nat, part: bytes)
    requires At(data, p, part)
    ensures p + |part| <= |data| && data[p..p + |part|] == part
  {
  }

  lemma AtBehind(front: bytes, part: bytes)
    ensures At(front + part, |front|, part)
  {
  }

  /** `std::string::find(pattern, from)`; `None` stands for `npos`. */
  function Find(s: bytes, pattern: bytes, from: nat): (r: Option<nat>)
    ensures r.Some? ==> from <= r.value <= |s| - |pattern| && At(s, r.value, pattern)
    ensures forall j: nat :: from <= j && (r.Some? ==> j < r.value) ==> !At(s, j, pattern)
    decreases |s| - from
  {
    if |s| < from + |pattern| then None
    else if At(s, from, pattern) then Some(from)
    else Find(s, pattern, from + 1)
  }

  /** Whatever follows an occurrence does not move the first one. */
  lemma FindInPrefix(s: bytes, tail: bytes, pattern: bytes)
    requires Find(s, pattern, 0).Some?
    ensures Find(s + tail, pattern, 0) == Find(s, pattern, 0)
  {
    var k := Find(s, pattern, 0).value;
    AtInPrefix(s, tail, pattern, k);
    var r := Find(s + tail, pattern, 0);
    if r.Some? && r.value < k {
      AtInPrefix(s, tail, pattern, r.value);
    }
  }

  lemma AtInPrefix(s: bytes, tail: bytes, pattern: bytes, k: nat)
    requires k + |pattern| <= |s|
    ensures At(s, k, pattern) <==> At(s + tail, k, pattern)
  {
    assert (s + tail)[k..k + |pattern|] == s[k..k + |pattern|];
  }

  lemma FirstOccurrence(line: bytes, pattern: bytes, rest: bytes)
    requires pattern != [] && pattern[0] !in line
    ensures Find(line + (pattern + rest), pattern, 0) == Some(|line|)
  {
    var s := line + (pattern + rest);
    AtBehind(line, pattern + rest);
    AtPeel(s, |line|, pattern, rest);
    forall k: nat | k < |line| ensures At(s, k, pattern) ==> line[k] == pattern[0] {
      assert s[k] == line[k];
    }
  }
}
