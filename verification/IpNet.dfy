/**
 CIDR networks (src/router/ipnet.cpp, section 3.1 of RFC 4632): the mask and byte
 comparisons as the program writes them, on 32- and 8-bit words, against the
 meaning of a prefix length: the first `prefix` bits of two addresses agree.
 */
module IpNet {
  import opened Bytes
  import opened Address

  datatype IpNetwork = IpNetwork(network: Ip, prefix: byte)

  function Width(ip: Ip): nat { if ip.V4? then 32 else 128 }

  predicate SameFamily(a: Ip, b: Ip) { a.V4? == b.V4? }

  /** What `parseCidr` guarantees of a network. */
  predicate ValidNetwork(n: IpNetwork) { n.prefix as nat <= Width(n.network) }

  // ---- Addresses as bits ----

  /** The value of bit `k` of an octet, counted from the most significant. */
  function Weight(k: nat): (n: nat)
    requires k < 8
    ensures n > 0
  {
    match k
    case 0 => 128 case 1 => 64 case 2 => 32 case 3 => 16
    case 4 => 8 case 5 => 4 case 6 => 2 case 7 => 1
  }

  /** The binary digit of weight `Weight(k)`. */
  predicate Digit(x: byte, k: nat)
    requires k < 8
  {
    x as int / Weight(k) % 2 == 1
  }

  function FromDigits(a: bool, b: bool, c: bool, d: bool, e: bool, f: bool, g: bool, h: bool): bv8 {
    (if a then 0x80 else 0) | (if b then 0x40 else 0) | (if c then 0x20 else 0) | (if d then 0x10 else 0)
    | (if e then 0x08 else 0) | (if f then 0x04 else 0) | (if g then 0x02 else 0) | (if h then 0x01 else 0)
  }

  function ToOctet(x: byte): bv8 {
    FromDigits(Digit(x, 0), Digit(x, 1), Digit(x, 2), Digit(x, 3), Digit(x, 4), Digit(x, 5), Digit(x, 6), Digit(x, 7))
  }

  function ToWords(octets: bytes): (w: seq<bv8>)
    ensures |w| == |octets|
  {
    seq(|octets|, i requires 0 <= i < |octets| => ToOctet(octets[i]))
  }

  function ToBytes(ip: Ip): (w: seq<bv8>)
    ensures |w| * 8 == Width(ip)
  {
    if ip.V4? then ToWords(ip.v4) else ToWords(ip.v6)
  }

  function Word(a: bv8, b: bv8, c: bv8, d: bv8): bv32 {
    ((a as bv32) << 24) | ((b as bv32) << 16) | ((c as bv32) << 8) | (d as bv32)
  }

  function ToUint(ip: Ip): bv32
    requires ip.V4?
  {
    var w := ToBytes(ip);
    Word(w[0], w[1], w[2], w[3])
  }

  /** The mask of bit `k` of an octet, counted from the most significant. */
  function Select(k: nat): bv8
    requires k < 8
  {
    match k
    case 0 => 0x80 case 1 => 0x40 case 2 => 0x20 case 3 => 0x10
    case 4 => 0x08 case 5 => 0x04 case 6 => 0x02 case 7 => 0x01
  }

  function Masked8(x: bv8, mask: bv8): bv8 { x & mask }

  /** `x` and `y` agree on the bits of `mask`. */
  predicate Agree(x: bv8, y: bv8, mask: bv8) { Masked8(x, mask) == Masked8(y, mask) }

  predicate SameBit(a: seq<bv8>, b: seq<bv8>, j: nat)
    requires |a| == |b| && j < 8 * |a|
  {
    Agree(a[j / 8], b[j / 8], Select(j % 8))
  }

  /** The first `p` bits agree. */
  predicate PrefixAgrees(a: seq<bv8>, b: seq<bv8>, p: nat)
    requires |a| == |b| && p <= 8 * |a|
  {
    forall j: nat :: j < p ==> SameBit(a, b, j)
  }

  /** The addresses a network is meant to contain. */
  predicate Covers(n: IpNetwork, addr: Ip) {
    && SameFamily(n.network, addr)
    && ValidNetwork(n)
    && PrefixAgrees(ToBytes(n.network), ToBytes(addr), n.prefix)
  }

  // ---- The comparisons of `contains` ----

  // The 32-bit operators of the two comparisons.

  function Masked(x: bv32, mask: bv32): bv32 { x & mask }

  function NetMask(prefix: nat): bv32
    requires 1 <= prefix <= 32
  {
    0xffff_ffff << (32 - prefix)
  }

  /** Lines 9 to 16 of `contains`. */
  method CompareWords(net: Ip, ipAddr: Ip, prefix: byte) returns (r: bool)
    requires net.V4? && ipAddr.V4?
    ensures r <==> (prefix <= 32 && PrefixAgrees(ToBytes(net), ToBytes(ipAddr), prefix))
  {
    hide SameBit, Masked, Word, NetMask;
    if prefix > 32 { return false; }
    if prefix == 0 { return true; }
    WordPrefix(ToBytes(net), ToBytes(ipAddr), prefix);
    var mask := NetMask(prefix);
    return Masked(ToUint(net), mask) == Masked(ToUint(ipAddr), mask);
  }

  /** Lines 20 to 25 of `contains`: the whole octets. */
  method CompareFullOctets(net: seq<bv8>, ipAddr: seq<bv8>, fullBytes: nat) returns (r: bool)
    requires |net| == |ipAddr| && fullBytes <= |net|
    ensures r <==> PrefixAgrees(net, ipAddr, 8 * fullBytes)
  {
    hide SameBit, Agree, TopMask;
    var i := 0;
    while i < fullBytes
      invariant 0 <= i <= fullBytes
      invariant PrefixAgrees(net, ipAddr, 8 * i)
    {
      OctetPrefix(net, ipAddr, i, 8);
      FullMask(net[i], ipAddr[i]);
      if net[i] != ipAddr[i] { return false; }
      i := i + 1;
    }
    return true;
  }

  /** Lines 26 to 31 of `contains`: the leading bits of one octet. */
  method CompareBits(x: bv8, y: bv8, bits: nat) returns (r: bool)
    requires 1 <= bits < 8
    ensures r <==> Agree(x, y, TopMask(bits))
  {
    PartialMask(x, y, bits);
    hide Masked, OctetMask, TopMask, Agree;
    var mask := OctetMask(bits);
    return Masked(x as bv32, mask) == Masked(y as bv32, mask);
  }

  /** The v6 branch of `contains`; a prefix above 128 would index past the address. */
  method CompareOctets(net: seq<bv8>, ipAddr: seq<bv8>, prefix: byte) returns (r: bool)
    requires |net| == |ipAddr| == 16 && prefix <= 128
    ensures r <==> PrefixAgrees(net, ipAddr, prefix)
  {
    hide SameBit, Agree, TopMask;
    var fullBytes := (prefix / 8) as nat;
    var bits := prefix % 8;
    r := CompareFullOctets(net, ipAddr, fullBytes);
    if r && bits != 0 {
      OctetPrefix(net, ipAddr, fullBytes, bits);
      r := CompareBits(net[fullBytes], ipAddr[fullBytes], bits);
    }
  }

  /** The body of `contains` once the families match, with `ipAddr` taken from `subject`. */
  method ComparePrefix(network: Ip, subject: Ip, prefix: byte) returns (r: bool)
    requires SameFamily(network, subject)
    requires network.V6? ==> prefix <= 128
    ensures r <==> (prefix as nat <= Width(network) && PrefixAgrees(ToBytes(network), ToBytes(subject), prefix))
  {
    if network.V4? {
      r := CompareWords(network, subject, prefix);
    } else {
      r := CompareOctets(ToBytes(network), ToBytes(subject), prefix);
    }
  }

  /** As written: lines 8 and 19 take `ipAddr` from the network itself. */
  predicate AsWritten(n: IpNetwork, addr: Ip) {
    SameFamily(n.network, addr) && n.prefix as nat <= Width(n.network)
  }

  method Contains(n: IpNetwork, addr: Ip) returns (r: bool)
    requires n.network.V6? ==> n.prefix <= 128
    ensures r == AsWritten(n, addr)
  {
    if n.network.V4? != addr.V4? { return false; }
    r := ComparePrefix(n.network, n.network, n.prefix);
  }

  /** With `ipAddr` read from the argument, the same comparisons decide membership. */
  method ContainsIntended(n: IpNetwork, addr: Ip) returns (r: bool)
    requires n.network.V6? ==> n.prefix <= 128
    ensures r == Covers(n, addr)
  {
    if n.network.V4? != addr.V4? { return false; }
    r := ComparePrefix(n.network, addr, n.prefix);
  }

  // ---- Masks select leading bits ----

  /** An octet whose first `k` bits are set. */
  function TopMask(k: nat): bv8
    requires k <= 8
  {
    match k
    case 0 => 0x00 case 1 => 0x80 case 2 => 0xc0 case 3 => 0xe0 case 4 => 0xf0
    case 5 => 0xf8 case 6 => 0xfc case 7 => 0xfe case 8 => 0xff
  }

  lemma TopMaskStep(k: nat)
    requires k < 8
    ensures TopMask(k + 1) == TopMask(k) | Select(k)
  {
    match k
    case 0 => case 1 => case 2 => case 3 => case 4 => case 5 => case 6 => case 7 =>
  }

  lemma MaskJoin(x: bv8, m: bv8, s: bv8)
    ensures Masked8(x, m | s) == Masked8(x, m) | Masked8(x, s)
  {
  }

  lemma MaskLeft(x: bv8, m: bv8, s: bv8)
    ensures Masked8(Masked8(x, m | s), m) == Masked8(x, m)
  {
  }

  lemma MaskRight(x: bv8, m: bv8, s: bv8)
    ensures Masked8(Masked8(x, m | s), s) == Masked8(x, s)
  {
  }

  lemma AgreeJoin(x: bv8, y: bv8, m: bv8, s: bv8)
    ensures Agree(x, y, m | s) <==> Agree(x, y, m) && Agree(x, y, s)
  {
    hide Masked8;
    MaskJoin(x, m, s);
    MaskJoin(y, m, s);
    MaskLeft(x, m, s);
    MaskLeft(y, m, s);
    MaskRight(x, m, s);
    MaskRight(y, m, s);
  }

  lemma AllBits(x: bv8)
    ensures Masked8(x, TopMask(8)) == x
  {
  }

  lemma FullMask(x: bv8, y: bv8)
    ensures Agree(x, y, TopMask(8)) <==> x == y
  {
    AllBits(x);
    AllBits(y);
    hide Masked8;
  }

  /** `k` more bits agree exactly when the next octet agrees under its top mask. */
  lemma {:induction false} OctetPrefix(a: seq<bv8>, b: seq<bv8>, i: nat, k: nat)
    requires |a| == |b| && i < |a| && k <= 8
    ensures PrefixAgrees(a, b, 8 * i + k) <==> PrefixAgrees(a, b, 8 * i) && Agree(a[i], b[i], TopMask(k))
    decreases k
  {
    hide Agree;
    if k == 0 {
      EmptyMask(a[i], b[i]);
    } else {
      OctetPrefix(a, b, i, k - 1);
      TopMaskStep(k - 1);
      AgreeJoin(a[i], b[i], TopMask(k - 1), Select(k - 1));
      var j := 8 * i + k - 1;
      assert j / 8 == i && j % 8 == k - 1;
      assert PrefixAgrees(a, b, j + 1) <==> PrefixAgrees(a, b, j) && SameBit(a, b, j);
    }
  }

  lemma EmptyMask(x: bv8, y: bv8)
    ensures Agree(x, y, TopMask(0))
  {
    assert Masked8(x, 0) == 0 && Masked8(y, 0) == 0;
  }

  /** `0xff << (8 - bits)`, as a 32-bit word. */
  function OctetMask(bits: nat): bv32
    requires 1 <= bits < 8
  {
    0xff << (8 - bits)
  }

  lemma PartialMask(x: bv8, y: bv8, bits: nat)
    requires 1 <= bits < 8
    ensures Masked(x as bv32, OctetMask(bits)) == Masked(y as bv32, OctetMask(bits))
       <==> Agree(x, y, TopMask(bits))
  {
    LowOctetOfMask(bits);
    hide Masked, Masked8, TopMask;
    MaskLowOctet(x, OctetMask(bits), TopMask(bits));
    MaskLowOctet(y, OctetMask(bits), TopMask(bits));
    WideningIsInjective(Masked8(x, TopMask(bits)), Masked8(y, TopMask(bits)));
  }

  lemma WideningIsInjective(x: bv8, y: bv8)
    ensures x as bv32 == y as bv32 ==> x == y
  {
  }

  lemma LowOctetOfMask(bits: nat)
    requires 1 <= bits < 8
    ensures OctetMask(bits) & 0xff == TopMask(bits) as bv32
  {
    match bits
    case 1 => case 2 => case 3 => case 4 => case 5 => case 6 => case 7 =>
  }

  lemma MaskLowOctet(x: bv8, mask: bv32, low: bv8)
    requires mask & 0xff == low as bv32
    ensures Masked(x as bv32, mask) == Masked8(x, low) as bv32
  {
  }

  /** How many of the first `p` bits fall into octet `i`. */
  function Reach(p: nat, i: nat): (k: nat)
    ensures k <= 8
  {
    if p <= 8 * i then 0 else if 8 * i + 8 <= p then 8 else p - 8 * i
  }

  function WordMask(p: nat): bv32 {
    Word(TopMask(Reach(p, 0)), TopMask(Reach(p, 1)), TopMask(Reach(p, 2)), TopMask(Reach(p, 3)))
  }

  lemma ShiftedMaskLow(p: nat)
    requires 1 <= p <= 16
    ensures NetMask(p) == WordMask(p)
  {
    match p
    case 1 => case 2 => case 3 => case 4 => case 5 => case 6 => case 7 => case 8 =>
    case 9 => case 10 => case 11 => case 12 => case 13 => case 14 => case 15 => case 16 =>
  }

  lemma ShiftedMaskHigh(p: nat)
    requires 17 <= p <= 32
    ensures NetMask(p) == WordMask(p)
  {
    match p
    case 17 => case 18 => case 19 => case 20 => case 21 => case 22 => case 23 => case 24 =>
    case 25 => case 26 => case 27 => case 28 => case 29 => case 30 => case 31 => case 32 =>
  }

  lemma MaskOctets(a: bv8, b: bv8, c: bv8, d: bv8, m: bv8, n: bv8, o: bv8, p: bv8)
    ensures Masked(Word(a, b, c, d), Word(m, n, o, p))
         == Word(Masked8(a, m), Masked8(b, n), Masked8(c, o), Masked8(d, p))
  {
  }

  lemma WordIsInjective(a: bv8, b: bv8, c: bv8, d: bv8, e: bv8, f: bv8, g: bv8, h: bv8)
    requires Word(a, b, c, d) == Word(e, f, g, h)
    ensures a == e && b == f && c == g && d == h
  {
  }

  /** Octets under their share of the mask, from the first octet on. */
  lemma {:induction false} OctetsPrefix(a: seq<bv8>, b: seq<bv8>, p: nat, n: nat)
    requires |a| == |b| && n <= |a| && p <= 8 * |a|
    ensures PrefixAgrees(a, b, if p < 8 * n then p else 8 * n)
       <==> forall i: nat :: i < n ==> Agree(a[i], b[i], TopMask(Reach(p, i)))
    decreases n
  {
    hide Agree, SameBit;
    if n > 0 {
      OctetsPrefix(a, b, p, n - 1);
      OctetPrefix(a, b, n - 1, Reach(p, n - 1));
      EmptyMask(a[n - 1], b[n - 1]);
    }
  }

  lemma MaskedWords(a: seq<bv8>, b: seq<bv8>, m: bv8, n: bv8, o: bv8, p: bv8)
    requires |a| == |b| == 4
    ensures Masked(Word(a[0], a[1], a[2], a[3]), Word(m, n, o, p))
         == Masked(Word(b[0], b[1], b[2], b[3]), Word(m, n, o, p))
       <==> (Masked8(a[0], m) == Masked8(b[0], m) && Masked8(a[1], n) == Masked8(b[1], n)
             && Masked8(a[2], o) == Masked8(b[2], o) && Masked8(a[3], p) == Masked8(b[3], p))
  {
    hide Word, Masked, Masked8;
    MaskOctets(a[0], a[1], a[2], a[3], m, n, o, p);
    MaskOctets(b[0], b[1], b[2], b[3], m, n, o, p);
    var x0, x1, x2, x3 := Masked8(a[0], m), Masked8(a[1], n), Masked8(a[2], o), Masked8(a[3], p);
    var y0, y1, y2, y3 := Masked8(b[0], m), Masked8(b[1], n), Masked8(b[2], o), Masked8(b[3], p);
    if Word(x0, x1, x2, x3) == Word(y0, y1, y2, y3) {
      WordIsInjective(x0, x1, x2, x3, y0, y1, y2, y3);
    }
  }

  /** The v4 mask comparison is agreement on the first `p` bits. */
  lemma WordPrefix(a: seq<bv8>, b: seq<bv8>, p: nat)
    requires |a| == |b| == 4 && 1 <= p <= 32
    ensures Masked(Word(a[0], a[1], a[2], a[3]), NetMask(p)) == Masked(Word(b[0], b[1], b[2], b[3]), NetMask(p))
       <==> PrefixAgrees(a, b, p)
  {
    hide Word, Masked, Masked8, NetMask, SameBit, TopMask, Reach;
    if p <= 16 { ShiftedMaskLow(p); } else { ShiftedMaskHigh(p); }
    MaskedWords(a, b, TopMask(Reach(p, 0)), TopMask(Reach(p, 1)), TopMask(Reach(p, 2)), TopMask(Reach(p, 3)));
    OctetsPrefix(a, b, p, 4);
  }

  // ---- Prefixes on octets as numbers ----

  lemma OneBit(x: bv8, y: bv8, k: nat)
    requires k < 8
    ensures Agree(x, y, Select(k)) <==> (Masked8(x, Select(k)) == 0 <==> Masked8(y, Select(k)) == 0)
  {
    match k
    case 0 => case 1 => case 2 => case 3 => case 4 => case 5 => case 6 => case 7 =>
  }

  lemma DigitIsSelected(a: bool, b: bool, c: bool, d: bool, e: bool, f: bool, g: bool, h: bool, k: nat)
    requires k < 8
    ensures Masked8(FromDigits(a, b, c, d, e, f, g, h), Select(k)) != 0 <==> [a, b, c, d, e, f, g, h][k]
  {
    match k
    case 0 => case 1 => case 2 => case 3 => case 4 => case 5 => case 6 => case 7 =>
  }

  lemma SelectedBit(x: byte, k: nat)
    requires k < 8
    ensures Masked8(ToOctet(x), Select(k)) != 0 <==> Digit(x, k)
  {
    hide Masked8, Select, Digit, FromDigits;
    DigitIsSelected(Digit(x, 0), Digit(x, 1), Digit(x, 2), Digit(x, 3),
                    Digit(x, 4), Digit(x, 5), Digit(x, 6), Digit(x, 7), k);
  }

  function Octets(ip: Ip): bytes { if ip.V4? then ip.v4 else ip.v6 }

  /** Bit `j` of an address: the octets in order, in each the most significant bit first. */
  function BitOf(octets: bytes, j: nat): nat
    requires j < 8 * |octets|
  {
    octets[j / 8] as int / Weight(j % 8) % 2
  }

  /**
   A network covers exactly the addresses of its family whose first bits, as binary
   digits of the octets, are its own.
   */
  lemma {:induction false} CoversByDigits(n: IpNetwork, addr: Ip)
    requires ValidNetwork(n)
    ensures Covers(n, addr)
       <==> && n.network.V4? == addr.V4?
            && (forall j: nat :: j < n.prefix as nat ==> BitOf(Octets(n.network), j) == BitOf(Octets(addr), j))
  {
    hide Select, Weight, PrefixAgrees, BitOf, ToWords;
    if n.network.V4? == addr.V4? {
      DigitsAgree(Octets(n.network), Octets(addr), n.prefix);
    }
  }

  lemma DigitsAgree(a: bytes, b: bytes, p: nat)
    requires |a| == |b| && p <= 8 * |a|
    ensures PrefixAgrees(ToWords(a), ToWords(b), p) <==> forall j: nat :: j < p ==> BitOf(a, j) == BitOf(b, j)
  {
    hide SameBit, BitOf;
    forall j: nat | j < p ensures SameBit(ToWords(a), ToWords(b), j) <==> BitOf(a, j) == BitOf(b, j) {
      DigitIsBit(a, b, j);
    }
  }

  lemma DigitIsBit(a: bytes, b: bytes, j: nat)
    requires |a| == |b| && j < 8 * |a|
    ensures SameBit(ToWords(a), ToWords(b), j) <==> BitOf(a, j) == BitOf(b, j)
  {
    hide Masked8, Select, Agree, ToOctet, Weight;
    var k := j % 8;
    var x, y := a[j / 8], b[j / 8];
    OneBit(ToOctet(x), ToOctet(y), k);
    SelectedBit(x, k);
    SelectedBit(y, k);
    assert SameBit(ToWords(a), ToWords(b), j) <==> Agree(ToOctet(x), ToOctet(y), Select(k));
    assert BitOf(a, j) == x as int / Weight(k) % 2 && BitOf(b, j) == y as int / Weight(k) % 2;
  }

  // ---- What a network means, and how far the code is from it ----

  /** Two networks of one family are nested or disjoint. */
  lemma NestedOrDisjoint(outer: IpNetwork, inner: IpNetwork)
    requires SameFamily(outer.network, inner.network)
    requires ValidNetwork(outer) && ValidNetwork(inner) && outer.prefix <= inner.prefix
    ensures (forall addr :: Covers(inner, addr) ==> Covers(outer, addr))
         || (forall addr :: Covers(inner, addr) ==> !Covers(outer, addr))
  {
    if addr :| Covers(inner, addr) && Covers(outer, addr) {
      forall other | Covers(inner, other) ensures Covers(outer, other) {
        var o, a, i, x := ToBytes(outer.network), ToBytes(addr), ToBytes(inner.network), ToBytes(other);
        forall j: nat | j < outer.prefix as nat ensures SameBit(o, x, j) {
          assert SameBit(o, a, j) && SameBit(i, a, j) && SameBit(i, x, j);
        }
      }
    }
  }

  /**
   The code decides membership for every address exactly when the network's
   prefix is empty; for any longer prefix some address of the family is wrongly
   accepted.
   */
  lemma RightExactlyForEmptyPrefix(n: IpNetwork)
    requires ValidNetwork(n)
    ensures (forall addr :: AsWritten(n, addr) == Covers(n, addr)) <==> n.prefix == 0
  {
    hide *;
    if n.prefix > 0 {
      var wrong := WronglyAccepted(n);
    } else {
      EmptyPrefixIsRight(n);
    }
  }

  lemma EmptyPrefixIsRight(n: IpNetwork)
    requires n.prefix == 0
    ensures forall addr :: AsWritten(n, addr) == Covers(n, addr)
  {
    hide SameBit;
  }

  /** One of the two addresses that differ in the first bit only. */
  lemma WronglyAccepted(n: IpNetwork) returns (wrong: Ip)
    requires ValidNetwork(n) && n.prefix > 0
    ensures AsWritten(n, wrong) && !Covers(n, wrong)
  {
    hide Covers, BitOf;
    var low, high := FirstBit(n.network, false), FirstBit(n.network, true);
    FirstDigits(Octets(low), Octets(high));
    CoversByDigits(n, low);
    CoversByDigits(n, high);
    wrong := if Covers(n, low) then high else low;
  }

  lemma FirstDigits(a: bytes, b: bytes)
    requires a != [] && b != [] && a[0] == 0x00 && b[0] == 0x80
    ensures BitOf(a, 0) != BitOf(b, 0)
  {
  }

  /** An address of the same family as `ip`, all zeros behind its first bit. */
  function FirstBit(ip: Ip, set1: bool): (r: Ip)
    ensures SameFamily(ip, r)
    ensures Octets(r)[0] == if set1 then 0x80 else 0x00
  {
    var first: byte := if set1 then 0x80 else 0x00;
    if ip.V4? then V4([first] + seq(3, _ => 0)) else V6([first] + seq(15, _ => 0))
  }

  // ---- parseCidr ----

  const SLASH: byte := 0x2F

  /** `makeAddress` and `stoul` are library calls; either may throw. */
  function ParseCidr(cidr: bytes, makeAddress: bytes -> Option<Ip>, stoul: bytes -> Option<nat>)
    : (r: Option<IpNetwork>)
    ensures r.Some? ==> ValidNetwork(r.value)
  {
    match Find(cidr, [SLASH], 0)
    case None =>
      (match makeAddress(cidr)
       case None => None
       case Some(ip) => Some(IpNetwork(ip, if ip.V4? then 32 else 128)))
    case Some(pos) =>
      (match (makeAddress(cidr[..pos]), stoul(cidr[pos + 1..]))
       case (Some(ip), Some(prefix)) =>
         if prefix > Width(ip) then None else Some(IpNetwork(ip, prefix))
       case _ => None)
  }

  /**
   What a CIDR text denotes: an address and the prefix behind its slash, if that is at
   most 32 or 128; an address alone has the full prefix.
   */
  lemma {:induction false} ParsedCidr(addr: bytes, p: bytes,
                                      makeAddress: bytes -> Option<Ip>, stoul: bytes -> Option<nat>)
    requires 0x2F !in addr
    ensures var width := (ip: Ip) => if ip.V4? then 32 else 128;
      var ip, n := makeAddress(addr), stoul(p);
      && ParseCidr(addr, makeAddress, stoul)
         == (if ip.Some? then Some(IpNetwork(ip.value, width(ip.value))) else None)
      && ParseCidr(addr + ([0x2F] + p), makeAddress, stoul)
         == if ip.Some? && n.Some? && n.value <= width(ip.value) then Some(IpNetwork(ip.value, n.value)) else None
  {
    hide At;
    FirstOccurrence(addr, [SLASH], p);
    var cidr := addr + ([0x2F] + p);
    assert cidr[..|addr|] == addr && cidr[|addr| + 1..] == p;
    NoOccurrence(addr, SLASH);
  }

  lemma NoOccurrence(s: bytes, b: byte)
    requires b !in s
    ensures Find(s, [b], 0) == None
  {
    var r := Find(s, [b], 0);
    if r.Some? {
      AtOne(s, r.value, b);
      assert false;
    }
  }
}
