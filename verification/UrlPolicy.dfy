/**
 * The fetch-URL policy of src/web/url-policy.ts. WHATWG URL parsing and toLowerCase come in
 * through `Env`; the IPv4 tests are on 32-bit words.
 */
module UrlPolicy {
  import opened Text
  import opened JsonText
  import opened JsonStringify
  import opened Scope

  const MAX_URL_CHARS: nat := 2048
  const OCTET: int := 256
  const WORD: int := 0x1_0000_0000

  datatype Parsed = Parsed(protocol: Str, username: Str, password: Str, hash: Str, port: Str, hostname: Str, href: Str)

  datatype Env = Env(parse: Str -> Option<Parsed>, lower: Str -> Str)

  // ---- dotted quads ----

  predicate Decimal(part: Str) { part != [] && AllDigits(part) }

  predicate IsOctet(part: Str) { Decimal(part) && DecimalValue(part) < OCTET }

  function OctetValue(part: Str): nat
    requires IsOctet(part)
  {
    DecimalValue(part)
  }

  function Weighted(parts: seq<Str>): nat
    requires forall i | 0 <= i < |parts| :: IsOctet(parts[i])
  {
    if parts == [] then 0 else Weighted(parts[..|parts| - 1]) * OCTET + OctetValue(parts[|parts| - 1])
  }

  function Ipv4(host: Str): Option<nat> {
    var parts := Split(host, DOT);
    if |parts| == 4 && forall i | 0 <= i < 4 :: IsOctet(parts[i]) then Some(Weighted(parts)) else None
  }

  method Ipv4ToInt(host: Str) returns (r: Option<nat>)
    ensures r == Ipv4(host)
  {
    var parts := Split(host, DOT);
    if |parts| != 4 {
      return None;
    }
    var value: nat := 0;
    for k := 0 to |parts|
      invariant forall i | 0 <= i < k :: IsOctet(parts[i])
      invariant value == Weighted(parts[..k])
    {
      if !Decimal(parts[k]) {
        return None;
      }
      var octet := DecimalValue(parts[k]);
      if octet > 255 {
        return None;
      }
      assert parts[..k + 1][..k] == parts[..k];
      value := value * OCTET + octet;
    }
    assert parts[..|parts|] == parts;
    return Some(value);
  }

  function QuadText(a: nat, b: nat, c: nat, d: nat): Str { Join([Digits(a), Digits(b), Digits(c), Digits(d)], DOT) }

  function QuadValue(a: nat, b: nat, c: nat, d: nat): nat { ((a * OCTET + b) * OCTET + c) * OCTET + d }

  /** A dotted quad reads back as its value. */
  lemma QuadReadsBack(a: nat, b: nat, c: nat, d: nat)
    requires a < OCTET && b < OCTET && c < OCTET && d < OCTET
    ensures Ipv4(QuadText(a, b, c, d)) == Some(QuadValue(a, b, c, d))
  {
    hide Split, Join, Digits, DecimalValue;
    var parts := [Digits(a), Digits(b), Digits(c), Digits(d)];
    SplitJoin(parts, DOT);
    DigitsValue(a);
    DigitsValue(b);
    DigitsValue(c);
    DigitsValue(d);
    FourWeighted(parts);
  }

  lemma FourWeighted(parts: seq<Str>)
    requires |parts| == 4 && forall i | 0 <= i < 4 :: IsOctet(parts[i])
    ensures Weighted(parts)
         == QuadValue(DecimalValue(parts[0]), DecimalValue(parts[1]), DecimalValue(parts[2]), DecimalValue(parts[3]))
  {
    hide DecimalValue;
    assert parts[..3][..2] == parts[..2] && parts[..2][..1] == parts[..1] && parts[..1][..0] == [];
    assert Weighted(parts[..1]) == DecimalValue(parts[0]);
    assert Weighted(parts[..2]) == Weighted(parts[..1]) * OCTET + DecimalValue(parts[1]);
    assert Weighted(parts[..3]) == Weighted(parts[..2]) * OCTET + DecimalValue(parts[2]);
  }

  lemma Ipv4IsWord(host: Str)
    ensures Ipv4(host).Some? ==> Ipv4(host).value < WORD
  {
    hide Split, DecimalValue;
    if Ipv4(host).Some? {
      FourWeighted(Split(host, DOT));
    }
  }

  // ---- blocks as bit masks ----

  /** Binary notation of a small number. */
  function Nibble(n: nat): bv32
    requires n < 16
  {
    (if n >= 8 then 8 else 0) + (if n % 8 >= 4 then 4 else 0) + (if n % 4 >= 2 then 2 else 0) + (if n % 2 == 1 then 1 else 0)
  }

  function Octet(n: nat): bv32
    requires n < OCTET
  {
    Glue(Nibble(n / 16), Nibble(n % 16))
  }

  function Glue(high: bv32, low: bv32): bv32 { high * 16 + low }

  function Pack(a: bv32, b: bv32, c: bv32, d: bv32): bv32 { (a << 24) | (b << 16) | (c << 8) | d }

  /** The word a bitwise operator makes of a number below 2^32. */
  function Word(n: nat): bv32
    requires n < WORD
  {
    Pack(Octet(n / 0x100_0000), Octet(n / 0x1_0000 % OCTET), Octet(n / 0x100 % OCTET), Octet(n % OCTET))
  }

  lemma NibbleNext(n: nat)
    requires n < 15
    ensures Nibble(n + 1) == Nibble(n) + 1
  {
  }

  lemma CarryNibble(a: bv32, b: bv32)
    ensures Glue(a, b + 1) == Glue(a, b) + 1
    ensures Glue(a + 1, 0) == Glue(a, 15) + 1
  {
  }

  lemma GlueLow(q: nat, r: nat)
    requires q < 16 && r < 15
    ensures Glue(Nibble(q), Nibble(r + 1)) == Glue(Nibble(q), Nibble(r)) + 1
  {
    hide Nibble, Glue;
    CarryNibble(Nibble(q), Nibble(r));
    NibbleNext(r);
  }

  lemma GlueHigh(q: nat)
    requires q < 15
    ensures Glue(Nibble(q + 1), Nibble(0)) == Glue(Nibble(q), Nibble(15)) + 1
  {
    hide Nibble, Glue;
    NibbleEnds();
    CarryNibble(Nibble(q), 0);
    NibbleNext(q);
  }

  lemma HalvesNext(n: nat)
    ensures if n % 16 < 15 then (n + 1) / 16 == n / 16 && (n + 1) % 16 == n % 16 + 1
            else n % 16 == 15 && (n + 1) / 16 == n / 16 + 1 && (n + 1) % 16 == 0
  {
  }

  lemma OctetNext(n: nat)
    requires n < OCTET - 1
    ensures Octet(n + 1) == Octet(n) + 1
  {
    hide Nibble, Glue;
    HalvesNext(n);
    if n % 16 < 15 {
      GlueLow(n / 16, n % 16);
    } else {
      GlueHigh(n / 16);
    }
  }

  lemma NibbleEnds()
    ensures Nibble(0) == 0 && Nibble(15) == 15
  {
  }

  lemma OctetEnds()
    ensures Octet(0) == 0 && Octet(255) == 0xFF
  {
    hide Nibble;
    NibbleEnds();
  }

  lemma CarryNone(a: bv32, b: bv32, c: bv32, d: bv32)
    requires a < 0x100 && b < 0x100 && c < 0x100 && d < 0xFF
    ensures (a << 24) | (b << 16) | (c << 8) | (d + 1) == ((a << 24) | (b << 16) | (c << 8) | d) + 1
  {
  }

  lemma CarryOne(a: bv32, b: bv32, c: bv32)
    requires a < 0x100 && b < 0x100 && c < 0xFF
    ensures (a << 24) | (b << 16) | ((c + 1) << 8) | 0 == ((a << 24) | (b << 16) | (c << 8) | 0xFF) + 1
  {
  }

  lemma CarryTwo(a: bv32, b: bv32)
    requires a < 0x100 && b < 0xFF
    ensures (a << 24) | ((b + 1) << 16) | (0 << 8) | 0 == ((a << 24) | (b << 16) | (0xFF << 8) | 0xFF) + 1
  {
  }

  lemma CarryThree(a: bv32)
    requires a < 0xFF
    ensures ((a + 1) << 24) | (0 << 16) | (0 << 8) | 0 == ((a << 24) | (0xFF << 16) | (0xFF << 8) | 0xFF) + 1
  {
  }

  lemma OctetSize(n: nat)
    requires n < OCTET
    ensures Octet(n) < 0x100 && (n < 255 ==> Octet(n) < 0xFF)
  {
    hide Octet;
    OctetEnds();
    OctetOrder(n, 255);
    OctetOrder(255, n);
  }

  lemma DivisionNext(n: nat)
    ensures if n % OCTET < 255 then (n + 1) / OCTET == n / OCTET && (n + 1) % OCTET == n % OCTET + 1
            else (n + 1) / OCTET == n / OCTET + 1 && (n + 1) % OCTET == 0
  {
  }

  lemma WordOctets(n: nat)
    requires n < WORD
    ensures var q := n / OCTET;
            var r := q / OCTET;
            r / OCTET < OCTET && Word(n) == Pack(Octet(r / OCTET), Octet(r % OCTET), Octet(q % OCTET), Octet(n % OCTET))
  {
    hide Octet, Pack;
  }

  /** The words count up from zero with their numbers: they are the 32-bit conversion of these. */
  lemma WordCounts(n: nat)
    requires n < WORD
    ensures Word(0) == 0
    ensures n + 1 < WORD ==> Word(n + 1) == Word(n) + 1
  {
    hide Octet, Word;
    OctetEnds();
    WordOctets(0);
    if n + 1 < WORD {
      var q := n / OCTET;
      var r := q / OCTET;
      WordOctets(n);
      WordOctets(n + 1);
      DivisionNext(n);
      DivisionNext(q);
      DivisionNext(r);
      var a, b, c, d := r / OCTET, r % OCTET, q % OCTET, n % OCTET;
      OctetSize(a);
      OctetSize(b);
      OctetSize(c);
      OctetSize(d);
      if d < 255 {
        OctetNext(d);
        CarryNone(Octet(a), Octet(b), Octet(c), Octet(d));
      } else if c < 255 {
        OctetNext(c);
        CarryOne(Octet(a), Octet(b), Octet(c));
      } else if b < 255 {
        OctetNext(b);
        CarryTwo(Octet(a), Octet(b));
      } else {
        OctetNext(a);
        CarryThree(Octet(a));
      }
    }
  }

  lemma NibbleSize(n: nat)
    requires n < 16
    ensures Nibble(n) < 16
  {
  }

  lemma OneMore(a: bv32, b: bv32)
    requires a <= b < 0x100
    ensures a < b + 1
  {
  }

  lemma GlueSize(a: bv32, b: bv32)
    requires a < 16 && b < 16
    ensures Glue(a, b) < 0x100
  {
  }

  lemma OctetBelow(n: nat)
    requires n < OCTET
    ensures Octet(n) < 0x100
  {
    hide Nibble, Glue;
    NibbleSize(n / 16);
    NibbleSize(n % 16);
    GlueSize(Nibble(n / 16), Nibble(n % 16));
  }

  lemma {:induction false} OctetGrows(m: nat, n: nat)
    requires m < n < OCTET
    ensures Octet(m) < Octet(n)
    decreases n
  {
    hide Octet;
    OctetNext(n - 1);
    OctetBelow(n - 1);
    if m < n - 1 {
      OctetGrows(m, n - 1);
    }
    OneMore(Octet(m), Octet(n - 1));
  }

  /** Octets are ordered as the numbers they stand for. */
  lemma OctetOrder(m: nat, n: nat)
    requires m < OCTET && n < OCTET
    ensures Octet(m) <= Octet(n) <==> m <= n
    ensures Octet(m) < 0x100
  {
    hide Octet;
    OctetBelow(m);
    if m < n {
      OctetGrows(m, n);
    } else if n < m {
      OctetGrows(n, m);
    }
  }

  function Mask(bits: bv6): bv32
    requires bits <= 32
  {
    if bits == 0 then 0 else 0xffff_ffff << (32 - bits)
  }

  predicate InRange(ip: bv32, base: bv32, bits: bv6)
    requires bits <= 32
  {
    ip & Mask(bits) == base & Mask(bits)
  }

  /** A rule of the policy, with the interval of addresses it stands for. */
  datatype Block = Block(base: bv32, bits: bv6, first: nat, last: nat)

  /**
   * The eight blocks: loopback (RFC 1122 section 3.2.1.3), private (RFC 1918 section 3),
   * link-local, shared (RFC 6598 section 7), "this" network and multicast.
   */
  function Blocks(): (bs: seq<Block>)
    ensures |bs| == 8 && forall i | 0 <= i < 8 :: bs[i].bits <= 32
  {
    [Block(0x7F00_0000, 8, 0x7F00_0000, 0x7FFF_FFFF),
     Block(0x0A00_0000, 8, 0x0A00_0000, 0x0AFF_FFFF),
     Block(0xAC10_0000, 12, 0xAC10_0000, 0xAC1F_FFFF),
     Block(0xC0A8_0000, 16, 0xC0A8_0000, 0xC0A8_FFFF),
     Block(0xA9FE_0000, 16, 0xA9FE_0000, 0xA9FE_FFFF),
     Block(0x6440_0000, 10, 0x6440_0000, 0x647F_FFFF),
     Block(0x0000_0000, 8, 0x0000_0000, 0x00FF_FFFF),
     Block(0xE000_0000, 4, 0xE000_0000, 0xEFFF_FFFF)]
  }

  predicate InBlock(n: nat, b: Block) { b.first <= n <= b.last }

  /** ipv4Denied: the first block whose mask test succeeds. */
  method Ipv4Denied(n: nat) returns (rule: Option<nat>)
    requires n < WORD
    ensures rule.None? <==> forall i | 0 <= i < 8 :: !InBlock(n, Blocks()[i])
    ensures rule.Some? ==> rule.value < 8 && InBlock(n, Blocks()[rule.value])
  {
    hide InRange, InBlock, Word, Blocks;
    var rules := Blocks();
    for k := 0 to |rules|
      invariant forall i | 0 <= i < k :: !InBlock(n, rules[i])
    {
      BlockIsInterval(n, k);
      if InRange(Word(n), rules[k].base, rules[k].bits) {
        return Some(k);
      }
    }
    return None;
  }

  predicate Denied(n: nat) { exists i | 0 <= i < 8 :: InBlock(n, Blocks()[i]) }

  lemma MaskConstants()
    ensures Mask(4) == 0xF000_0000 && Mask(8) == 0xFF00_0000 && Mask(10) == 0xFFC0_0000
    ensures Mask(12) == 0xFFF0_0000 && Mask(16) == 0xFFFF_0000
  {
  }

  lemma LiteralMasks(a: bv32, b: bv32, c: bv32, d: bv32)
    requires a < 0x100 && b < 0x100 && c < 0x100 && d < 0x100
    ensures ((a << 24) | (b << 16) | (c << 8) | d) & 0xFF00_0000 == 0x7F00_0000 & 0xFF00_0000 <==> a == 127
    ensures ((a << 24) | (b << 16) | (c << 8) | d) & 0xFF00_0000 == 0x0A00_0000 & 0xFF00_0000 <==> a == 10
    ensures ((a << 24) | (b << 16) | (c << 8) | d) & 0xFFF0_0000 == 0xAC10_0000 & 0xFFF0_0000 <==> a == 172 && 16 <= b <= 31
    ensures ((a << 24) | (b << 16) | (c << 8) | d) & 0xFFFF_0000 == 0xC0A8_0000 & 0xFFFF_0000 <==> a == 192 && b == 168
    ensures ((a << 24) | (b << 16) | (c << 8) | d) & 0xFFFF_0000 == 0xA9FE_0000 & 0xFFFF_0000 <==> a == 169 && b == 254
    ensures ((a << 24) | (b << 16) | (c << 8) | d) & 0xFFC0_0000 == 0x6440_0000 & 0xFFC0_0000 <==> a == 100 && 64 <= b <= 127
    ensures ((a << 24) | (b << 16) | (c << 8) | d) & 0xFF00_0000 == 0x0000_0000 & 0xFF00_0000 <==> a == 0
    ensures ((a << 24) | (b << 16) | (c << 8) | d) & 0xF000_0000 == 0xE000_0000 & 0xF000_0000 <==> 224 <= a <= 239
  {
  }

  /** What each mask test reads off the octets of a word. */
  lemma MasksOnOctets(a: bv32, b: bv32, c: bv32, d: bv32)
    requires a < 0x100 && b < 0x100 && c < 0x100 && d < 0x100
    ensures var w := Pack(a, b, c, d);
            && (InRange(w, 0x7F00_0000, 8) <==> a == 127)
            && (InRange(w, 0x0A00_0000, 8) <==> a == 10)
            && (InRange(w, 0xAC10_0000, 12) <==> a == 172 && 16 <= b <= 31)
            && (InRange(w, 0xC0A8_0000, 16) <==> a == 192 && b == 168)
            && (InRange(w, 0xA9FE_0000, 16) <==> a == 169 && b == 254)
            && (InRange(w, 0x6440_0000, 10) <==> a == 100 && 64 <= b <= 127)
            && (InRange(w, 0x0000_0000, 8) <==> a == 0)
            && (InRange(w, 0xE000_0000, 4) <==> 224 <= a <= 239)
  {
    hide Mask;
    MaskConstants();
    LiteralMasks(a, b, c, d);
  }

  lemma OctetConstants()
    ensures Octet(127) == 127 && Octet(10) == 10 && Octet(172) == 172 && Octet(16) == 16 && Octet(31) == 31
    ensures Octet(192) == 192 && Octet(168) == 168 && Octet(169) == 169 && Octet(254) == 254 && Octet(100) == 100
    ensures Octet(64) == 64 && Octet(0) == 0 && Octet(224) == 224 && Octet(239) == 239
  {
    hide Nibble;
    NibbleConstants();
  }

  lemma NibbleConstants()
    ensures Nibble(0) == 0 && Nibble(1) == 1 && Nibble(4) == 4 && Nibble(6) == 6 && Nibble(7) == 7 && Nibble(8) == 8 && Nibble(9) == 9
    ensures Nibble(10) == 10 && Nibble(12) == 12 && Nibble(14) == 14 && Nibble(15) == 15
  {
  }

  lemma OctetBetween(n: nat, low: nat, high: nat)
    requires n < OCTET && low < OCTET && high < OCTET
    ensures Octet(low) <= Octet(n) <= Octet(high) <==> low <= n <= high
    ensures Octet(n) == Octet(low) <==> n == low
    ensures Octet(n) < 0x100
  {
    hide Octet;
    OctetOrder(low, n);
    OctetOrder(n, low);
    OctetOrder(n, high);
  }

  /** Which octets put a number into each block. */
  predicate QuadInBlock(a: nat, b: nat, i: nat) {
    match i
    case 0 => a == 127
    case 1 => a == 10
    case 2 => a == 172 && 16 <= b <= 31
    case 3 => a == 192 && b == 168
    case 4 => a == 169 && b == 254
    case 5 => a == 100 && 64 <= b <= 127
    case 6 => a == 0
    case _ => 224 <= a <= 239
  }

  lemma BlockOnOctets(n: nat, i: nat)
    requires n < WORD && i < 8
    ensures InBlock(n, Blocks()[i]) <==> QuadInBlock(n / 0x100_0000, n / 0x1_0000 % OCTET, i)
  {
  }

  lemma WordOnOctets(n: nat, i: nat)
    requires n < WORD && i < 8
    ensures InRange(Word(n), Blocks()[i].base, Blocks()[i].bits) <==> QuadInBlock(n / 0x100_0000, n / 0x1_0000 % OCTET, i)
  {
    hide Octet, InRange, Pack;
    var a, b, c, d := n / 0x100_0000, n / 0x1_0000 % OCTET, n / 0x100 % OCTET, n % OCTET;
    OctetBetween(c, 0, 0);
    OctetBetween(d, 0, 0);
    OctetBetween(a, 127, 127);
    OctetBetween(a, 10, 10);
    OctetBetween(a, 172, 172);
    OctetBetween(b, 16, 31);
    OctetBetween(a, 192, 192);
    OctetBetween(b, 168, 168);
    OctetBetween(a, 169, 169);
    OctetBetween(b, 254, 254);
    OctetBetween(a, 100, 100);
    OctetBetween(b, 64, 127);
    OctetBetween(a, 0, 0);
    OctetBetween(a, 224, 239);
    OctetConstants();
    MasksOnOctets(Octet(a), Octet(b), Octet(c), Octet(d));
  }

  /** The 32-bit mask test of each block is the test for its interval of integers. */
  lemma BlockIsInterval(n: nat, i: nat)
    requires n < WORD && i < 8
    ensures InRange(Word(n), Blocks()[i].base, Blocks()[i].bits) <==> InBlock(n, Blocks()[i])
  {
    hide Word, Blocks, InRange, InBlock, QuadInBlock;
    BlockOnOctets(n, i);
    WordOnOctets(n, i);
  }

  lemma QuadParts(a: nat, b: nat, c: nat, d: nat)
    requires a < OCTET && b < OCTET && c < OCTET && d < OCTET
    ensures var n := QuadValue(a, b, c, d);
            n < WORD && n / 0x100_0000 == a && n / 0x1_0000 % OCTET == b
  {
    var n := QuadValue(a, b, c, d);
    assert n == (a * OCTET + b) * 0x1_0000 + (c * OCTET + d) && c * OCTET + d < 0x1_0000;
    assert n / 0x1_0000 == a * OCTET + b;
    assert n == a * 0x100_0000 + (b * 0x1_0000 + c * OCTET + d) && b * 0x1_0000 + c * OCTET + d < 0x100_0000;
  }

  /** The blocks in dotted-quad notation. */
  lemma DeniedQuads(a: nat, b: nat, c: nat, d: nat)
    requires a < OCTET && b < OCTET && c < OCTET && d < OCTET
    ensures Denied(QuadValue(a, b, c, d)) <==>
              || a == 127 || a == 10 || (a == 172 && 16 <= b <= 31) || (a == 192 && b == 168)
              || (a == 169 && b == 254) || (a == 100 && 64 <= b <= 127) || a == 0 || 224 <= a <= 239
  {
    hide Blocks, InBlock;
    var n := QuadValue(a, b, c, d);
    QuadParts(a, b, c, d);
    hide QuadValue;
    forall i | 0 <= i < 8 ensures InBlock(n, Blocks()[i]) <==> QuadInBlock(a, b, i) {
      BlockOnOctets(n, i);
    }
    assert QuadInBlock(a, b, 0) <==> a == 127;
    assert QuadInBlock(a, b, 1) <==> a == 10;
    assert QuadInBlock(a, b, 2) <==> a == 172 && 16 <= b <= 31;
    assert QuadInBlock(a, b, 3) <==> a == 192 && b == 168;
    assert QuadInBlock(a, b, 4) <==> a == 169 && b == 254;
    assert QuadInBlock(a, b, 5) <==> a == 100 && 64 <= b <= 127;
    assert QuadInBlock(a, b, 6) <==> a == 0;
    assert QuadInBlock(a, b, 7) <==> 224 <= a <= 239;
  }

  // ---- whole URLs ----

  predicate LowerAlnum(u: CodeUnit) { IsDigit(u) || 0x61 <= u <= 0x7A }

  /** The expression ^[a-z0-9]([a-z0-9-]{0,61}[a-z0-9])?$ */
  predicate DnsLabel(s: Str) {
    && 1 <= |s| <= 63 && LowerAlnum(s[0]) && LowerAlnum(s[|s| - 1])
    && forall i | 0 <= i < |s| :: LowerAlnum(s[i]) || s[i] == 0x2D
  }

  const LOCALHOST: Str := Ascii("localhost")

  function HostOf(env: Env, p: Parsed): Str {
    var host := env.lower(p.hostname);
    if host != [] && host[|host| - 1] == DOT then host[..|host| - 1] else host
  }

  /** A public destination: a dotted quad outside the blocks, or a name of several well-formed labels. */
  predicate Public(host: Str) {
    && host != [] && COLON !in host && host != LOCALHOST && !EndsWith(host, [DOT] + LOCALHOST)
    && match Ipv4(host)
       case Some(n) => !Denied(n)
       case None => DOT in host && |host| <= 253 && forall i | 0 <= i < |Split(host, DOT)| :: DnsLabel(Split(host, DOT)[i])
  }

  lemma LabelsOf(host: Str)
    ensures var labels := Split(host, DOT);
            && (DOT in host <==> |labels| >= 2)
            && (labels[|labels| - 1] == LOCALHOST <==> host == LOCALHOST || EndsWith(host, [DOT] + LOCALHOST))
  {
    hide Split, EndsWith;
    var labels := Split(host, DOT);
    if DOT !in host {
      SplitNone(host, DOT);
    }
    if |labels| == 1 {
      SplitParts(host, DOT);
      JoinSplit(host, DOT);
    }
    assert DOT !in LOCALHOST;
    SplitNone(LOCALHOST, DOT);
    TextSuffixIsLabelSuffix(LOCALHOST, host);
    assert labels[|labels| - 1..] == [labels[|labels| - 1]];
  }

  predicate NoControls(s: Str) { forall i | 0 <= i < |s| :: s[i] >= 0x20 && s[i] != 0x7F }

  /** The canonical text of an accepted URL. */
  function Validated(env: Env, raw: Str): Option<Str> {
    if raw == [] || |raw| > MAX_URL_CHARS || !NoControls(raw) then None
    else
      match env.parse(raw)
      case None => None
      case Some(p) =>
        if p.protocol == Ascii("https:") && p.username == [] && p.password == [] && p.hash == [] && p.port == []
           && Public(HostOf(env, p)) then Some(p.href)
        else None
  }

  method ValidateFetchUrl(env: Env, raw: Str) returns (r: Option<Str>)
    ensures r == Validated(env, raw)
  {
    hide Ipv4, Blocks, InBlock, EndsWith, Split, DnsLabel;
    if raw == [] || |raw| > MAX_URL_CHARS || !NoControls(raw) {
      return None;
    }
    var parsed := env.parse(raw);
    if parsed == None {
      return None;
    }
    var p := parsed.value;
    if p.protocol != Ascii("https:") || p.username != [] || p.password != [] || p.hash != [] || p.port != [] {
      return None;
    }
    var host := env.lower(p.hostname);
    if host != [] && host[|host| - 1] == DOT {
      host := host[..|host| - 1];
    }
    if host == [] || COLON in host || host == LOCALHOST || EndsWith(host, [DOT] + LOCALHOST) {
      return None;
    }
    var asInt := Ipv4ToInt(host);
    if asInt.Some? {
      Ipv4IsWord(host);
      var blocked := Ipv4Denied(asInt.value);
      return if blocked.Some? then None else Some(p.href);
    }
    if DOT !in host || |host| > 253 {
      return None;
    }
    var labels := Split(host, DOT);
    for k := 0 to |labels|
      invariant forall i | 0 <= i < k :: DnsLabel(labels[i])
    {
      if !DnsLabel(labels[k]) {
        return None;
      }
    }
    return Some(p.href);
  }

  /** A URL whose host is a dotted quad is accepted only outside the eight blocks. */
  lemma AcceptedQuadIsPublic(env: Env, raw: Str, a: nat, b: nat, c: nat, d: nat)
    requires a < OCTET && b < OCTET && c < OCTET && d < OCTET
    requires Validated(env, raw).Some? && HostOf(env, env.parse(raw).value) == QuadText(a, b, c, d)
    ensures a != 127 && a != 10 && !(a == 172 && 16 <= b <= 31) && !(a == 192 && b == 168)
    ensures !(a == 169 && b == 254) && !(a == 100 && 64 <= b <= 127) && a != 0 && !(224 <= a <= 239)
  {
    hide Ipv4, Denied, QuadText, QuadValue, HostOf;
    QuadReadsBack(a, b, c, d);
    DeniedQuads(a, b, c, d);
  }

  /**
   * Every accepted host is a dotted quad outside all blocks or a name of two or more well-formed
   * labels of at most 253 units; its last label is never "localhost", and it has no colon.
   */
  lemma AcceptedHost(env: Env, raw: Str)
    requires Validated(env, raw).Some?
    ensures var host := HostOf(env, env.parse(raw).value);
            var labels := Split(host, DOT);
            && labels[|labels| - 1] != LOCALHOST && COLON !in host
            && match Ipv4(host)
               case Some(n) => forall i | 0 <= i < 8 :: !InBlock(n, Blocks()[i])
               case None => |labels| >= 2 && |host| <= 253 && forall i | 0 <= i < |labels| :: DnsLabel(labels[i])
  {
    hide Ipv4, Blocks, InBlock, HostOf, DnsLabel, Split, EndsWith;
    LabelsOf(HostOf(env, env.parse(raw).value));
  }
}
