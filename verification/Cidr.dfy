/** IPv4 addresses, net masks and CIDR text: utils.InetToi and the parsing halves of RadixTree.Add and Delete. */
module Cidr {
  import opened Text
  import opened Word

  const MAX_IPV4_BIT: uint32 := 0x8000_0000
  const ADDRESS_BITS: nat := 32

  /** The loops' `bit` after `d` right shifts. */
  function BitAt(d: nat): uint32 {
    if d == 0 then MAX_IPV4_BIT else BitAt(d - 1) / 2
  }

  /** The wrapping `uint32` expression `((1 << (32 - cidr)) - 1) ^ 0xffffffff`. */
  function NetMask(cidr: nat): nat
    requires cidr <= 32
  {
    Xor(WrappedLess(Pow2(32 - cidr)), WORD - 1)
  }

  /** One less than a number shifted into a word. */
  function WrappedLess(n: nat): nat { (n % WORD + WORD - 1) % WORD }

  /**
   * A network prefix: the leading bits of an address, built from the first bit on. `Top` is 0.0.0.0/0; a `Sub` is
   * the lower (false, "go left") or upper (true, "go right") half of the network `up`.
   */
  datatype Prefix = Top | Sub(up: Prefix, bit: bool) {
    function Length(): nat {
      match this
      case Top => 0
      case Sub(up, _) => up.Length() + 1
    }
  }

  predicate HasBit(key: uint32, d: nat) { And(key, BitAt(d)) != 0 }

  /** The leading `n` bits of an address. */
  function Bits(key: uint32, n: nat): (p: Prefix)
    ensures p.Length() == n
  {
    if n == 0 then Top else Sub(Bits(key, n - 1), HasBit(key, n - 1))
  }

  lemma {:induction false} BitAtValue(d: nat)
    ensures BitAt(d) == if d < 32 then Pow2(31 - d) else 0
  {
    if d == 0 {
      Pow2Values();
    } else {
      BitAtValue(d - 1);
    }
  }

  lemma HasBitTests(key: uint32, d: nat)
    ensures HasBit(key, d) <==> d < 32 && TestBit(key, 31 - d)
  {
    BitAtValue(d);
    if d < 32 {
      AndPow2(key, 31 - d);
    }
  }

  lemma WrappedMinusOne(p: nat)
    requires 1 <= p <= WORD
    ensures WrappedLess(p) == p - 1
  {
  }

  /** The wrapping expression is the number with `cidr` leading ones, also for lengths 0 and 32. */
  lemma NetMaskValue(cidr: nat)
    requires cidr <= 32
    ensures Pow2(32 - cidr) <= WORD
    ensures NetMask(cidr) == WORD - Pow2(32 - cidr)
  {
    hide Xor, TestBit, WrappedLess;
    Pow2Values();
    OnesBlock(32, 32 - cidr, 0);
    hide Pow2;
    WrappedMinusOne(Pow2(32 - cidr));
    XorAllOnes(Pow2(32 - cidr) - 1, 32);
  }

  lemma NetMaskBit(cidr: nat, n: nat)
    requires cidr <= 32
    ensures TestBit(NetMask(cidr), n) <==> 32 - cidr <= n < 32
  {
    NetMaskValue(cidr);
    Pow2Values();
    OnesBlock(32, 32 - cidr, n);
  }

  /** The loops' guard `(bit & mask) != 0` holds exactly for the first `cidr` bits. */
  lemma MaskSelectsPrefix(d: nat, cidr: nat)
    requires cidr <= 32
    ensures And(BitAt(d), NetMask(cidr)) != 0 <==> d < cidr
  {
    BitAtValue(d);
    if d < 32 {
      AndSymmetric(BitAt(d), NetMask(cidr));
      AndPow2(NetMask(cidr), 31 - d);
      NetMaskBit(cidr, 31 - d);
    }
  }

  lemma {:induction false} AndSymmetric(x: nat, y: nat)
    ensures And(x, y) == And(y, x)
  {
    if x > 0 && y > 0 {
      AndSymmetric(x / 2, y / 2);
    }
  }

  lemma MaskedBit(a: uint32, c: nat, n: nat)
    requires c <= 32
    ensures TestBit(And(a, NetMask(c)), n) <==> TestBit(a, n) && 32 - c <= n < 32
  {
    NetMaskBit(c, n);
    TestBitAnd(a, NetMask(c), n);
  }

  lemma {:induction false} MaskedEqualThenBits(a: uint32, b: uint32, c: nat, n: nat)
    requires n <= c <= 32 && And(a, NetMask(c)) == And(b, NetMask(c))
    ensures Bits(a, n) == Bits(b, n)
  {
    if n > 0 {
      MaskedEqualThenBits(a, b, c, n - 1);
      HasBitTests(a, n - 1);
      HasBitTests(b, n - 1);
      MaskedBit(a, c, 32 - n);
      MaskedBit(b, c, 32 - n);
    }
  }

  lemma {:induction false} BitsThenBit(a: uint32, b: uint32, n: nat, d: nat)
    requires d < n && Bits(a, n) == Bits(b, n)
    ensures HasBit(a, d) == HasBit(b, d)
  {
    if d < n - 1 {
      BitsThenBit(a, b, n - 1, d);
    }
  }

  lemma MaskedDifferThenBits(a: uint32, b: uint32, c: nat)
    requires c <= 32 && And(a, NetMask(c)) != And(b, NetMask(c))
    ensures Bits(a, c) != Bits(b, c)
  {
    var n := DifferSomewhere(And(a, NetMask(c)), And(b, NetMask(c)));
    MaskedBit(a, c, n);
    MaskedBit(b, c, n);
    HasBitTests(a, 31 - n);
    HasBitTests(b, 31 - n);
    if Bits(a, c) == Bits(b, c) {
      BitsThenBit(a, b, c, 31 - n);
    }
  }

  /** Two networks are the same trie path exactly when their lengths and their masked addresses agree. */
  lemma SameNetwork(a: uint32, ca: nat, b: uint32, cb: nat)
    requires ca <= 32 && cb <= 32
    ensures Bits(a, ca) == Bits(b, cb) <==> ca == cb && And(a, NetMask(ca)) == And(b, NetMask(cb))
  {
    if ca == cb {
      if And(a, NetMask(ca)) == And(b, NetMask(cb)) {
        MaskedEqualThenBits(a, b, ca, ca);
      } else {
        MaskedDifferThenBits(a, b, ca);
      }
    }
  }

  // ---------------------------------------------------------------- utils.InetToi

  datatype AddressResult = Address(value: uint32) | NotANumber | NegativeShift

  /** Go's `uint32(v << pos)` for a 64-bit int `v`. */
  function ShiftIn(v: int, pos: nat): uint32 {
    (v * Pow2(pos)) % WORD
  }

  lemma {:induction false} OrStaysInWord(x: nat, y: nat, w: nat)
    requires x < Pow2(w) && y < Pow2(w)
    ensures Or(x, y) < Pow2(w)
  {
    if x > 0 && y > 0 && w > 0 {
      OrStaysInWord(x / 2, y / 2, w - 1);
    }
  }

  function OrWord(x: uint32, y: uint32): uint32 {
    Pow2Values();
    OrStaysInWord(x, y, 32);
    Or(x, y)
  }

  /** What is left to read, with `ret` read so far and the next segment due at bit `pos`. */
  function ReadSegments(segs: seq<string>, ret: uint32, pos: int): AddressResult {
    if segs == [] then Address(ret)
    else
      match Atoi(segs[0])
      case None => NotANumber
      case Some(v) =>
        if pos < 0 then NegativeShift
        else ReadSegments(segs[1..], OrWord(ret, ShiftIn(v, pos)), pos - 8)
  }

  function ParseAddress(ip: string): AddressResult {
    ReadSegments(Split(ip, '.'), 0, 24)
  }

  method InetToi(ip: string) returns (r: AddressResult)
    ensures r == ParseAddress(ip)
  {
    var ipSegs := Split(ip, '.');
    var ret: uint32 := 0;
    var pos := 24;
    for i := 0 to |ipSegs|
      invariant ReadSegments(ipSegs[i..], ret, pos) == ParseAddress(ip)
    {
      assert ipSegs[i..][1..] == ipSegs[i + 1..];
      var tempInt := Atoi(ipSegs[i]);
      if tempInt.None? {
        return NotANumber;
      }
      if pos < 0 {
        return NegativeShift;   // Go panics on a negative shift count
      }
      ret := OrWord(ret, ShiftIn(tempInt.value, pos));
      pos := pos - 8;
    }
    r := Address(ret);
  }

  predicate Numeric(seg: string) { Atoi(seg).Some? }

  /**
   * Exactly when reading an address succeeds, fails, or stops the program: up to four segments are accepted,
   * and a fifth numeric one asks for a shift by -8.
   */
  lemma {:induction false} ReadOutcomes(segs: seq<string>, ret: uint32, slots: nat)
    requires slots <= 4
    ensures var r := ReadSegments(segs, ret, 8 * slots - 8);
            && (r.Address? <==> |segs| <= slots && forall i :: 0 <= i < |segs| ==> Numeric(segs[i]))
            && (r.NegativeShift? <==> |segs| > slots && forall i :: 0 <= i <= slots ==> Numeric(segs[i]))
    decreases slots
  {
    hide Atoi, OrWord, ShiftIn;
    if segs != [] && Numeric(segs[0]) && slots > 0 {
      ReadOutcomes(segs[1..], OrWord(ret, ShiftIn(Atoi(segs[0]).value, 8 * slots - 8)), slots - 1);
      assert segs == [segs[0]] + segs[1..];
    }
  }

  function DottedQuad(a: nat, b: nat, c: nat, d: nat): string {
    Itoa(a) + ['.'] + (Itoa(b) + ['.'] + (Itoa(c) + ['.'] + Itoa(d)))
  }

  lemma SplitFour(a: string, b: string, c: string, d: string, sep: char)
    requires sep !in a && sep !in b && sep !in c && sep !in d
    ensures Split(a + [sep] + (b + [sep] + (c + [sep] + d)), sep) == [a, b, c, d]
  {
    var cd := c + [sep] + d;
    var bcd := b + [sep] + cd;
    SplitAtFirst(a, sep, bcd);
    SplitAtFirst(b, sep, cd);
    SplitAtFirst(c, sep, d);
    SplitWhole(d, sep);
  }

  lemma SplitQuad(a: nat, b: nat, c: nat, d: nat)
    requires a < 256 && b < 256 && c < 256 && d < 256
    ensures Split(DottedQuad(a, b, c, d), '.') == [Itoa(a), Itoa(b), Itoa(c), Itoa(d)]
    ensures '/' !in DottedQuad(a, b, c, d) && ':' !in DottedQuad(a, b, c, d)
  {
    AtoiOfItoa(a); AtoiOfItoa(b); AtoiOfItoa(c); AtoiOfItoa(d);
    SplitFour(Itoa(a), Itoa(b), Itoa(c), Itoa(d), '.');
  }

  /** A field or-ed in below the ones already there. */
  lemma OrField(ret: uint32, field: uint32, high: nat, k: nat)
    requires ret == high * Pow2(k) && field < Pow2(k)
    ensures OrWord(ret, field) == ret + field
  {
    OrDisjoint(high, field, k);
  }

  lemma ShiftedOctets(a: nat, b: nat, c: nat, d: nat)
    requires a < 256 && b < 256 && c < 256 && d < 256
    ensures ShiftIn(a, 24) == a * 0x100_0000 && ShiftIn(b, 16) == b * 0x1_0000
    ensures ShiftIn(c, 8) == c * 0x100 && ShiftIn(d, 0) == d
  {
    Pow2Values();
    assert Pow2(0) == 1;
  }

  lemma OrOctets(a: nat, b: nat, c: nat, d: nat)
    requires a < 256 && b < 256 && c < 256 && d < 256
    ensures OrWord(0, a * 0x100_0000) == a * 0x100_0000
    ensures OrWord(a * 0x100_0000, b * 0x1_0000) == (a * 256 + b) * 0x1_0000
    ensures OrWord((a * 256 + b) * 0x1_0000, c * 0x100) == ((a * 256 + b) * 256 + c) * 0x100
    ensures OrWord(((a * 256 + b) * 256 + c) * 0x100, d) == ((a * 256 + b) * 256 + c) * 0x100 + d
  {
    Pow2Values();
    OrField(a * 0x100_0000, b * 0x1_0000, a, 24);
    OrField((a * 256 + b) * 0x1_0000, c * 0x100, a * 256 + b, 16);
    OrField(((a * 256 + b) * 256 + c) * 0x100, d, (a * 256 + b) * 256 + c, 8);
  }

  lemma Doubled(x: nat, k: nat)
    requires k > 0
    ensures x * Pow2(k) == 2 * (x * Pow2(k - 1))
  {
  }

  lemma {:induction false} ScaledBound(x: nat, m: nat, k: nat)
    requires x < Pow2(m)
    ensures x * Pow2(k) < Pow2(m + k)
  {
    if k > 0 {
      ScaledBound(x, m, k - 1);
      Doubled(x, k);
    }
  }

  lemma ReadQuad(s: seq<string>, a: nat, b: nat, c: nat, d: nat)
    requires a < 256 && b < 256 && c < 256 && d < 256 && |s| == 4
    requires Atoi(s[0]) == Some(a) && Atoi(s[1]) == Some(b) && Atoi(s[2]) == Some(c) && Atoi(s[3]) == Some(d)
    ensures ReadSegments(s, 0, 24) == Address(((a * 256 + b) * 256 + c) * 256 + d)
  {
    ShiftedOctets(a, b, c, d);
    OrOctets(a, b, c, d);
    assert s[1..][1..] == s[2..] && s[2..][1..] == s[3..] && s[3..][1..] == [];
    var r1, r2, r3 := a * 0x100_0000, (a * 256 + b) * 0x1_0000, ((a * 256 + b) * 256 + c) * 0x100;
    assert ReadSegments(s[3..], r3, 0) == Address(r3 + d);
    assert ReadSegments(s[2..], r2, 8) == ReadSegments(s[3..], r3, 0);
    assert ReadSegments(s[1..], r1, 16) == ReadSegments(s[2..], r2, 8);
  }

  /** Four octets pack to their base-256 value. */
  lemma QuadValue(a: nat, b: nat, c: nat, d: nat)
    requires a < 256 && b < 256 && c < 256 && d < 256
    ensures ParseAddress(DottedQuad(a, b, c, d)) == Address(((a * 256 + b) * 256 + c) * 256 + d)
  {
    SplitQuad(a, b, c, d);
    AtoiOfItoa(a); AtoiOfItoa(b); AtoiOfItoa(c); AtoiOfItoa(d);
    ReadQuad([Itoa(a), Itoa(b), Itoa(c), Itoa(d)], a, b, c, d);
  }

  lemma Shifted24(v: int)
    ensures v * 0x100_0000 % WORD == v % 256 * 0x100_0000
  {
    assert v == v / 256 * 256 + v % 256;
    assert v * 0x100_0000 == v / 256 * WORD + v % 256 * 0x100_0000;
  }

  lemma Shifted16(v: int)
    ensures v * 0x1_0000 % WORD == v % 0x1_0000 * 0x1_0000
  {
    assert v == v / 0x1_0000 * 0x1_0000 + v % 0x1_0000;
    assert v * 0x1_0000 == v / 0x1_0000 * WORD + v % 0x1_0000 * 0x1_0000;
  }

  lemma OrNone(x: uint32)
    ensures OrWord(0, x) == x
  {
  }

  /** A number alone, of either sign, is the first octet, as far as it fits there. */
  lemma LoneNumber(n: int)
    requires 0 <= n <= MAX_INT
    ensures ParseAddress(Itoa(n)) == Address(n % 256 * 0x100_0000)
    ensures ParseAddress("-" + Itoa(n)) == Address(-n % 256 * 0x100_0000)
  {
    hide Atoi, Itoa, Split, ReadSegments;
    AtoiOfItoa(n);
    AtoiReads(n, "");
    SplitWhole(Itoa(n), '.');
    SplitWhole("-" + Itoa(n), '.');
    ReadAlone(Itoa(n), n);
    ReadAlone("-" + Itoa(n), -n);
  }

  lemma ReadAlone(s: string, v: int)
    requires Atoi(s) == Some(v)
    ensures ReadSegments([s], 0, 24) == Address(v % 256 * 0x100_0000)
  {
    hide Atoi, OrWord;
    Pow2Values();
    Shifted24(v);
    OrNone(ShiftIn(v, 24));
    assert [s][1..] == [];
  }

  /** What a later number has too much spills over into the octets before it. */
  lemma SpillsOver(n: int)
    requires 0 <= n <= MAX_INT
    ensures ParseAddress(Itoa(0) + ['.'] + Itoa(n)) == Address(n % 0x1_0000 * 0x1_0000)
  {
    hide Atoi, Itoa, Split, ReadSegments;
    AtoiOfItoa(n);
    AtoiOfItoa(0);
    SplitAtFirst(Itoa(0), '.', Itoa(n));
    SplitWhole(Itoa(n), '.');
    assert [Itoa(0)] + [Itoa(n)] == [Itoa(0), Itoa(n)];
    ReadBehindZero([Itoa(0), Itoa(n)], n);
  }

  lemma ReadBehindZero(segs: seq<string>, v: int)
    requires |segs| == 2 && Atoi(segs[0]) == Some(0) && Atoi(segs[1]) == Some(v)
    ensures ReadSegments(segs, 0, 24) == Address(v % 0x1_0000 * 0x1_0000)
  {
    hide Atoi, OrWord;
    Pow2Values();
    Shifted16(v);
    OrNone(0);
    OrNone(ShiftIn(v, 16));
    assert ShiftIn(0, 24) == 0;
    assert segs[1..] == [segs[1]] && segs[1..][1..] == [];
    assert ReadSegments(segs[1..], 0, 16) == Address(ShiftIn(v, 16));
  }

  /** Different quads of octets are different addresses. */
  lemma QuadsAreInjective(a: nat, b: nat, c: nat, d: nat, a': nat, b': nat, c': nat, d': nat)
    requires a < 256 && b < 256 && c < 256 && d < 256 && a' < 256 && b' < 256 && c' < 256 && d' < 256
    ensures ParseAddress(DottedQuad(a, b, c, d)) == ParseAddress(DottedQuad(a', b', c', d'))
       <==> a == a' && b == b' && c == c' && d == d'
  {
    hide ParseAddress, DottedQuad;
    QuadValue(a, b, c, d);
    QuadValue(a', b', c', d');
    LastDigit((a * 256 + b) * 256 + c, d, (a' * 256 + b') * 256 + c', d');
    LastDigit(a * 256 + b, c, a' * 256 + b', c');
    LastDigit(a, b, a', b');
  }

  lemma LastDigit(x: nat, d: nat, x': nat, d': nat)
    requires d < 256 && d' < 256
    ensures x * 256 + d == x' * 256 + d' <==> x == x' && d == d'
  {
  }

  // ---------------------------------------------------------------- network texts

  datatype NetText =
    | Net(ip: uint32, cidr: nat)
    | BadAddress       // InvaildIpAddress
    | MaskNotANumber   // strconv's own error
    | BadMask          // InvaildNetMask
    | AddressPanic

  /** The parsing done by RadixTree.Add; Delete differs only in the error it returns for `MaskNotANumber`. */
  function ParseNet(ipNet: string): (r: NetText)
    ensures r.Net? ==> r.cidr <= 32 && ipNet != ""
  {
    var strs := Split(ipNet, '/');
    match ParseAddress(strs[0])
    case NegativeShift => AddressPanic
    case NotANumber => BadAddress
    case Address(ip) =>
      if |strs| < 2 then BadAddress
      else
        match Atoi(strs[1])
        case None => MaskNotANumber
        case Some(cidr) => if cidr < 0 || cidr > 32 then BadMask else Net(ip, cidr)
  }

  method ReadNet(ipNet: string) returns (r: NetText)
    ensures r == ParseNet(ipNet)
  {
    var strs := Split(ipNet, '/');
    var ip := InetToi(strs[0]);
    match ip {
      case NegativeShift => return AddressPanic;
      case NotANumber => return BadAddress;
      case Address(key) =>
        if |strs| < 2 {
          return BadAddress;
        }
        var cidr := Atoi(strs[1]);
        if cidr.None? {
          return MaskNotANumber;
        }
        if cidr.value < 0 || cidr.value > 32 {
          return BadMask;
        }
        return Net(key, cidr.value);
    }
  }

  predicate IsNet(text: string) { ParseNet(text).Net? }

  /** The trie path a CIDR text denotes. */
  function PathOf(text: string): (p: Prefix)
    requires IsNet(text)
    ensures p.Length() <= 32
  {
    Bits(ParseNet(text).ip, ParseNet(text).cidr)
  }

  /** The number written by the bits of a prefix. */
  function BitsValue(p: Prefix): (v: nat)
    ensures v < Pow2(p.Length())
  {
    match p
    case Top => 0
    case Sub(up, bit) => 2 * BitsValue(up) + (if bit then 1 else 0)
  }

  lemma ScaledIsWord(v: nat, n: nat)
    requires n <= 32 && v < Pow2(n)
    ensures 0 <= v * Pow2(32 - n) < WORD
  {
    Pow2Values();
    ScaledBound(v, n, 32 - n);
  }

  /** The lowest address of a network. */
  function NetworkAddress(p: Prefix): uint32
    requires p.Length() <= 32
  {
    FromTheLeft(BitsValue(p), p.Length())
  }

  /** An `n`-bit number as the leading bits of a word. */
  function FromTheLeft(v: nat, n: nat): uint32
    requires n <= 32 && v < Pow2(n)
  {
    ScaledIsWord(v, n);
    v * Pow2(32 - n)
  }

  function QuadText(v: uint32): string {
    DottedQuad(v / 0x100_0000, v / 0x1_0000 % 256, v / 0x100 % 256, v % 256)
  }

  /** The canonical CIDR text of a network: host bits zero, decimal octets, no leading zeros. */
  function CanonicalText(p: Prefix): string
    requires p.Length() <= 32
  {
    QuadText(NetworkAddress(p)) + ['/'] + Itoa(p.Length())
  }

  lemma {:induction false} TestAbove(u: nat, low: nat, k: nat)
    requires low < Pow2(k)
    ensures TestBit(u * Pow2(k) + low, k) <==> u % 2 == 1
  {
    if k > 0 {
      HalfOf(u, low, k);
      TestAbove(u, low / 2, k - 1);
    }
  }

  lemma HalfOf(u: nat, low: nat, k: nat)
    requires k > 0 && low < Pow2(k)
    ensures (u * Pow2(k) + low) / 2 == u * Pow2(k - 1) + low / 2 && low / 2 < Pow2(k - 1)
  {
    assert u * Pow2(k) == 2 * (u * Pow2(k - 1));
  }

  /** The leading bits of `u * 2^k + low` are the bits of `u`. */
  lemma {:induction false} BitsOfScaled(p: Prefix, key: uint32, low: nat, k: nat)
    requires p.Length() + k == 32 && low < Pow2(k)
    requires key == BitsValue(p) * Pow2(k) + low
    ensures Bits(key, p.Length()) == p
  {
    match p
    case Top =>
    case Sub(up, bit) =>
      assert HasBit(key, p.Length() - 1) == bit by {
        HasBitTests(key, p.Length() - 1);
        TestAbove(BitsValue(p), low, k);
      }
      var wider := SplitLowestBit(BitsValue(up), bit, low, k);
      BitsOfScaled(up, key, wider, k + 1);
  }

  lemma SplitLowestBit(u: nat, bit: bool, low: nat, k: nat) returns (wider: nat)
    requires low < Pow2(k)
    ensures wider < Pow2(k + 1)
    ensures (2 * u + if bit then 1 else 0) * Pow2(k) + low == u * Pow2(k + 1) + wider
  {
    var q := Pow2(k);
    assert Pow2(k + 1) == 2 * q;
    wider := if bit then q + low else low;
    assert (2 * u) * q == u * (2 * q) && (2 * u + 1) * q == u * (2 * q) + q;
  }

  lemma BitsOfNetworkAddress(p: Prefix)
    requires p.Length() <= 32
    ensures Bits(NetworkAddress(p), p.Length()) == p
  {
    BitsOfScaled(p, NetworkAddress(p), 0, 32 - p.Length());
  }

  lemma QuadOf(v: uint32)
    ensures v / 0x100_0000 < 256
    ensures ((v / 0x100_0000 * 256 + v / 0x1_0000 % 256) * 256 + v / 0x100 % 256) * 256 + v % 256 == v
  {
  }

  lemma SplitNet(quad: string, cidr: nat)
    requires '/' !in quad && cidr <= 32
    ensures Split(quad + ['/'] + Itoa(cidr), '/') == [quad, Itoa(cidr)]
  {
    AtoiOfItoa(cidr);
    SplitAtFirst(quad, '/', Itoa(cidr));
    SplitWhole(Itoa(cidr), '/');
  }

  lemma QuadTextValue(v: uint32)
    ensures ParseAddress(QuadText(v)) == Address(v)
    ensures '/' !in QuadText(v) && ':' !in QuadText(v)
  {
    var a, b, c, d := v / 0x100_0000, v / 0x1_0000 % 256, v / 0x100 % 256, v % 256;
    QuadOf(v);
    QuadValue(a, b, c, d);
    SplitQuad(a, b, c, d);
  }

  lemma ParseParts(quad: string, v: uint32, cidr: nat)
    requires '/' !in quad && cidr <= 32 && ParseAddress(quad) == Address(v)
    ensures ParseNet(quad + ['/'] + Itoa(cidr)) == Net(v, cidr)
  {
    SplitNet(quad, cidr);
    AtoiOfItoa(cidr);
  }

  /** Printing a network and reading it back gives the same trie path, for every one of the 2^33 - 1 networks. */
  lemma CanonicalRoundTrip(p: Prefix)
    requires p.Length() <= 32
    ensures ParseNet(CanonicalText(p)) == Net(NetworkAddress(p), p.Length())
    ensures PathOf(CanonicalText(p)) == p
  {
    QuadTextValue(NetworkAddress(p));
    ParseParts(QuadText(NetworkAddress(p)), NetworkAddress(p), p.Length());
    BitsOfNetworkAddress(p);
  }

  /** The canonical texts: one for each network. */
  predicate Canonical(text: string) {
    IsNet(text) && text == CanonicalText(PathOf(text))
  }
}
