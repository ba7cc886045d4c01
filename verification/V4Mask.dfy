/** IPv4 netmasks and the addresses of a block (prefix notation as in section 3.1
    of RFC 4632), on 32-bit words in either byte order. */
module V4Mask {
  import opened Basics
  import opened Bits
  import Decimal
  import Splitting

  const SPACE: nat := 0x1_0000_0000
  const ONES: nat := 0xFFFF_FFFF

  type Word = x: nat | x < SPACE

  datatype Order = LittleEndian | BigEndian

  function Join(b3: Byte, b2: Byte, b1: Byte, b0: Byte): Word {
    ((b3 * 256 + b2) * 256 + b1) * 256 + b0
  }

  function Part(x: Word, i: nat): Byte
    requires i < 4
  {
    (match i case 0 => x case 1 => x / 256 case 2 => x / 0x1_0000 case _ => x / 0x100_0000) % 256
  }

  function Swap(x: Word): Word {
    Join(Part(x, 0), Part(x, 1), Part(x, 2), Part(x, 3))
  }

  /** htonl and ntohl on a host of the given byte order. */
  function Net(x: Word, order: Order): Word {
    if order.LittleEndian? then Swap(x) else x
  }

  function Not(x: Word): Word { ONES - x }

  function And32(x: Word, y: Word): (z: Word) {
    AndBounded(x, y);
    And(x, y)
  }

  /** The mask of a prefix length. */
  function Netmask(k: nat): Word
    requires k <= 32
  {
    Pow2Of32();
    Mask(32, k)
  }

  // ----- the checks, on words in network order

  predicate IsSameNetwork(a: Word, b: Word, mask: Word) {
    And32(a, mask) == And32(b, mask)
  }

  predicate IsBroadcast(a: Word, net: Word, mask: Word) {
    a == ONES || (IsSameNetwork(a, net, mask) && And32(a, Not(mask)) == And32(ONES, Not(mask)))
  }

  predicate IsNetworkAddr(a: Word, net: Word, mask: Word) {
    IsSameNetwork(a, net, mask) && And32(a, Not(mask)) == 0
  }

  // ----- byte order

  lemma ByteSplit(x: nat, h: nat, l: Byte)
    requires x == h * 256 + l
    ensures Shr(x, 8) == h && Low(x, 8) == l
  {
    Shl8(0);
    QuotientParts(x, 8, h, l);
  }

  lemma AndOfParts(x: nat, y: nat, h: nat, l: nat, g: nat, m: nat)
    requires Shr(x, 8) == h && Low(x, 8) == l && Shr(y, 8) == g && Low(y, 8) == m
    ensures And(x, y) == 256 * And(h, g) + And(l, m)
  {
    AndSplit(x, y, 8);
    Shl8(And(h, g));
  }

  lemma AndStep(x: nat, y: nat, h: nat, l: Byte, g: nat, m: Byte)
    requires x == h * 256 + l && y == g * 256 + m
    ensures And(x, y) == 256 * And(h, g) + And(l, m)
  {
    ByteSplit(x, h, l);
    ByteSplit(y, g, m);
    AndOfParts(x, y, h, l, g, m);
  }

  function AndByte(a: Byte, b: Byte): Byte {
    AndBounded(a, b);
    And(a, b)
  }

  lemma AndJoin(a3: Byte, a2: Byte, a1: Byte, a0: Byte, b3: Byte, b2: Byte, b1: Byte, b0: Byte)
    ensures And32(Join(a3, a2, a1, a0), Join(b3, b2, b1, b0))
         == Join(AndByte(a3, b3), AndByte(a2, b2), AndByte(a1, b1), AndByte(a0, b0))
  {
    var x2, y2 := a3 * 256 + a2, b3 * 256 + b2;
    var x1, y1 := x2 * 256 + a1, y2 * 256 + b1;
    AndStep(x2, y2, a3, a2, b3, b2);
    AndStep(x1, y1, x2, a1, y2, b1);
    AndStep(x1 * 256 + a0, y1 * 256 + b0, x1, a0, y1, b0);
  }

  lemma JoinParts(x: Word)
    ensures x == Join(Part(x, 3), Part(x, 2), Part(x, 1), Part(x, 0))
  {
    DivTwice(x);
  }

  lemma LastByte(x: nat, h: nat, l: Byte)
    requires x == h * 256 + l
    ensures x / 256 == h && x % 256 == l
  {
  }

  lemma DivTwice(x: nat)
    ensures x / 0x1_0000 == x / 256 / 256 && x / 0x100_0000 == x / 256 / 256 / 256
  {
  }

  lemma PartsJoin(b3: Byte, b2: Byte, b1: Byte, b0: Byte)
    ensures var x := Join(b3, b2, b1, b0);
      Part(x, 3) == b3 && Part(x, 2) == b2 && Part(x, 1) == b1 && Part(x, 0) == b0
  {
    var h2 := b3 * 256 + b2;
    var h1 := h2 * 256 + b1;
    LastByte(h1 * 256 + b0, h1, b0);
    LastByte(h1, h2, b1);
    LastByte(h2, b3, b2);
    DivTwice(h1 * 256 + b0);
  }

  /** The four bytes of a word as they lie in memory. */
  function Memory(x: Word, order: Order): (bs: seq<Byte>)
    ensures |bs| == 4
  {
    if order.LittleEndian? then [Part(x, 0), Part(x, 1), Part(x, 2), Part(x, 3)]
    else [Part(x, 3), Part(x, 2), Part(x, 1), Part(x, 0)]
  }

  /** The number that four bytes in network order stand for. */
  function Number(bs: seq<Byte>): Word
    requires |bs| == 4
  {
    Join(bs[0], bs[1], bs[2], bs[3])
  }

  /** ntohl makes of a word the number its bytes in memory stand for; on a little-endian
      host it exchanges the bytes end for end. */
  lemma NetIsNumber(x: Word, order: Order)
    ensures Net(x, order) == Number(Memory(x, order))
    ensures forall i :: 0 <= i < 4 ==> Part(Net(x, LittleEndian), i) == Part(x, 3 - i)
    ensures Net(Net(x, order), order) == x
  {
    JoinParts(x);
    SwapTwice(x);
    PartsJoin(Part(x, 0), Part(x, 1), Part(x, 2), Part(x, 3));
  }

  lemma SwapTwice(x: Word)
    ensures Swap(Swap(x)) == x
  {
    PartsJoin(Part(x, 0), Part(x, 1), Part(x, 2), Part(x, 3));
    JoinParts(x);
  }

  lemma SwapAnd(x: Word, y: Word)
    ensures And32(Swap(x), Swap(y)) == Swap(And32(x, y))
  {
    JoinParts(x);
    JoinParts(y);
    AndJoin(Part(x, 3), Part(x, 2), Part(x, 1), Part(x, 0), Part(y, 3), Part(y, 2), Part(y, 1), Part(y, 0));
    AndJoin(Part(x, 0), Part(x, 1), Part(x, 2), Part(x, 3), Part(y, 0), Part(y, 1), Part(y, 2), Part(y, 3));
    PartsJoin(AndByte(Part(x, 3), Part(y, 3)), AndByte(Part(x, 2), Part(y, 2)),
              AndByte(Part(x, 1), Part(y, 1)), AndByte(Part(x, 0), Part(y, 0)));
  }

  lemma SwapNot(x: Word)
    ensures Swap(Not(x)) == Not(Swap(x))
  {
    JoinParts(x);
    PartsJoin(255 - Part(x, 3), 255 - Part(x, 2), 255 - Part(x, 1), 255 - Part(x, 0));
    assert Not(x) == Join(255 - Part(x, 3), 255 - Part(x, 2), 255 - Part(x, 1), 255 - Part(x, 0));
  }

  lemma SwapInjective(x: Word, y: Word)
    ensures Swap(x) == Swap(y) <==> x == y
  {
    SwapTwice(x);
    SwapTwice(y);
  }

  lemma NetAnd(x: Word, y: Word, order: Order)
    ensures And32(Net(x, order), Net(y, order)) == Net(And32(x, y), order)
  {
    SwapAnd(x, y);
  }

  lemma NetInjective(x: Word, y: Word, order: Order)
    ensures Net(x, order) == Net(y, order) <==> x == y
  {
    SwapInjective(x, y);
  }

  /** Words of four equal bytes read the same in either order. */
  lemma NetUniform(x: Word, b: Byte, order: Order)
    requires x == Join(b, b, b, b)
    ensures Net(x, order) == x
  {
    PartsJoin(b, b, b, b);
  }

  lemma NetNot(mask: Word, order: Order)
    ensures Net(Not(mask), order) == Not(Net(mask, order))
  {
    SwapNot(mask);
  }

  lemma SameNetworkEitherOrder(a: Word, net: Word, mask: Word, order: Order)
    ensures IsSameNetwork(Net(a, order), Net(net, order), Net(mask, order)) == IsSameNetwork(a, net, mask)
  {
    NetAnd(a, mask, order);
    NetAnd(net, mask, order);
    NetInjective(And32(a, mask), And32(net, mask), order);
  }

  lemma HostBitsEitherOrder(a: Word, mask: Word, order: Order)
    ensures And32(Net(a, order), Not(Net(mask, order))) == Net(And32(a, Not(mask)), order)
  {
    NetNot(mask, order);
    NetAnd(a, Not(mask), order);
  }

  lemma NetEquals(x: Word, c: Word, b: Byte, order: Order)
    requires c == Join(b, b, b, b)
    ensures Net(x, order) == c <==> x == c
  {
    NetUniform(c, b, order);
    NetInjective(x, c, order);
  }

  lemma NetZero(x: Word, order: Order)
    ensures Net(x, order) == 0 <==> x == 0
  {
    JoinParts(x);
  }

  lemma NetworkEitherOrder(a: Word, net: Word, mask: Word, order: Order)
    ensures IsNetworkAddr(Net(a, order), Net(net, order), Net(mask, order)) == IsNetworkAddr(a, net, mask)
  {
    SameNetworkEitherOrder(a, net, mask, order);
    HostBitsEitherOrder(a, mask, order);
    NetZero(And32(a, Not(mask)), order);
  }

  lemma BroadcastEitherOrder(a: Word, net: Word, mask: Word, order: Order)
    ensures IsBroadcast(Net(a, order), Net(net, order), Net(mask, order)) == IsBroadcast(a, net, mask)
  {
    SameNetworkEitherOrder(a, net, mask, order);
    HostBitsEitherOrder(a, mask, order);
    HostBitsEitherOrder(ONES, mask, order);
    NetUniform(ONES, 255, order);
    NetInjective(And32(a, Not(mask)), And32(ONES, Not(mask)), order);
    NetEquals(a, ONES, 255, order);
  }

  // ----- blocks

  lemma HostPart(a: Word, k: nat)
    requires k <= 32
    ensures And32(a, Not(Netmask(k))) == Low(a, 32 - k)
  {
    Pow2Of32();
    AndOnes(a, 32 - k);
  }

  lemma NetworkPart(a: Word, net: Word, k: nat)
    requires k <= 32
    ensures IsSameNetwork(a, net, Netmask(k)) <==> Shr(a, 32 - k) == Shr(net, 32 - k)
  {
    Pow2Of32();
    MaskedEqual(a, net, 32, k);
  }

  lemma OddHalf(h: nat)
    ensures (2 * h + 1) / 2 == h && (2 * h + 1) % 2 == 1
  {
  }

  lemma {:induction false} LowOfOnes(w: nat, n: nat)
    requires n <= w
    ensures Low(Pow2(w) - 1, n) == Pow2(n) - 1
    decreases n
  {
    if n > 0 {
      LowOfOnes(w - 1, n - 1);
      LowHalves(Pow2(w) - 1, n);
      OddHalf(Pow2(w - 1) - 1);
    }
  }

  /** a is the r-th address of net's block. */
  lemma PlaceInBlock(a: Word, net: Word, j: nat, r: nat)
    requires r < Pow2(j)
    ensures (Shr(a, j) == Shr(net, j) && Low(a, j) == r) <==> a == Shl(Shr(net, j), j) + r
  {
    Split(a, j);
    if a == Shl(Shr(net, j), j) + r { SplitUnique(j, Shr(a, j), Low(a, j), Shr(net, j), r); }
  }

  lemma BlockStart(net: Word, j: nat)
    ensures Shl(Shr(net, j), j) == net - net % Pow2(j)
  {
    Split(net, j);
    ShrIsQuotient(net, j);
  }

  lemma NetworkIsFirst(a: Word, net: Word, k: nat)
    requires k <= 32
    ensures IsNetworkAddr(a, net, Netmask(k)) <==> a == net - net % Pow2(32 - k)
  {
    NetworkPart(a, net, k);
    HostPart(a, k);
    PlaceInBlock(a, net, 32 - k, 0);
    BlockStart(net, 32 - k);
  }

  lemma BroadcastIsLast(a: Word, net: Word, k: nat)
    requires k <= 32
    ensures IsBroadcast(a, net, Netmask(k)) <==> a == net - net % Pow2(32 - k) + (Pow2(32 - k) - 1) || a == ONES
  {
    NetworkPart(a, net, k);
    HostPart(a, k);
    HostPart(ONES, k);
    Pow2Of32();
    LowOfOnes(32, 32 - k);
    PlaceInBlock(a, net, 32 - k, Pow2(32 - k) - 1);
    BlockStart(net, 32 - k);
  }

  /** Of the block a prefix length puts around an address, the network test accepts
      exactly the first address and the broadcast test exactly the last one and the
      all-ones address. The words hold network order, whatever the host's order; what
      they stand for is read from their bytes in memory. */
  lemma BlockEnds(a: Word, net: Word, mask: Word, k: nat, order: Order)
    requires k <= 32
    ensures Number(Memory(mask, order)) == Netmask(k) ==>
      var size := Pow2(32 - k);
      var address, base := Number(Memory(a, order)), Number(Memory(net, order));
      var first := base - base % size;
      && (IsNetworkAddr(a, net, mask) <==> address == first)
      && (IsBroadcast(a, net, mask) <==> address == first + (size - 1) || address == ONES)
  {
    NetIsNumber(a, order);
    NetIsNumber(net, order);
    NetIsNumber(mask, order);
    NetworkEitherOrder(Net(a, order), Net(net, order), Netmask(k), order);
    BroadcastEitherOrder(Net(a, order), Net(net, order), Netmask(k), order);
    NetworkIsFirst(Net(a, order), Net(net, order), k);
    BroadcastIsLast(Net(a, order), Net(net, order), k);
  }

  // ----- valid netmasks

  ghost predicate IsMask(x: Word) {
    exists k: nat :: k <= 32 && x == Netmask(k)
  }

  lemma MaskFromBits(x: Word, k: nat)
    requires k <= 32 && forall i: nat :: i < 32 ==> (Bit(x, i) <==> i >= 32 - k)
    ensures x == Netmask(k)
  {
    Pow2Of32();
    forall i: nat | i < 32
      ensures Bit(x, i) == Bit(Netmask(k), i)
    {
      MaskBits(32, k, i);
    }
    BitsDetermine(x, Netmask(k), 32);
  }

  lemma ZeroAboveOne(x: Word, hi: nat, lo: nat)
    requires lo < hi < 32 && !Bit(x, hi) && Bit(x, lo)
    ensures !IsMask(x)
  {
    forall k: nat | k <= 32
      ensures x != Netmask(k)
    {
      MaskBits(32, k, hi);
      MaskBits(32, k, lo);
    }
  }

  /** The single-bit word, 0 when it has been shifted out. */
  function Probe(n: nat): nat {
    if n == 0 then 0 else Pow2(n - 1)
  }

  lemma ProbeTests(host: Word, n: nat)
    requires 0 < n
    ensures Probe(n) != 0 && Probe(n) / 2 == Probe(n - 1)
    ensures And(host, Probe(n)) != 0 <==> Bit(host, n - 1)
  {
    AndOneBit(host, n - 1);
  }

  /** The loop for the first zero bit from the top, at n - 1. */
  method FirstZero(host: Word) returns (mask: nat, ghost n: nat)
    ensures n <= 32 && mask == Probe(n)
    ensures forall i: nat :: n <= i < 32 ==> Bit(host, i)
    ensures n > 0 ==> !Bit(host, n - 1)
  {
    n := 32;
    mask := Pow2(31);
    while mask != 0
      invariant n <= 32 && mask == Probe(n)
      invariant forall i: nat :: n <= i < 32 ==> Bit(host, i)
      decreases n
    {
      ProbeTests(host, n);
      if And(host, mask) == 0 {
        return;
      }
      mask := mask / 2;
      n := n - 1;
    }
  }

  /** The loop for a one bit below the first zero. */
  method NoOneBelow(host: Word, from: nat, ghost zero: nat) returns (none: bool)
    requires from == Probe(zero)
    ensures none <==> forall i: nat :: i < zero ==> !Bit(host, i)
  {
    var mask := from;
    ghost var n: nat := zero;
    while mask != 0
      invariant n <= zero && mask == Probe(n)
      invariant forall i: nat :: n <= i < zero ==> !Bit(host, i)
      decreases n
    {
      ProbeTests(host, n);
      if And(host, mask) != 0 {
        return false;
      }
      mask := mask / 2;
      n := n - 1;
    }
    return true;
  }

  /** IPv4Addr_IsNetmaskValid accepts exactly the words whose bytes in memory are the
      mask of a prefix length in network order. */
  method IsNetmaskValid(netmask: Word, order: Order) returns (ok: bool)
    ensures ok <==> exists k: nat :: k <= 32 && Number(Memory(netmask, order)) == Netmask(k)
  {
    var host := Net(netmask, order);
    NetIsNumber(netmask, order);
    ghost var zero: nat;
    var mask;
    mask, zero := FirstZero(host);
    ok := NoOneBelow(host, mask, zero);
    if ok {
      MaskFromBits(host, 32 - zero);
    } else {
      OneBelowZero(host, zero);
    }
  }

  lemma OneBelowZero(host: Word, zero: nat)
    requires 0 < zero <= 32 && !Bit(host, zero - 1)
    requires exists i: nat :: i < zero && Bit(host, i)
    ensures !IsMask(host)
  {
    var i: nat :| i < zero && Bit(host, i);
    ZeroAboveOne(host, zero - 1, i);
  }

  // ----- counting the bits of a dotted mask

  /** The numerals of the bytes, and the number of one bits in them. */
  function Numerals(bs: seq<Byte>): seq<string> {
    if bs == [] then [] else [Decimal.Print(bs[0])] + Numerals(bs[1..])
  }

  function BitsOfAll(bs: seq<Byte>, width: nat): nat {
    if bs == [] then 0 else OneBits(bs[0], width) + BitsOfAll(bs[1..], width)
  }

  function Dotted(x: Word): string {
    Splitting.Join(Numerals([Part(x, 3)] + ([Part(x, 2)] + ([Part(x, 1)] + ([Part(x, 0)] + [])))), '.')
  }

  /** The value of a part as an unsigned long; its low byte does not depend on the width. */
  function PartValue(w: string): nat {
    Decimal.Atoi(w) % SPACE
  }

  lemma PartValueByte(w: string)
    ensures PartValue(w) % 256 == Decimal.Atoi(w) % 256
  {
    var v := Decimal.Atoi(w);
    var q := v / SPACE;
    assert v == 256 * (q * 0x100_0000) + v % SPACE;
  }

  function CountBits(tokens: seq<string>): nat {
    if tokens == [] then 0 else OneBits(PartValue(tokens[0]), 8) + CountBits(tokens[1..])
  }

  /** The one bits among the eight lowest. */
  method CountByte(value: nat) returns (count: nat)
    ensures count == OneBits(value, 8)
  {
    count := 0;
    var val := value;
    for i := 0 to 8
      invariant count + OneBits(val, 8 - i) == OneBits(value, 8)
    {
      if val % 2 == 1 {
        count := count + 1;
      }
      val := val / 2;
    }
  }

  lemma CountFirst(w: string, rest: seq<string>)
    ensures CountBits([w] + rest) == OneBits(PartValue(w), 8) + CountBits(rest)
  {
    assert ([w] + rest)[1..] == rest;
  }

  /** NetmaskToNumber */
  method NetmaskToNumber(netmask: string) returns (count: nat)
    ensures count == CountBits(Splitting.Tokens(netmask, '.'))
  {
    count := 0;
    var pos := 0;
    assert netmask[0..] == netmask;
    while true
      invariant pos <= |netmask|
      invariant count + CountBits(Splitting.Tokens(netmask[pos..], '.')) == CountBits(Splitting.Tokens(netmask, '.'))
      decreases |netmask| - pos
    {
      var token, next := Splitting.NextToken(netmask, pos, '.');
      if token.None? {
        return;
      }
      var bits := CountByte(PartValue(token.value));
      CountFirst(token.value, Splitting.Tokens(netmask[next..], '.'));
      count, pos := count + bits, next;
    }
  }

  lemma OneBitsOfHalves(x: nat, h: nat, l: nat, n: nat)
    requires Shr(x, 8) == h && Low(x, 8) == l
    ensures OneBits(x, 8 + n) == OneBits(h, n) + OneBits(l, 8)
  {
    OneBitsSplit(x, 8, n);
    OneBitsLow(x, 8);
  }

  lemma ByteBits(x: nat, h: nat, l: Byte, n: nat)
    requires x == h * 256 + l
    ensures OneBits(x, 8 + n) == OneBits(h, n) + OneBits(l, 8)
  {
    ByteSplit(x, h, l);
    OneBitsOfHalves(x, h, l, n);
  }

  lemma OneBitsOfBytes(x: nat, h3: nat, h2: nat, b3: Byte, b2: Byte, b1: Byte, b0: Byte)
    requires h2 == b3 * 256 + b2 && h3 == h2 * 256 + b1 && x == h3 * 256 + b0
    ensures OneBits(x, 32) == OneBits(b3, 8) + OneBits(b2, 8) + OneBits(b1, 8) + OneBits(b0, 8)
  {
    ByteBits(x, h3, b0, 24);
    ByteBits(h3, h2, b1, 16);
    ByteBits(h2, b3, b2, 8);
  }

  lemma OneBitsOfParts(x: Word)
    ensures OneBits(x, 32) == OneBits(Part(x, 3), 8) + OneBits(Part(x, 2), 8) + OneBits(Part(x, 1), 8) + OneBits(Part(x, 0), 8)
  {
    JoinParts(x);
    var h2 := Part(x, 3) * 256 + Part(x, 2);
    OneBitsOfBytes(x, h2 * 256 + Part(x, 1), h2, Part(x, 3), Part(x, 2), Part(x, 1), Part(x, 0));
  }

  lemma {:induction false} NumeralsAreTokens(bs: seq<Byte>)
    ensures forall w :: w in Numerals(bs) ==> Splitting.IsToken(w, '.')
  {
    if bs != [] {
      NumeralsAreTokens(bs[1..]);
      Decimal.PrintIsDigits(bs[0]);
    }
  }

  lemma NumeralValue(b: Byte)
    ensures PartValue(Decimal.Print(b)) == b
  {
    Decimal.ReadPrinted(b);
  }

  lemma {:induction false} CountNumerals(bs: seq<Byte>)
    ensures CountBits(Numerals(bs)) == BitsOfAll(bs, 8)
  {
    if bs != [] {
      CountNumerals(bs[1..]);
      NumeralValue(bs[0]);
      CountFirst(Decimal.Print(bs[0]), Numerals(bs[1..]));
    }
  }

  lemma BitsCons(a: Byte, rest: seq<Byte>, width: nat)
    ensures BitsOfAll([a] + rest, width) == OneBits(a, width) + BitsOfAll(rest, width)
  {
    assert ([a] + rest)[1..] == rest;
  }

  lemma BitsOfFour(a: Byte, b: Byte, c: Byte, d: Byte, width: nat)
    ensures BitsOfAll([a] + ([b] + ([c] + ([d] + []))), width)
         == OneBits(a, width) + OneBits(b, width) + OneBits(c, width) + OneBits(d, width)
  {
    BitsCons(a, [b] + ([c] + ([d] + [])), width);
    BitsCons(b, [c] + ([d] + []), width);
    BitsCons(c, [d] + [], width);
    BitsCons(d, [], width);
  }

  /** On the dotted form of any word the count is its number of one bits. */
  lemma DottedCount(x: Word)
    ensures CountBits(Splitting.Tokens(Dotted(x), '.')) == OneBits(x, 32)
  {
    var bs := [Part(x, 3)] + ([Part(x, 2)] + ([Part(x, 1)] + ([Part(x, 0)] + [])));
    NumeralsAreTokens(bs);
    Splitting.TokensJoin(Numerals(bs), '.');
    CountNumerals(bs);
    BitsOfFour(Part(x, 3), Part(x, 2), Part(x, 1), Part(x, 0), 8);
    OneBitsOfParts(x);
  }

  /** On the dotted netmask of a prefix length the count is that length. */
  lemma DottedMaskCount(k: nat)
    requires k <= 32
    ensures CountBits(Splitting.Tokens(Dotted(Netmask(k)), '.')) == k
  {
    DottedCount(Netmask(k));
    MaskOneBits(32, k);
  }
}
