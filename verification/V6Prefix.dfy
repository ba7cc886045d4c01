/** Comparing IPv6 addresses and prefixes by their first bits (prefixes as in
    section 2.3 of RFC 4291). */
module V6Prefix {
  import opened Basics
  import opened Bits

  /** The sixteen bytes of an address, most significant first. */
  type Addr = bs: seq<Byte> | |bs| == 16 witness seq(16, _ => 0)

  /** What inet_pton makes of a text. */
  datatype Parsed = Unreadable | Parsed(addr: Addr)

  /** The number the bytes stand for. */
  function Value(bs: seq<Byte>): nat {
    if bs == [] then 0 else 256 * Value(bs[..|bs| - 1]) + bs[|bs| - 1]
  }

  /** The first n of the 128 bits of an address. */
  function FirstBits(a: Addr, n: nat): nat
    requires n <= 128
  {
    Shr(Value(a), 128 - n)
  }

  // ----- numbers

  lemma {:induction false} ShrShl(h: nat, m: nat, l: nat, j: nat)
    requires j <= m && l < Pow2(m)
    ensures Shr(Shl(h, m) + l, j) == Shl(h, m - j) + Shr(l, j) && Shr(l, j) < Pow2(m - j)
    decreases j
  {
    if j > 0 { ShrShl(h, m - 1, l / 2, j - 1); }
  }

  lemma {:induction false} LeadingBytes(bs: seq<Byte>, k: nat)
    requires k <= |bs|
    ensures Shr(Value(bs), 8 * (|bs| - k)) == Value(bs[..k])
    decreases |bs|
  {
    var n := |bs| - 1;
    if k == |bs| {
      assert bs[..k] == bs;
    } else {
      LeadingBytes(bs[..n], k);
      Shr8(Value(bs));
      assert Value(bs) / 256 == Value(bs[..n]);
      ShrAdd(Value(bs), 8, 8 * (n - k));
      assert bs[..n][..k] == bs[..k];
    }
  }

  lemma {:induction false} ValueInjective(a: seq<Byte>, b: seq<Byte>)
    requires |a| == |b|
    ensures Value(a) == Value(b) <==> a == b
  {
    if a != [] {
      var n := |a| - 1;
      ValueInjective(a[..n], b[..n]);
      assert a == a[..n] + [a[n]] && b == b[..n] + [b[n]];
    }
  }

  /** The first 8k bits are the first k bytes. */
  lemma FirstBytes(a: Addr, b: Addr, k: nat)
    requires k <= 16
    ensures FirstBits(a, 8 * k) == FirstBits(b, 8 * k) <==> a[..k] == b[..k]
  {
    LeadingBytes(a, k);
    LeadingBytes(b, k);
    ValueInjective(a[..k], b[..k]);
  }

  lemma ShrByte(h: nat, l: Byte, r: nat)
    requires 0 < r < 8
    ensures Shr(256 * h + l, 8 - r) == Shl(h, r) + Shr(l, 8 - r) && Shr(l, 8 - r) < Pow2(r)
  {
    Shl8(h);
    assert 256 * h + l == Shl(h, 8) + l && 8 - (8 - r) == r;
    ShrShl(h, 8, l, 8 - r);
  }

  lemma ValueNext(a: Addr, k: nat)
    requires k < 16
    ensures Value(a[..k + 1]) == 256 * Value(a[..k]) + a[k]
  {
    assert a[..k + 1][..k] == a[..k];
  }

  lemma LeadingPart(a: Addr, k: nat, r: nat)
    requires k < 16 && 0 < r < 8
    ensures FirstBits(a, 8 * k + r) == Shr(Value(a[..k + 1]), 8 - r)
  {
    LeadingBytes(a, k + 1);
    ShrAdd(Value(a), 8 * (16 - (k + 1)), 8 - r);
  }

  lemma PartialByte(a: Addr, k: nat, r: nat)
    requires k < 16 && 0 < r < 8
    ensures FirstBits(a, 8 * k + r) == Shl(Value(a[..k]), r) + Shr(a[k], 8 - r)
    ensures Shr(a[k], 8 - r) < Pow2(r)
  {
    LeadingPart(a, k, r);
    ValueNext(a, k);
    ShrByte(Value(a[..k]), a[k], r);
  }

  /** The first 8k + r bits are the first k bytes and the masked next byte. */
  lemma FirstBytesAndMask(a: Addr, b: Addr, k: nat, r: nat)
    requires k < 16 && 0 < r < 8
    ensures FirstBits(a, 8 * k + r) == FirstBits(b, 8 * k + r)
        <==> (a[..k] == b[..k] && And(a[k], Mask(8, r)) == And(b[k], Mask(8, r)))
  {
    PartialByte(a, k, r);
    PartialByte(b, k, r);
    ValueInjective(a[..k], b[..k]);
    Shl8(0);
    MaskedEqual(a[k], b[k], 8, r);
    if FirstBits(a, 8 * k + r) == FirstBits(b, 8 * k + r) {
      SplitUnique(r, Value(a[..k]), Shr(a[k], 8 - r), Value(b[..k]), Shr(b[k], 8 - r));
    }
  }

  // ----- the comparison

  /** The result code, or a read outside the sixteen bytes. */
  datatype Compared = Code(c: int) | OutOfBounds

  datatype Scan = Same | Differ | PastEnd

  /** What the comparison means for any length: beyond 128 bits it reads past equal
      addresses, a negative length compares nothing, and below -8 it reads in front of
      the addresses unless it is a multiple of 8. */
  function Agree(a: Addr, b: Addr, prefLen: int): Option<bool> {
    if 0 <= prefLen <= 128 then Some(FirstBits(a, prefLen) == FirstBits(b, prefLen))
    else if prefLen > 128 then (if a == b then None else Some(false))
    else if prefLen > -8 || prefLen % 8 == 0 then Some(true)
    else None
  }

  /** The code of a mismatch: in the bytes compared whole, of a length in whole bytes or
      not, or in the last, partly compared byte. */
  function MismatchCode(a: Addr, b: Addr, prefLen: nat): int {
    if prefLen % 8 == 0 then -5
    else if prefLen > 128 || a[..prefLen / 8] != b[..prefLen / 8] then -3
    else -4
  }

  /** The loop over the bytes before position n. */
  method Compare(a: Addr, b: Addr, n: int) returns (r: Scan)
    ensures n <= 16 ==> r != PastEnd && (r == Differ <==> 0 < n && a[..n] != b[..n])
    ensures n > 16 ==> r == if a == b then PastEnd else Differ
  {
    var i := 0;
    while i < n
      invariant i == 0 || i <= n
      invariant 0 <= i <= 16 && a[..i] == b[..i]
    {
      if i == 16 {
        assert a[..16] == a && b[..16] == b;
        return PastEnd;
      }
      assert a[..i + 1] == a[..i] + [a[i]] && b[..i + 1] == b[..i] + [b[i]];
      if a[i] != b[i] {
        assert n <= 16 ==> a[..n][i] != b[..n][i];
        return Differ;
      }
      i := i + 1;
    }
    return Same;
  }

  /** Division as in C. */
  function Truncated(x: int, y: nat): int
    requires y > 0
  {
    if x >= 0 then x / y else -(-x / y)
  }

  /** Outside 0 to 128 a byte outside the addresses is read exactly when all their bytes
      are compared and agree, or the byte to be masked lies in front of them. */
  lemma AgreeOutside(a: Addr, b: Addr, prefLen: int)
    requires prefLen < 0 || prefLen > 128
    ensures Agree(a, b, prefLen).None?
        <==> if prefLen > 128 then a == b else prefLen % 8 != 0 && Truncated(prefLen, 8) < 0
    ensures prefLen < 0 && Agree(a, b, prefLen).Some? ==> Agree(a, b, prefLen).value
  {
  }

  /** The last, partly compared byte. */
  method CompareMasked(a: Addr, b: Addr, i: int, bits: int) returns (r: Scan)
    requires bits < 8
    ensures r == PastEnd <==> !(0 <= i < 16)
    ensures 0 <= i < 16 ==> (r == Same <==> bits <= 0 || And(a[i], Mask(8, bits)) == And(b[i], Mask(8, bits)))
  {
    var mask := 0;
    var k := 0;
    while k < bits
      invariant 0 <= k && (k <= bits || k == 0) && k <= 8 && mask == Mask(8, k)
    {
      mask := mask + Pow2(7 - k);
      k := k + 1;
    }
    if i < 0 || i >= 16 {
      return PastEnd;
    }
    if bits <= 0 {
      AndZero(a[i]);
      AndZero(b[i]);
    }
    return if And(a[i], mask) == And(b[i], mask) then Same else Differ;
  }

  lemma {:induction false} AndZero(x: nat)
    ensures And(x, 0) == 0
  {
    if x > 0 { AndZero(x / 2); }
  }

  /** __v6addr_mismatch: zero exactly when both texts are addresses that agree in
      their first bits. */
  method AddrMismatch(addr1: Parsed, addr2: Parsed, prefLen: int) returns (r: Compared)
    ensures addr1.Unreadable? ==> r == Code(-8)
    ensures addr1.Parsed? && addr2.Unreadable? ==> r == Code(-9)
    ensures addr1.Parsed? && addr2.Parsed? ==>
      match Agree(addr1.addr, addr2.addr, prefLen)
      case None => r == OutOfBounds
      case Some(agree) => r == Code(if agree then 0 else MismatchCode(addr1.addr, addr2.addr, prefLen))
  {
    if addr1.Unreadable? { return Code(-8); }
    if addr2.Unreadable? { return Code(-9); }
    var a, b := addr1.addr, addr2.addr;
    var bits := prefLen - 8 * Truncated(prefLen, 8);
    var num := if bits != 0 then Truncated(prefLen, 8) + 1 else Truncated(prefLen, 8);
    if bits != 0 {
      if 0 < prefLen <= 128 { FirstBytesAndMask(a, b, num - 1, bits); }
      var front := Compare(a, b, num - 1);
      if front == PastEnd { return OutOfBounds; }
      if front == Differ { return Code(-3); }
      var last := CompareMasked(a, b, num - 1, bits);
      if num == 17 { assert a[..16] == a && b[..16] == b; }
      if last == PastEnd { return OutOfBounds; }
      return Code(if last == Same then 0 else -4);
    }
    if 0 <= prefLen <= 128 { FirstBytes(a, b, num); }
    var front := Compare(a, b, num);
    if front == PastEnd { return OutOfBounds; }
    return Code(if front == Differ then -5 else 0);
  }

  /** CosaDmlV6AddrIsEqual: equality of addresses, false for unreadable texts. */
  method AddrIsEqual(addr1: Parsed, addr2: Parsed) returns (equal: bool)
    ensures equal <==> addr1.Parsed? && addr2.Parsed? && addr1.addr == addr2.addr
  {
    var r := AddrMismatch(addr1, addr2, 128);
    equal := r == Code(0);
    if addr1.Parsed? && addr2.Parsed? {
      FirstBytes(addr1.addr, addr2.addr, 16);
      assert addr1.addr[..16] == addr1.addr && addr2.addr[..16] == addr2.addr;
    }
  }

  /** CosaDmlV6PrefIsEqual: the same length and the same network; None is a read
      outside the addresses. */
  method PrefIsEqual(addr1: Parsed, len1: int, addr2: Parsed, len2: int) returns (equal: Option<bool>)
    ensures len1 != len2 || addr1.Unreadable? || addr2.Unreadable? ==> equal == Some(false)
    ensures len1 == len2 && addr1.Parsed? && addr2.Parsed? ==> equal == Agree(addr1.addr, addr2.addr, len1)
  {
    if len1 != len2 {
      return Some(false);
    }
    var r := AddrMismatch(addr1, addr2, len1);
    return if r.OutOfBounds? then None else Some(r.c == 0);
  }

  /** FirstBits is the quotient of the 128-bit address by a power of two. */
  lemma FirstBitsIsQuotient(a: Addr, n: nat)
    requires n <= 128
    ensures FirstBits(a, n) == Value(a) / Pow2(128 - n)
  {
    ShrIsQuotient(Value(a), 128 - n);
  }

  /** Agreement is monotone: it holds for every shorter prefix, and at 128 bits it
      is equality. */
  lemma AgreementMonotone(a: Addr, b: Addr, m: nat, n: nat)
    requires m <= n <= 128 && FirstBits(a, n) == FirstBits(b, n)
    ensures FirstBits(a, m) == FirstBits(b, m)
    ensures n == 128 ==> a == b
  {
    ShrAdd(Value(a), 128 - n, n - m);
    ShrAdd(Value(b), 128 - n, n - m);
    ValueInjective(a, b);
  }
}
