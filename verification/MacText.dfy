/** MAC addresses, their printed form, the parser that reads one back, and the
    hash that picks a home cell for a printed address. */
module MacText {
  import opened Basics

  type Mac = bs: seq<Byte> | |bs| == 6 witness [0, 0, 0, 0, 0, 0]

  const UINT_SPACE: nat := 0x1_0000_0000

  // ----- printing: "%02X" per byte, one separator between bytes

  function HexDigit(n: nat): char
    requires n < 16
  {
    "0123456789ABCDEF"[n]
  }

  function PrintByte(b: Byte): string {
    [HexDigit(b / 16), HexDigit(b % 16)]
  }

  function PrintBytes(bs: seq<Byte>, sep: string): string {
    if bs == [] then ""
    else if |bs| == 1 then PrintByte(bs[0])
    else PrintByte(bs[0]) + sep + PrintBytes(bs[1..], sep)
  }

  function Print(m: Mac): string {
    PrintBytes(m, ":")
  }

  // ----- parsing

  function HexValue(c: char): (v: Option<nat>)
    ensures v.Some? ==> v.value < 16
  {
    if '0' <= c <= '9' then Some(c as int - '0' as int)
    else if 'A' <= c <= 'F' then Some(c as int - 'A' as int + 10)
    else if 'a' <= c <= 'f' then Some(c as int - 'a' as int + 10)
    else None
  }

  /** The "%x" conversion applied to a string of at most two characters (the
      second may be the terminator), reduced to the byte that is stored. */
  function ScanHex(c0: char, c1: char): Option<Byte> {
    var low := HexValue(c1);
    if IsSpace(c0) || c0 == '+' then (if low.Some? then Some(low.value) else None)
    else if c0 == '-' then (if low.Some? then Some((256 - low.value) % 256) else None)
    else
      var high := HexValue(c0);
      if high.None? then None
      else if low.None? then Some(high.value)
      else Some(16 * high.value + low.value)
  }

  /** Leading hexadecimal digits, after the value acc read so far. */
  function HexDigits(s: string, acc: Option<nat>): Option<nat> {
    if s == "" || HexValue(s[0]).None? then acc
    else HexDigits(s[1..], Some((if acc.Some? then 16 * acc.value else 0) + HexValue(s[0]).value))
  }

  /** The conversion on a text of any length: blanks, a sign, digits. */
  function ReadHex(s: string): Option<int> {
    if s != "" && IsSpace(s[0]) then ReadHex(s[1..])
    else if s != "" && s[0] == '-' then
      var v := HexDigits(s[1..], None);
      if v.Some? then Some(0 - v.value) else None
    else HexDigits(if s != "" && s[0] == '+' then s[1..] else s, None)
  }

  /** ScanHex is that conversion, reduced to the byte that is stored. */
  lemma ScanHexMeaning(c0: char, c1: char)
    ensures var v := ReadHex([c0, c1]);
      ScanHex(c0, c1) == if v.Some? then Some(v.value % 256) else None
  {
    assert [c0, c1][1..] == [c1] && [c1][1..] == "";
    assert HexDigits("", None) == None;
    assert HexDigits([c1], None) == HexValue(c1);
    assert ReadHex("") == None;
    if HexValue(c0).Some? {
      assert HexDigits([c1], HexValue(c0))
          == if HexValue(c1).Some? then Some(16 * HexValue(c0).value + HexValue(c1).value) else HexValue(c0);
    }
  }

  function CharAt(s: string, i: nat): char {
    if i < |s| then s[i] else '\0'
  }

  predicate IsSeparator(c: char) {
    c == ':' || c == '-' || c == '_'
  }

  /** The bytes read, or a step over the terminator of the text, or a write past the
      array for the bytes. */
  datatype Parse = Read(bytes: seq<Byte>) | PastEnd | Overrun

  function Prepend(b: Byte, p: Parse): Parse {
    if p.Read? then Read([b] + p.bytes) else p
  }

  /** The bytes read from position i on, into an array with room for so many. */
  function ParseFrom(s: string, i: nat, room: int): Parse
    requires i <= |s|
    decreases |s| - i
  {
    if i == |s| then Read([])
    else
      var v := ScanHex(s[i], CharAt(s, i + 1));
      if v.None? then Read([])
      else if room <= 0 then Overrun
      else if i + 1 == |s| then PastEnd
      else Prepend(v.value, ParseFrom(s, if IsSeparator(CharAt(s, i + 2)) then i + 3 else i + 2, room - 1))
  }

  /** CosaUtilStringToHex: the result says whether as many bytes as expected were read;
      None is a text that takes it out of the text or the array. */
  method StringToHex(s: string, size: int) returns (ok: Option<bool>, bytes: seq<Byte>)
    ensures ok.None? <==> !ParseFrom(s, 0, size).Read?
    ensures ok.Some? ==> ParseFrom(s, 0, size) == Read(bytes) && (ok.value <==> |bytes| == size)
  {
    bytes := [];
    var i := 0;
    while i < |s|
      invariant i <= |s| && ParseFrom(s, 0, size) == After(bytes, ParseFrom(s, i, size - |bytes|))
      decreases |s| - i
    {
      var v := ScanHex(s[i], CharAt(s, i + 1));
      if v.None? { break; }
      ghost var was := bytes;
      ghost var rest := ParseFrom(s, i, size - |bytes|);
      if |bytes| >= size {
        assert rest == Overrun;
        return None, bytes;
      }
      bytes := bytes + [v.value];
      i := i + 2;
      if i > |s| {
        assert rest == PastEnd;
        return None, bytes;
      }
      if IsSeparator(CharAt(s, i)) { i := i + 1; }
      assert rest == Prepend(v.value, ParseFrom(s, i, size - |bytes|));
      AfterPrepend(was, v.value, ParseFrom(s, i, size - |bytes|));
    }
    ok := Some(|bytes| == size);
  }

  function After(bs: seq<Byte>, p: Parse): Parse {
    if p.Read? then Read(bs + p.bytes) else p
  }

  lemma AfterPrepend(bs: seq<Byte>, b: Byte, p: Parse)
    ensures After(bs, Prepend(b, p)) == After(bs + [b], p)
  {
    if p.Read? { assert bs + ([b] + p.bytes) == bs + [b] + p.bytes; }
  }

  /** On hexadecimal digits alone it fails by reading or writing out of bounds if and only
      if their number is odd or exceeds two for each byte of the array. */
  lemma {:induction false} DigitsOutOfBoundsIff(s: string, i: nat, room: nat)
    requires i <= |s| && forall k :: 0 <= k < |s| ==> HexValue(s[k]).Some?
    ensures ParseFrom(s, i, room).Read? <==> (|s| - i) % 2 == 0 && |s| - i <= 2 * room
    decreases |s| - i
  {
    if i + 2 <= |s| && room > 0 {
      assert !IsSeparator(CharAt(s, i + 2));
      DigitsOutOfBoundsIff(s, i + 2, room - 1);
    }
  }

  function Lower(c: char): char {
    if 'A' <= c <= 'F' then c - 'A' + 'a' else c
  }

  function Lowered(s: string): (t: string)
    ensures |t| == |s| && forall k :: 0 <= k < |s| ==> t[k] == Lower(s[k])
  {
    seq(|s|, k requires 0 <= k < |s| => Lower(s[k]))
  }

  lemma LowerScans(c0: char, c1: char)
    ensures ScanHex(Lower(c0), Lower(c1)) == ScanHex(c0, c1)
    ensures IsSeparator(Lower(c0)) == IsSeparator(c0)
  {
    LowerValue(c0);
    LowerValue(c1);
  }

  lemma LowerValue(c: char)
    ensures HexValue(Lower(c)) == HexValue(c)
    ensures IsSpace(Lower(c)) == IsSpace(c)
  {
  }

  /** Digits in lower case read the same. */
  lemma {:induction false} ParseLowered(s: string, i: nat, room: int)
    requires i <= |s|
    ensures ParseFrom(Lowered(s), i, room) == ParseFrom(s, i, room)
    decreases |s| - i
  {
    var t := Lowered(s);
    if i < |s| {
      LowerScans(s[i], CharAt(s, i + 1));
      LowerScans(CharAt(s, i + 2), '\0');
      assert CharAt(t, i + 1) == Lower(CharAt(s, i + 1)) && CharAt(t, i + 2) == Lower(CharAt(s, i + 2));
      if i + 1 < |s| {
        ParseLowered(s, if IsSeparator(CharAt(s, i + 2)) then i + 3 else i + 2, room - 1);
      }
    }
  }

  /** Parsing does not look back: a suffix parses the same on its own. */
  lemma {:induction false} ParseSuffix(p: string, s: string, i: nat, room: int)
    requires i <= |s|
    ensures ParseFrom(p + s, |p| + i, room) == ParseFrom(s, i, room)
    decreases |s| - i
  {
    var t := p + s;
    if i < |s| {
      assert CharAt(t, |p| + i + 1) == CharAt(s, i + 1);
      assert CharAt(t, |p| + i + 2) == CharAt(s, i + 2);
      var v := ScanHex(s[i], CharAt(s, i + 1));
      if v.Some? && i + 1 < |s| {
        ParseSuffix(p, s, if IsSeparator(CharAt(s, i + 2)) then i + 3 else i + 2, room - 1);
      }
    }
  }

  lemma PrintedByteScans(b: Byte)
    ensures ScanHex(HexDigit(b / 16), HexDigit(b % 16)) == Some(b)
  {
    HexDigitValue(b / 16);
    HexDigitValue(b % 16);
  }

  lemma HexDigitValue(n: nat)
    requires n < 16
    ensures HexValue(HexDigit(n)) == Some(n)
    ensures !IsSpace(HexDigit(n)) && !IsSeparator(HexDigit(n)) && HexDigit(n) != '+' && HexDigit(n) != '-'
  {
  }

  lemma HeadChars(b: Byte, sep: string, rest: string)
    requires |sep| <= 1
    ensures var s := PrintByte(b) + sep + rest;
      && |s| == 2 + |sep| + |rest| && s[0] == HexDigit(b / 16) && CharAt(s, 1) == HexDigit(b % 16)
      && CharAt(s, 2) == if sep != "" then sep[0] else CharAt(rest, 0)
  {
  }

  /** One printed byte in front of a text that a separator or a digit opens. */
  lemma ParseHead(b: Byte, sep: string, rest: string, room: int)
    requires sep == "" || (|sep| == 1 && IsSeparator(sep[0]))
    requires sep == "" && rest != "" ==> !IsSeparator(rest[0])
    ensures ParseFrom(PrintByte(b) + sep + rest, 0, room)
         == if room <= 0 then Overrun else Prepend(b, ParseFrom(rest, 0, room - 1))
  {
    var head := PrintByte(b) + sep;
    HeadChars(b, sep, rest);
    PrintedByteScans(b);
    if room > 0 { ParseSuffix(head, rest, 0, room - 1); }
  }

  lemma PrintedOpens(bs: seq<Byte>, sep: string)
    requires bs != []
    ensures PrintBytes(bs, sep) != "" && !IsSeparator(PrintBytes(bs, sep)[0])
  {
    HexDigitValue(bs[0] / 16);
  }

  /** What the parser is to make of the printed bytes. */
  function Expected(bs: seq<Byte>, room: int): Parse {
    if |bs| <= room then Read(bs) else Overrun
  }

  lemma ParseFew(bs: seq<Byte>, sep: string, room: nat)
    requires |bs| <= 1
    ensures ParseFrom(PrintBytes(bs, sep), 0, room) == Expected(bs, room)
  {
    if bs != [] {
      assert bs == [bs[0]];
      ParseHead(bs[0], "", "", room);
      assert PrintByte(bs[0]) + "" + "" == PrintByte(bs[0]);
    }
  }

  lemma ParseMore(bs: seq<Byte>, sep: string, room: nat)
    requires sep == "" || (|sep| == 1 && IsSeparator(sep[0]))
    requires |bs| > 1
    requires room > 0 ==> ParseFrom(PrintBytes(bs[1..], sep), 0, room - 1) == Expected(bs[1..], room - 1)
    ensures ParseFrom(PrintBytes(bs, sep), 0, room) == Expected(bs, room)
  {
    PrintedOpens(bs[1..], sep);
    ParseHead(bs[0], sep, PrintBytes(bs[1..], sep), room);
    assert bs == [bs[0]] + bs[1..];
  }

  /** CosaUtilStringToHex recovers the printed bytes, however many there are and
      whichever of its separators was used (or none), if the array takes them. */
  lemma {:induction false} ParsePrinted(bs: seq<Byte>, sep: string, room: nat)
    requires sep == "" || (|sep| == 1 && IsSeparator(sep[0]))
    ensures ParseFrom(PrintBytes(bs, sep), 0, room) == Expected(bs, room)
  {
    if |bs| <= 1 {
      ParseFew(bs, sep, room);
    } else {
      if room > 0 { ParsePrinted(bs[1..], sep, room - 1); }
      ParseMore(bs, sep, room);
    }
  }

  /** No other character separates bytes. */
  lemma SeparatorsIff(c: char)
    ensures ParseFrom("12" + [c] + "34", 0, 2) == Read([0x12, 0x34]) <==> c == ':' || c == '-' || c == '_'
  {
    var s := "12" + [c] + "34";
    assert s[0] == '1' && CharAt(s, 1) == '2' && CharAt(s, 2) == c && CharAt(s, 3) == '3' && CharAt(s, 4) == '4';
    assert ScanHex('1', '2') == Some(0x12) && ScanHex('3', '4') == Some(0x34);
    var next := if IsSeparator(c) then 3 else 2;
    assert ParseFrom(s, 0, 2) == Prepend(0x12, ParseFrom(s, next, 1));
    if IsSeparator(c) {
      assert ParseFrom(s, 5, 0) == Read([]);
      assert ParseFrom(s, 3, 1) == Prepend(0x34, Read([]));
    } else {
      var v := ScanHex(c, '3');
      if v.Some? {
        assert ParseFrom(s, 4, 0) == Overrun;
        assert ParseFrom(s, 2, 1) == Overrun;
      }
    }
  }

  /** Two addresses print alike only when they are the same address. */
  lemma PrintInjective(a: Mac, b: Mac)
    ensures Print(a) == Print(b) <==> a == b
  {
    ParsePrinted(a, ":", 6);
    ParsePrinted(b, ":", 6);
  }

  /** A printed group of n bytes has 3n - 1 characters: upper-case digits, and a colon in
      every third place. */
  lemma {:induction false} PrintedShape(bs: seq<Byte>)
    requires bs != []
    ensures |PrintBytes(bs, ":")| == 3 * |bs| - 1
    ensures forall j :: 0 <= j < |PrintBytes(bs, ":")| ==> PrintedChar(PrintBytes(bs, ":")[j], j)
  {
    if |bs| > 1 {
      var t, rest := PrintBytes(bs, ":"), PrintBytes(bs[1..], ":");
      PrintedShape(bs[1..]);
      assert t == PrintByte(bs[0]) + ":" + rest;
      forall j | 0 <= j < |t|
        ensures PrintedChar(t[j], j)
      {
        if j >= 3 {
          assert t[j] == rest[j - 3] && (j - 3) % 3 == j % 3;
          assert PrintedChar(rest[j - 3], j - 3);
        }
      }
    }
  }

  predicate PrintedChar(c: char, j: nat) {
    if j % 3 == 2 then c == ':' else '0' <= c <= '9' || 'A' <= c <= 'F'
  }

  // ----- hashing

  /** djb2 with 32-bit unsigned wrap-around. */
  function Hash(s: string): (h: nat)
    ensures h < UINT_SPACE
  {
    if s == "" then 5381
    else (Hash(s[..|s| - 1]) * 33 + s[|s| - 1] as int) % UINT_SPACE
  }

  /** djb2 on numbers without bound. */
  function Djb2(s: string): nat {
    if s == "" then 5381 else Djb2(s[..|s| - 1]) * 33 + s[|s| - 1] as int
  }

  /** Wrapping at every step is wrapping once at the end. */
  lemma {:induction false} HashWrapsOnce(s: string)
    ensures Hash(s) == Djb2(s) % UINT_SPACE
  {
    if s != "" {
      var p, c := s[..|s| - 1], s[|s| - 1] as int;
      HashWrapsOnce(p);
      WrapStep(Djb2(p), c);
    }
  }

  lemma WrapStep(x: nat, c: nat)
    ensures (x % UINT_SPACE * 33 + c) % UINT_SPACE == (x * 33 + c) % UINT_SPACE
  {
    var q := x / UINT_SPACE;
    assert x * 33 + c == UINT_SPACE * (33 * q) + (x % UINT_SPACE * 33 + c);
  }

  lemma ShiftAndAdd(h: nat, c: nat)
    ensures (h * 32 % UINT_SPACE + h + c) % UINT_SPACE == (h * 33 + c) % UINT_SPACE
  {
    var q := h * 32 / UINT_SPACE;
    assert h * 33 + c == UINT_SPACE * q + (h * 32 % UINT_SPACE + h + c);
  }

  /** Shifts left by five and adds, all in 32 bits. */
  method HashString(s: string) returns (h: nat)
    ensures h == Hash(s)
  {
    h := 5381;
    for i := 0 to |s|
      invariant h == Hash(s[..i])
    {
      assert s[..i + 1][..i] == s[..i];
      ShiftAndAdd(h, s[i] as int);
      h := (h * 32 % UINT_SPACE + h + s[i] as int) % UINT_SPACE;
    }
    assert s[..|s|] == s;
  }

  /** The same fold with one byte of state. */
  function Hash8(s: string): (h: nat)
    ensures h < 256
  {
    if s == "" then 5
    else (Hash8(s[..|s| - 1]) * 33 + s[|s| - 1] as int) % 256
  }

  lemma WrapThenByte(x: nat)
    ensures x % UINT_SPACE % 256 == x % 256
  {
    ModDrop(x / UINT_SPACE * 0x100_0000, x % UINT_SPACE);
    assert x == 256 * (x / UINT_SPACE * 0x100_0000) + x % UINT_SPACE;
  }

  lemma ModDrop(k: int, y: int)
    ensures (256 * k + y) % 256 == y % 256
  {
  }

  lemma ByteStep(x: nat, c: nat)
    ensures (x * 33 + c) % 256 == (x % 256 * 33 + c) % 256
  {
    var q, r := x / 256, x % 256;
    assert x == 256 * q + r;
    ModDrop(33 * q, r * 33 + c);
  }

  /** Wrapping at 32 bits and then reducing to a cell loses nothing against
      reducing to a cell at every step. */
  lemma {:induction false} HashReducesToByte(s: string)
    ensures Hash(s) % 256 == Hash8(s)
  {
    if s != "" {
      var p, c := s[..|s| - 1], s[|s| - 1] as int;
      HashReducesToByte(p);
      WrapThenByte(Hash(p) * 33 + c);
      ByteStep(Hash(p), c);
    }
  }

  /** 33 is invertible modulo 256 (225 * 33 == 29 * 256 + 1), so a difference in
      the state survives a step. */
  lemma InvertStep(d: int, q: int)
    requires 33 * d == 256 * q
    ensures d % 256 == 0
  {
    assert d == 256 * (225 * q - 29 * d);
  }

  lemma StepKeepsDifference(x: nat, y: nat, c: nat)
    requires x < 256 && y < 256 && x != y
    ensures (x * 33 + c) % 256 != (y * 33 + c) % 256
  {
    if (x * 33 + c) % 256 == (y * 33 + c) % 256 {
      InvertStep(x - y, (x * 33 + c) / 256 - (y * 33 + c) / 256);
    }
  }

  lemma StepAddsDifference(h: nat, c: nat, d: nat)
    requires c < 256 && d < 256 && c != d
    ensures (h * 33 + c) % 256 != (h * 33 + d) % 256
  {
    var q := (h * 33 + c) / 256 - (h * 33 + d) / 256;
    assert (h * 33 + c) % 256 == (h * 33 + d) % 256 ==> c - d == 256 * q;
  }

  lemma {:induction false} OneCharApart8(s: string, t: string, i: nat)
    requires |s| == |t| && i < |s| && s[i] != t[i]
    requires s[i] as int < 256 && t[i] as int < 256
    requires forall j :: 0 <= j < |s| && j != i ==> s[j] == t[j]
    ensures Hash8(s) != Hash8(t)
  {
    var n := |s| - 1;
    if i == n {
      assert s[..n] == t[..n];
      StepAddsDifference(Hash8(s[..n]), s[n] as int, t[n] as int);
    } else {
      OneCharApart8(s[..n], t[..n], i);
      StepKeepsDifference(Hash8(s[..n]), Hash8(t[..n]), s[n] as int);
    }
  }

  /** Texts that differ in exactly one place, by characters of one byte, never
      share a home cell. */
  lemma OneCharApart(s: string, t: string, i: nat)
    requires |s| == |t| && i < |s| && s[i] != t[i]
    requires s[i] as int < 256 && t[i] as int < 256
    requires forall j :: 0 <= j < |s| && j != i ==> s[j] == t[j]
    ensures Hash(s) % 256 != Hash(t) % 256
  {
    OneCharApart8(s, t, i);
    HashReducesToByte(s);
    HashReducesToByte(t);
  }
}
