/** A family of addresses that share a home cell: since 33 to the eighth is 1
    modulo 256, the hash cannot tell apart characters eight places apart. */
module HashCollisions {
  import opened MacText

  /** The hash fold started from state h. */
  function Mix(h: nat, s: string): nat {
    if s == "" then h else (Mix(h, s[..|s| - 1]) * 33 + s[|s| - 1] as int) % 256
  }

  function Scale(e: int, n: nat): int {
    if n == 0 then e else 33 * Scale(e, n - 1)
  }

  lemma {:induction false} MixConcat(s: string, t: string)
    ensures Hash8(s + t) == Mix(Hash8(s), t)
  {
    if t == "" {
      assert s + t == s;
    } else {
      var n := |t| - 1;
      assert (s + t)[..|s + t| - 1] == s + t[..n];
      MixConcat(s, t[..n]);
    }
  }

  lemma Multiple(z: int, k: int)
    requires z == 256 * k
    ensures z % 256 == 0
  {
  }

  lemma ScaleStep(g: int, h: int, c: int, d: int, e: int, f: int)
    requires (g - h - e) % 256 == 0 && c - d == f
    ensures ((g * 33 + c) % 256 - (h * 33 + d) % 256 - (33 * e + f)) % 256 == 0
  {
    var q := (g - h - e) / 256;
    assert g - h - e == 256 * q;
    var x, y := g * 33 + c, h * 33 + d;
    var a, b, r, t := x / 256, y / 256, x % 256, y % 256;
    assert r == x - 256 * a && t == y - 256 * b;
    Multiple(r - t - (33 * e + f), 33 * q - a + b);
  }

  lemma {:induction false} MixScales(g: nat, h: nat, s: string, e: int)
    requires (g - h - e) % 256 == 0
    ensures (Mix(g, s) - Mix(h, s) - Scale(e, |s|)) % 256 == 0
  {
    if s != "" {
      var n := |s| - 1;
      MixScales(g, h, s[..n], e);
      ScaleStep(Mix(g, s[..n]), Mix(h, s[..n]), s[n] as int, s[n] as int, Scale(e, n), 0);
    }
  }

  /** 33 to the eighth is 1 modulo 256. */
  lemma ScaleEight(e: int)
    ensures (33 * Scale(e, 7) - e) % 256 == 0
  {
    assert Scale(e, 1) == 33 * e;
    assert Scale(e, 2) == 33 * Scale(e, 1);
    assert Scale(e, 3) == 33 * Scale(e, 2);
    assert Scale(e, 4) == 33 * Scale(e, 3);
    assert Scale(e, 5) == 33 * Scale(e, 4);
    assert Scale(e, 6) == 33 * Scale(e, 5);
    assert Scale(e, 7) == 33 * Scale(e, 6);
    Multiple(33 * Scale(e, 7) - e, 5493783665 * e);
  }

  lemma MixSnoc(p: string, c: char)
    ensures Hash8(p + [c]) == (Hash8(p) * 33 + c as int) % 256
  {
    assert (p + [c])[..|p|] == p;
  }

  lemma NearBytes(x: nat, y: nat, z: int)
    requires x < 256 && y < 256 && (x - y - z) % 256 == 0 && z % 256 == 0
    ensures x == y
  {
    assert x - y == 256 * ((x - y - z) / 256) + 256 * (z / 256);
  }

  lemma FirstDifference(p: string, c: char, d: char)
    ensures (Hash8(p + [c]) - Hash8(p + [d]) - (c as int - d as int)) % 256 == 0
  {
    MixSnoc(p, c);
    MixSnoc(p, d);
    var h := Hash8(p);
    ScaleStep(h, h, c as int, d as int, 0, c as int - d as int);
  }

  lemma ExchangeFirst(p: string, c: char, mid: string, d: char)
    ensures (Mix(Hash8(p + [c]), mid) - Mix(Hash8(p + [d]), mid) - Scale(c as int - d as int, |mid|)) % 256 == 0
  {
    FirstDifference(p, c, d);
    MixScales(Hash8(p + [c]), Hash8(p + [d]), mid, c as int - d as int);
  }

  lemma CancelDifference(g: nat, h: nat, c: int, d: int)
    requires (g - h - Scale(c - d, 7)) % 256 == 0
    ensures (g * 33 + d) % 256 == (h * 33 + c) % 256
  {
    var z := Scale(c - d, 7);
    ScaleStep(g, h, d, c, z, d - c);
    ScaleEight(c - d);
    NearBytes((g * 33 + d) % 256, (h * 33 + c) % 256, 33 * z - (c - d));
  }

  lemma ExchangeLast(p: string, c: char, mid: string, d: char)
    requires |mid| == 7
    ensures Hash8(p + [c] + mid + [d]) == Hash8(p + [d] + mid + [c])
  {
    ExchangeFirst(p, c, mid, d);
    MixConcat(p + [c], mid);
    MixConcat(p + [d], mid);
    MixSnoc(p + [c] + mid, d);
    MixSnoc(p + [d] + mid, c);
    CancelDifference(Mix(Hash8(p + [c]), mid), Mix(Hash8(p + [d]), mid), c as int, d as int);
  }

  /** Exchanging two characters eight places apart keeps the home cell. */
  lemma EightApartCollide(p: string, c: char, mid: string, d: char, rest: string)
    requires |mid| == 7
    ensures Hash(p + [c] + mid + [d] + rest) % 256 == Hash(p + [d] + mid + [c] + rest) % 256
  {
    var x, y := p + [c] + mid + [d], p + [d] + mid + [c];
    ExchangeLast(p, c, mid, d);
    MixConcat(x, rest);
    MixConcat(y, rest);
    HashReducesToByte(x + rest);
    HashReducesToByte(y + rest);
  }
}
