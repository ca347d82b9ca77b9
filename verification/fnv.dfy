/** The 64-bit FNV-1a hash, in the wrap-around arithmetic of a uint64_t. */
module Fnv {
  import opened Dot11

  const M: int := 0x1_0000_0000_0000_0000
  const OFFSET: U64 := 0xcbf29ce484222325

  type U64 = x: int | 0 <= x < 0x1_0000_0000_0000_0000

  function Pow2(n: nat): (r: nat)
    ensures r > 0
  {
    if n == 0 then 1 else 2 * Pow2(n - 1)
  }

  /** Exclusive or of the low n bits. */
  function Xor(a: nat, b: nat, n: nat): (r: nat)
    ensures r < Pow2(n)
  {
    if n == 0 then 0 else (a % 2 + b % 2) % 2 + 2 * Xor(a / 2, b / 2, n - 1)
  }

  lemma {:induction false} XorTwice(a: nat, b: nat, n: nat)
    requires a < Pow2(n)
    ensures Xor(Xor(a, b, n), b, n) == a
  {
    hide Xor;
    if n == 0 {
    } else {
      var r := Xor(a, b, n);
      XorTwice(a / 2, b / 2, n - 1);
      XorBits(a, b, n);
      XorBits(r, b, n);
      BitTwice(a % 2, b % 2);
    }
  }

  lemma XorBits(a: nat, b: nat, n: nat)
    requires n > 0
    ensures Xor(a, b, n) / 2 == Xor(a / 2, b / 2, n - 1) && Xor(a, b, n) % 2 == (a % 2 + b % 2) % 2
  {
  }

  lemma BitTwice(x: nat, y: nat)
    requires x < 2 && y < 2
    ensures ((x + y) % 2 + y) % 2 == x
  {
  }

  lemma {:induction false} XorSwap(a: nat, b: nat, n: nat)
    ensures Xor(a, b, n) == Xor(b, a, n)
  {
    if n == 0 {
    } else {
      XorSwap(a / 2, b / 2, n - 1);
    }
  }

  lemma EightBits()
    ensures Pow2(8) == 256
  {
    assert Pow2(4) == 16;
  }

  /** `h ^= byte`: only the low octet changes. */
  function XorByte(h: U64, b: Byte): U64 {
    EightBits();
    h - h % 256 + Xor(h % 256, b, 8)
  }

  lemma XorByteTwice(h: U64, b: Byte)
    ensures XorByte(XorByte(h, b), b) == h
  {
    hide Xor;
    EightBits();
    XorTwice(h % 256, b, 8);
    LowByte(h, Xor(h % 256, b, 8));
  }

  lemma LowByte(h: U64, x: Byte)
    ensures (h - h % 256 + x) % 256 == x && 0 <= h - h % 256 + x < M
    ensures h - h % 256 + x - x == h - h % 256
  {
  }

  lemma XorByteSeparates(h: U64, b: Byte, c: Byte)
    requires XorByte(h, b) == XorByte(h, c)
    ensures b == c
  {
    EightBits();
    XorSwap(h % 256, b, 8);
    XorSwap(h % 256, c, 8);
    XorTwice(b, h % 256, 8);
    XorTwice(c, h % 256, 8);
  }

  function Times(h: U64): U64 { h * 0x100000001b3 % 0x1_0000_0000_0000_0000 }
  function Over(h: U64): U64 { h * 0xce965057aff6957b % 0x1_0000_0000_0000_0000 }

  lemma WrapsTo(h: U64, x: int, k: int)
    requires x == h + 0x1_0000_0000_0000_0000 * k
    ensures x % 0x1_0000_0000_0000_0000 == h
  {
  }

  /** The odd prime has an inverse modulo 2^64: their product is KM + 1. */
  lemma TimesOver(h: U64)
    ensures Over(Times(h)) == h && Times(Over(h)) == h
  {
    var q := h * 0x100000001b3 / 0x1_0000_0000_0000_0000;
    WrapsTo(h, Times(h) * 0xce965057aff6957b, h * 0xce9650590f - q * 0xce965057aff6957b);
    var r := h * 0xce965057aff6957b / 0x1_0000_0000_0000_0000;
    WrapsTo(h, Over(h) * 0x100000001b3, h * 0xce9650590f - r * 0x100000001b3);
  }

  /** One round: exclusive or, then multiply modulo 2^64. */
  function Round(h: U64, b: Byte): U64 { Times(XorByte(h, b)) }

  /** The round that undoes it. */
  function Unround(h: U64, b: Byte): U64 { XorByte(Over(h), b) }

  /** For each octet the round is a bijection of the 64-bit state; for each state
      distinct octets lead apart. */
  lemma RoundIsBijective(h: U64, b: Byte, c: Byte)
    ensures Unround(Round(h, b), b) == h && Round(Unround(h, b), b) == h
    ensures b != c ==> Round(h, b) != Round(h, c)
  {
    hide XorByte, Times, Over;
    TimesOver(XorByte(h, b));
    TimesOver(XorByte(h, c));
    TimesOver(h);
    XorByteTwice(h, b);
    XorByteTwice(Over(h), b);
    if Round(h, b) == Round(h, c) { XorByteSeparates(h, b, c); }
  }

  function Hash(s: seq<Byte>, h: U64): U64 {
    if s == [] then h else Round(Hash(s[..|s| - 1], h), s[|s| - 1])
  }

  /** `akey_fnv`. */
  method Run(s: seq<Byte>, start: U64) returns (h: U64)
    ensures h == Hash(s, start)
  {
    hide Round;
    h := start;
    for i := 0 to |s|
      invariant h == Hash(s[..i], start)
    {
      assert s[..i + 1][..i] == s[..i];
      h := Round(h, s[i]);
    }
    assert s[..|s|] == s;
  }

  lemma {:induction false} HashConcat(a: seq<Byte>, b: seq<Byte>, h: U64)
    ensures Hash(a + b, h) == Hash(b, Hash(a, h))
  {
    hide Round;
    if b == [] {
      assert a + b == a;
    } else {
      HashConcat(a, b[..|b| - 1], h);
      assert (a + b)[..|a + b| - 1] == a + b[..|b| - 1];
    }
  }

  /** Different states stay different through any common suffix. */
  lemma {:induction false} HashKeepsApart(s: seq<Byte>, g: U64, h: U64)
    requires g != h
    ensures Hash(s, g) != Hash(s, h)
  {
    hide Round, Unround;
    if s == [] {
    } else {
      var (f, b) := (s[..|s| - 1], s[|s| - 1]);
      HashKeepsApart(f, g, h);
      RoundIsBijective(Hash(f, g), b, b);
      RoundIsBijective(Hash(f, h), b, b);
    }
  }

  /** Two strings of one length that differ in exactly one octet never share a hash. */
  lemma OneByteApart(s: seq<Byte>, t: seq<Byte>, i: nat, h: U64)
    requires |s| == |t| && i < |s| && s[i] != t[i]
    requires s[..i] == t[..i] && s[i + 1..] == t[i + 1..]
    ensures Hash(s, h) != Hash(t, h)
  {
    hide Round;
    var (pre, post) := (s[..i], s[i + 1..]);
    assert s == pre + [s[i]] + post && t == pre + [t[i]] + post;
    HashConcat(pre + [s[i]], post, h);
    HashConcat(pre + [t[i]], post, h);
    assert (pre + [s[i]])[..i] == pre && (pre + [t[i]])[..i] == pre;
    RoundIsBijective(Hash(pre, h), s[i], t[i]);
    HashKeepsApart(post, Hash(pre + [s[i]], h), Hash(pre + [t[i]], h));
  }
}
