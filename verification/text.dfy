/** C strings and the fixed renderings alert keys are made of. */
module Text {
  import opened Dot11
  import opened Sorting

  /** A C string: octets 1..255, the terminator not included. */
  predicate IsC(s: string) { forall i :: 0 <= i < |s| ==> 0 < s[i] as int < 256 }

  type CString = s: string | IsC(s)

  predicate Lacks(s: string, c: char) { forall i :: 0 <= i < |s| ==> s[i] != c }

  function Octets(s: CString): (b: seq<Byte>)
    ensures |b| == |s| && forall i :: 0 <= i < |s| ==> b[i] == s[i] as int
  {
    seq(|s|, i requires 0 <= i < |s| => s[i] as int)
  }

  // ----- Digits -----------------------------------------------------------

  const DIGITS: string := "0123456789abcdef"

  function Digit(d: nat): (c: char)
    requires d < 16
    ensures c != ':' && c != '[' && c != ']' && 0 < c as int < 256
  {
    DIGITS[d]
  }

  lemma DigitsDiffer(d: nat, e: nat)
    requires d < 16 && e < 16 && Digit(d) == Digit(e)
    ensures d == e
  {
    assert DIGITS[0] == '0' && DIGITS[9] == '9' && DIGITS[10] == 'a' && DIGITS[15] == 'f';
  }

  predicate Plain(s: string) { Lacks(s, ':') && Lacks(s, '[') && Lacks(s, ']') && IsC(s) }

  /** "%u" */
  function Decimal(v: nat): (s: string)
    ensures s != [] && Plain(s)
  {
    if v < 10 then [Digit(v)] else Decimal(v / 10) + [Digit(v % 10)]
  }

  lemma {:induction false} DecimalSize(v: nat, n: nat, bound: nat)
    requires 0 < n && v < bound && bound == Pow10(n)
    ensures |Decimal(v)| <= n
  {
    if v >= 10 {
      assert n > 1;
      DecimalSize(v / 10, n - 1, Pow10(n - 1));
    }
  }

  function Pow10(n: nat): (r: nat)
    ensures r > 0
  {
    if n == 0 then 1 else 10 * Pow10(n - 1)
  }

  lemma {:induction false} DecimalInjective(v: nat, w: nat)
    requires Decimal(v) == Decimal(w)
    ensures v == w
  {
    var (s, t) := (Decimal(v), Decimal(w));
    assert s[|s| - 1] == Digit(v % 10) && t[|t| - 1] == Digit(w % 10);
    DigitsDiffer(v % 10, w % 10);
    assert v >= 10 ==> s[..|s| - 1] == Decimal(v / 10) != [];
    assert w >= 10 ==> t[..|t| - 1] == Decimal(w / 10) != [];
    if v >= 10 && w >= 10 {
      DecimalInjective(v / 10, w / 10);
    }
  }

  /** The low n hexadecimal digits of v. */
  function Hex(v: nat, n: nat): (s: string)
    ensures |s| == n && Plain(s)
  {
    if n == 0 then [] else Hex(v / 16, n - 1) + [Digit(v % 16)]
  }

  function Pow16(n: nat): nat { if n == 0 then 1 else 16 * Pow16(n - 1) }

  lemma {:induction false} HexInjective(v: nat, w: nat, n: nat)
    requires v < Pow16(n) && w < Pow16(n) && Hex(v, n) == Hex(w, n)
    ensures v == w
  {
    if n == 0 {
    } else {
      var (s, t) := (Hex(v, n), Hex(w, n));
      assert s[..n - 1] == Hex(v / 16, n - 1) && t[..n - 1] == Hex(w / 16, n - 1);
      assert s[n - 1] == Digit(v % 16) && t[n - 1] == Digit(w % 16);
      DigitsDiffer(v % 16, w % 16);
      HexInjective(v / 16, w / 16, n - 1);
    }
  }

  lemma Hex64Fits()
    ensures Pow16(16) == 0x1_0000_0000_0000_0000 && Pow16(2) == 256
  {
    assert Pow16(4) == 65536;
    assert Pow16(8) == 65536 * Pow16(4);
    assert Pow16(12) == 65536 * Pow16(8);
    assert Pow16(16) == 65536 * Pow16(12);
  }

  /** "%02x" of each octet in turn. */
  function HexBytes(b: seq<Byte>): (s: string)
    ensures |s| == 2 * |b| && Plain(s)
  {
    if b == [] then [] else HexBytes(b[..|b| - 1]) + Hex(b[|b| - 1], 2)
  }

  lemma {:induction false} HexBytesInjective(a: seq<Byte>, b: seq<Byte>)
    requires HexBytes(a) == HexBytes(b)
    ensures a == b
  {
    hide Hex;
    assert |a| == |b|;
    if a == [] {
    } else {
      var (f, g, x, y) := (a[..|a| - 1], b[..|b| - 1], a[|a| - 1], b[|b| - 1]);
      SplitLength(HexBytes(f), Hex(x, 2), HexBytes(g), Hex(y, 2));
      HexBytesInjective(f, g);
      Hex64Fits();
      HexInjective(x, y, 2);
      assert a == f + [x] && b == g + [y];
    }
  }

  /** "aa:bb:cc:dd:ee:ff" */
  function MacText(m: Mac): (s: string)
    ensures |s| == 17 && Lacks(s, '[') && Lacks(s, ']') && IsC(s)
  {
    Hex(m[0], 2) + ":" + Hex(m[1], 2) + ":" + Hex(m[2], 2) + ":" + Hex(m[3], 2) + ":" + Hex(m[4], 2) + ":" + Hex(m[5], 2)
  }

  lemma MacTextInjective(a: Mac, b: Mac)
    requires MacText(a) == MacText(b)
    ensures a == b
  {
    Hex64Fits();
    forall i | 0 <= i < 6 ensures a[i] == b[i] {
      MacOctet(a, i);
      MacOctet(b, i);
      HexInjective(a[i], b[i], 2);
    }
  }

  lemma MacOctet(m: Mac, i: nat)
    requires i < 6
    ensures MacText(m)[3 * i..3 * i + 2] == Hex(m[i], 2)
  {
    hide Hex;
    var t := MacText(m);
    assert t[0..2] == Hex(m[0], 2) && t[3..5] == Hex(m[1], 2) && t[6..8] == Hex(m[2], 2);
    assert t[9..11] == Hex(m[3], 2) && t[12..14] == Hex(m[4], 2) && t[15..17] == Hex(m[5], 2);
  }

  // ----- Reading digits back -------------------------------------------------

  function DigitValue(c: char): nat {
    if '0' <= c <= '9' then (c - '0') as int
    else if 'a' <= c <= 'f' then (c - 'a') as int + 10
    else 0
  }

  /** The number a string of digits spells in a base. */
  function ValueOf(s: string, base: nat): nat {
    if s == "" then 0 else ValueOf(s[..|s| - 1], base) * base + DigitValue(s[|s| - 1])
  }

  lemma DigitReads(d: nat)
    requires d < 16
    ensures DigitValue(Digit(d)) == d
  {
  }

  /** A decimal spells its number, without leading zeros. */
  lemma {:induction false} DecimalReads(v: nat)
    ensures ValueOf(Decimal(v), 10) == v
    ensures |Decimal(v)| > 1 ==> Decimal(v)[0] != '0'
  {
    DigitReads(v % 10);
    if v < 10 {
      assert ValueOf([Digit(v)][..0], 10) == 0;
    } else {
      DecimalReads(v / 10);
      assert Decimal(v)[..|Decimal(v)| - 1] == Decimal(v / 10);
      assert Decimal(v)[0] == Decimal(v / 10)[0];
      LeadingDigit(v / 10);
    }
  }

  lemma LeadingDigit(v: nat)
    ensures v > 0 && |Decimal(v)| == 1 ==> Decimal(v)[0] != '0'
  {
  }

  /** n hexadecimal digits spell their number, where it fits them. */
  lemma {:induction false} HexReads(v: nat, n: nat)
    requires v < Pow16(n)
    ensures ValueOf(Hex(v, n), 16) == v
  {
    if n == 0 {
    } else {
      DigitReads(v % 16);
      HexReads(v / 16, n - 1);
      assert Hex(v, n)[..n - 1] == Hex(v / 16, n - 1);
    }
  }

  // ----- Splitting --------------------------------------------------------

  predicate StartsWith(s: string, c: char) { s == [] || s[0] == c }

  lemma SplitNoShorter(stop: char, a: string, r: string, b: string, q: string)
    requires Lacks(b, stop) && StartsWith(r, stop) && a + r == b + q
    ensures |b| <= |a|
  {
    assert forall i :: 0 <= i < |b| ==> (a + r)[i] == b[i] != stop;
    assert r != [] ==> (a + r)[|a|] == stop;
    assert |a + r| == |b + q|;
  }

  /** What comes before the first stop character is determined by the whole. */
  lemma SplitAt(stop: char, a: string, r: string, b: string, q: string)
    requires Lacks(a, stop) && Lacks(b, stop)
    requires StartsWith(r, stop) && StartsWith(q, stop)
    requires a + r == b + q
    ensures a == b && r == q
  {
    SplitNoShorter(stop, a, r, b, q);
    SplitNoShorter(stop, b, q, a, r);
    SplitLength(a, r, b, q);
  }

  lemma SplitLength(a: string, r: string, b: string, q: string)
    requires |a| == |b| && a + r == b + q
    ensures a == b && r == q
  {
    assert (a + r)[..|a|] == a && (b + q)[..|b|] == b;
    assert (a + r)[|a|..] == r && (b + q)[|b|..] == q;
  }

  // ----- strcmp -----------------------------------------------------------

  /** strcmp(a, b) < 0 */
  predicate Less(a: string, b: string) {
    if b == [] then false
    else if a == [] then true
    else if a[0] != b[0] then a[0] < b[0]
    else Less(a[1..], b[1..])
  }

  /** At the first place where they differ the smaller character decides, and an end
      comes before any character. */
  ghost predicate DiffersAt(a: string, b: string, n: nat) {
    n <= |a| && n < |b| && a[..n] == b[..n] && (n == |a| || a[n] < b[n])
  }

  lemma {:induction false} LessMeans(a: string, b: string)
    ensures Less(a, b) <==> exists n: nat :: DiffersAt(a, b, n)
  {
    if b == [] {
    } else if a == [] {
      assert DiffersAt(a, b, 0);
    } else if a[0] != b[0] {
      assert a[0] < b[0] ==> DiffersAt(a, b, 0);
      forall n: nat | DiffersAt(a, b, n) ensures a[0] < b[0] {
        if n > 0 { assert a[..n][0] == b[..n][0]; }
      }
    } else {
      var (s, t) := (a[1..], b[1..]);
      LessMeans(s, t);
      if n: nat :| DiffersAt(s, t, n) {
        assert a[..n + 1] == [a[0]] + s[..n] && b[..n + 1] == [b[0]] + t[..n];
        assert DiffersAt(a, b, n + 1);
      }
      if n: nat :| DiffersAt(a, b, n) {
        assert n > 0;
        assert s[..n - 1] == a[..n][1..] && t[..n - 1] == b[..n][1..];
        assert DiffersAt(s, t, n - 1);
      }
    }
  }

  function Before(): (string, string) -> bool { (a: string, b: string) => Less(a, b) }

  lemma {:induction false} LessAsymmetric(a: string, b: string)
    requires Less(a, b)
    ensures !Less(b, a)
  {
    if a != [] && b != [] && a[0] == b[0] { LessAsymmetric(a[1..], b[1..]); }
  }

  lemma {:induction false} NotLessTransitive(a: string, b: string, c: string)
    requires !Less(a, b) && !Less(b, c)
    ensures !Less(a, c)
  {
    if a != [] && b != [] && c != [] && a[0] == b[0] == c[0] { NotLessTransitive(a[1..], b[1..], c[1..]); }
  }

  lemma {:induction false} LessTotal(a: string, b: string)
    requires !Less(a, b) && !Less(b, a)
    ensures a == b
  {
    if a != [] && b != [] {
      LessTotal(a[1..], b[1..]);
      assert a == [a[0]] + a[1..] && b == [b[0]] + b[1..];
    }
  }

  /** strcmp orders strings totally. */
  lemma BeforeIsTotal()
    ensures StrictWeak(Before()) && Trichotomous(Before())
  {
    forall a: string, b: string | Before()(a, b) ensures !Before()(b, a) { LessAsymmetric(a, b); }
    forall a: string, b: string, c: string | !Before()(a, b) && !Before()(b, c) ensures !Before()(a, c) {
      NotLessTransitive(a, b, c);
    }
    forall a: string, b: string | !Before()(a, b) && !Before()(b, a) ensures a == b { LessTotal(a, b); }
  }
}
