/** What the components of a key look like, read off the text. */
module KeyForms {
  import opened Seqs
  import opened Dot11
  import opened Text
  import opened AlertKey
  import opened KeyIdentity

  // ----- Which characters ---------------------------------------------------------

  /** Digits, letters, '-', '.' and '_'. */
  predicate TokenCode(k: int) { 48 <= k <= 57 || 65 <= k <= 90 || 97 <= k <= 122 || k == 45 || k == 46 || k == 95 }

  lemma TokenIs(s: string)
    ensures TokOk(s) <==> 1 <= |s| <= 32 && forall i :: 0 <= i < |s| ==> TokenCode(s[i] as int)
  {
    forall i | 0 <= i < |s| ensures TokChar(s[i]) <==> TokenCode(s[i] as int) {}
  }

  /** The digits of either case, '.' and ':'. */
  predicate AddressCode(k: int) { 48 <= k <= 58 || 65 <= k <= 70 || 97 <= k <= 102 || k == 46 }

  lemma AddressIs(s: string)
    ensures IpShaped(s) <==> 1 <= |s| <= 45 && forall i :: 0 <= i < |s| ==> AddressCode(s[i] as int)
  {
    forall i | 0 <= i < |s| ensures IpChar(s[i]) <==> AddressCode(s[i] as int) {}
  }

  /** The readable part of a remote string: at most `keep` octets and never more than
      256, in which ':', ',', '[', ']' and whatever is outside 0x21 to 0x7e became '_'. */
  lemma VisibleIs(s: CString, keep: nat)
    ensures |Visible(s, keep)| == Min(|s|, Min(keep, 256))
    ensures forall i :: 0 <= i < |Visible(s, keep)| ==>
              Visible(s, keep)[i] ==
              (if 0x21 <= s[i] as int <= 0x7e && s[i] as int !in {0x2c, 0x3a, 0x5b, 0x5d} then s[i] else 95 as char)
  {
  }

  // ----- Addresses -----------------------------------------------------------------

  function DottedQuad(a: Byte, b: Byte, c: Byte, d: Byte): string {
    Decimal(a) + "." + Decimal(b) + "." + Decimal(c) + "." + Decimal(d)
  }

  lemma OctetIs(v: Byte)
    ensures 1 <= |Decimal(v)| <= 3 && forall i :: 0 <= i < |Decimal(v)| ==> '0' <= Decimal(v)[i] <= '9'
  {
    hide Decimal;
    assert Pow10(3) == 1000;
    DecimalSize(v, 3, 1000);
    DecimalDigits(v);
  }

  /** An IPv4 address stands bare in a key. */
  lemma QuadStandsBare(a: Byte, b: Byte, c: Byte, d: Byte)
    ensures var q := DottedQuad(a, b, c, d);
            IsC(q) && IpShaped(q) && |q| <= 15 && Encoding(Ip(q)) == ":" + q
  {
    hide Decimal, HashOf, Visible, Hex;
    OctetIs(a);
    OctetIs(b);
    OctetIs(c);
    OctetIs(d);
    var q := DottedQuad(a, b, c, d);
    assert forall i :: 0 <= i < |q| ==> '0' <= q[i] <= '9' || q[i] == '.';
    EncodingIs(Ip(q));
  }

  /** A group of an IPv6 address: hexadecimal digits, or none, or a dotted tail. */
  predicate Group(s: string) {
    forall i :: 0 <= i < |s| ==> '0' <= s[i] <= '9' || 'a' <= s[i] <= 'f' || 'A' <= s[i] <= 'F' || s[i] == '.'
  }

  function Colons(groups: seq<string>): string {
    if groups == [] then ""
    else if |groups| == 1 then groups[0]
    else Colons(groups[..|groups| - 1]) + ":" + groups[|groups| - 1]
  }

  lemma HexIsGroup(v: nat, n: nat)
    ensures Group(Hex(v, n))
  {
    HexDigits(v, n);
  }

  lemma {:induction false} ColonsShape(groups: seq<string>)
    requires forall i :: 0 <= i < |groups| ==> Group(groups[i])
    ensures forall i :: 0 <= i < |Colons(groups)| ==> IpChar(Colons(groups)[i])
    ensures |groups| > 1 ==> ':' in Colons(groups)
  {
    if |groups| <= 1 {
    } else {
      var f := groups[..|groups| - 1];
      ColonsShape(f);
      assert Colons(groups) == Colons(f) + ":" + groups[|groups| - 1];
      assert Colons(groups)[|Colons(f)|] == ':';
    }
  }

  /** An IPv6 address, of at most 45 octets as printed, stands in brackets. */
  lemma GroupsStandBracketed(groups: seq<string>)
    requires |groups| > 1 && (forall i :: 0 <= i < |groups| ==> Group(groups[i])) && |Colons(groups)| <= 45
    ensures var ip := Colons(groups);
            IsC(ip) && IpShaped(ip) && Encoding(Ip(ip)) == ":[" + ip + "]"
  {
    hide Colons, HashOf, Visible, Hex;
    var ip := Colons(groups);
    ColonsShape(groups);
    assert forall i :: 0 <= i < |ip| ==> IpChar(ip[i]);
    EncodingIs(Ip(ip));
    assert ":" + ("[" + ip + "]") == ":[" + ip + "]";
  }

  // ----- Reading the components back -------------------------------------------------

  /** An address spells its six octets in two digits each, colons between. */
  lemma MacReads(m: Mac, i: nat)
    requires i < 6
    ensures |MacText(m)| == 17 && ValueOf(MacText(m)[3 * i..3 * i + 2], 16) == m[i]
    ensures i < 5 ==> MacText(m)[3 * i + 2] == ':'
  {
    hide Hex;
    MacOctet(m, i);
    Hex64Fits();
    HexReads(m[i], 2);
  }

  lemma {:induction false} OctetsRead(b: seq<Byte>, i: nat)
    requires i < |b|
    ensures |HexBytes(b)| == 2 * |b| && ValueOf(HexBytes(b)[2 * i..2 * i + 2], 16) == b[i]
  {
    hide Hex;
    var (f, n) := (b[..|b| - 1], |b| - 1);
    if i == n {
      assert HexBytes(b)[2 * n..2 * n + 2] == Hex(b[n], 2);
      Hex64Fits();
      HexReads(b[n], 2);
    } else {
      OctetsRead(f, i);
      assert HexBytes(b)[2 * i..2 * i + 2] == HexBytes(f)[2 * i..2 * i + 2];
    }
  }

  /** Every component's text spells its value: numbers and octets in digits, tokens as
      they are, hashes in 16 digits behind the readable part or the count. */
  lemma TextSpellsValue(c: Comp)
    ensures var t := Encoding(c);
            && t != "" && t[0] == ':'
            && match c
               case Address(mac) =>
                 |t| == 18 && forall i :: 0 <= i < 6 ==> ValueOf(t[1..][3 * i..3 * i + 2], 16) == mac[i]
                                                         && (i < 5 ==> t[1..][3 * i + 2] == ':')
               case Number(v) => |t| > 1 && ValueOf(t[1..], 10) == v && (|t| > 2 ==> t[1] != '0')
               case Token(tok) => t[1..] == tok
               case Raw(b) =>
                 |t| == 1 + 2 * |b| && forall i :: 0 <= i < |b| ==> ValueOf(t[1..][2 * i..2 * i + 2], 16) == b[i]
               case Remote(s, keep) => HashEnds(t[1..], Visible(s, keep), HashOf(s))
               case Ip(ip) => IpShaped(ip) || HashEnds(t[1..], Visible(ip, 24), HashOf(ip))
               case Members(items) =>
                 exists n :: HashEnds(t[1..], n, SetHash(items)) && ValueOf(n, 10) == |items|
  {
    hide Decimal, Hex, HexBytes, Visible, MacText, HashOf, SetHash, Encoding, ValueOf, IpShaped, HashEnds;
    EncodingIs(c);
    var b := Body(c);
    assert (":" + b)[1..] == b;
    match c
    case Address(mac) => forall i | 0 <= i < 6 { MacReads(mac, i); }
    case Number(v) => DecimalReads(v);
    case Token(_) =>
    case Raw(bytes) => forall i | 0 <= i < |bytes| { OctetsRead(bytes, i); }
    case Remote(s, keep) => HashAtEnd(Visible(s, keep), HashOf(s));
    case Ip(ip) => HashAtEnd(Visible(ip, IP_FALLBACK_KEEP), HashOf(ip));
    case Members(items) =>
      HashAtEnd(Decimal(|items|), SetHash(items));
      DecimalReads(|items|);
  }

  /** A text that ends in a colon and a hash in 16 digits. */
  ghost predicate HashEnds(t: string, front: string, h: nat) {
    |t| == |front| + 17 && t[..|front|] == front && t[|front|] == ':' && ValueOf(t[|front| + 1..], 16) == h
  }

  lemma HashAtEnd(front: string, h: Fnv.U64)
    ensures HashEnds(front + ":" + Hex(h, 16), front, h)
  {
    hide Hex;
    Hex64Fits();
    HexReads(h, 16);
    assert (front + ":" + Hex(h, 16))[|front| + 1..] == Hex(h, 16);
  }

  /** A token of other characters or lengths, or a set of more than 64, leaves no key. */
  lemma InadmissibleLeavesNone(n: nat, rule: string, pre: seq<Comp>, c: Comp, post: seq<Comp>)
    requires || (c.Token? && !(1 <= |c.tok| <= 32 && forall i :: 0 <= i < |c.tok| ==> TokenCode(c.tok[i] as int)))
             || (c.Members? && |c.items| > 64)
    ensures Finish(Build(n, rule, pre + [c] + post)) == ""
  {
    hide Build, Finish, TokOk;
    if c.Token? { TokenIs(c.tok); }
    if Finish(Build(n, rule, pre + [c] + post)) != "" { FitsInside(n, rule, pre, c, post); }
  }

  /** Sets of up to 64 and every other component are let in. */
  lemma OthersAreAdmitted(c: Comp)
    requires c.Members? ==> |c.items| <= 64
    ensures c.Token? || Admissible(c)
  {
  }

  // ----- A published value ------------------------------------------------------------

  lemma LowOctetOfA()
    ensures Fnv.Xor(0x25, 0x61, 8) == 0x44
  {
    assert Fnv.Xor(0, 0, 1) == 0;
    assert Fnv.Xor(0, 1, 2) == 1;
    assert Fnv.Xor(1, 3, 3) == 2;
    assert Fnv.Xor(2, 6, 4) == 4;
    assert Fnv.Xor(4, 12, 5) == 8;
    assert Fnv.Xor(9, 24, 6) == 17;
    assert Fnv.Xor(18, 48, 7) == 34;
    assert Fnv.Xor(37, 97, 8) == 68;
  }

  lemma RoundOfA()
    ensures Fnv.Times(0xcbf29ce484222344) == 0xaf63dc4c8601ec8c
  {
    Fnv.WrapsTo(0xaf63dc4c8601ec8c, 0xcbf29ce484222344 * 0x100000001b3, 0xcbf29ce5de);
  }

  /** The FNV-1a test vector of "a", by which the constants and the order of the two
      operations are those of the published hash. */
  lemma HashOfA()
    ensures HashOf("a") == 0xaf63dc4c8601ec8c
  {
    hide Fnv.Xor, Fnv.Times;
    LowOctetOfA();
    RoundOfA();
    var b := Octets("a");
    assert b == [0x61] && b[..0] == [];
    assert Fnv.XorByte(Fnv.OFFSET, 0x61) == 0xcbf29ce484222344;
  }
}
