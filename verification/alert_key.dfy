/** The typed alert dedup-key builder: its grammar, its poisoned-on-overflow
    buffer, and why two findings cannot share a key. */
module AlertKey {
  import opened Seqs
  import opened Sorting
  import opened Dot11
  import opened Text
  import Fnv

  const TOK_MAX: nat := 32
  const SET_MAX: nat := 64
  const IP_FALLBACK_KEEP: nat := 24
  const REMOTE_MAX: nat := 256

  type U32 = x: int | 0 <= x < 0x1_0000_0000

  datatype Comp =
    | Address(mac: Mac)
    | Number(v: U32)
    | Token(tok: CString)
    | Raw(bytes: seq<Byte>)
    | Remote(s: CString, keep: nat)
    | Ip(ip: CString)
    | Members(items: seq<CString>)

  // ----- The grammar ------------------------------------------------------

  predicate TokChar(c: char) {
    'a' <= c <= 'z' || 'A' <= c <= 'Z' || '0' <= c <= '9' || c == '.' || c == '_' || c == '-'
  }

  predicate TokOk(s: string) { 0 < |s| <= TOK_MAX && forall i :: 0 <= i < |s| ==> TokChar(s[i]) }

  predicate Keeps(c: char) {
    0x20 < c as int < 0x7f && c != ':' && c != ',' && c != '[' && c != ']'
  }

  function Sanitised(s: CString): (r: string)
    ensures |r| == |s| && Plain(r)
  {
    seq(|s|, i requires 0 <= i < |s| => if Keeps(s[i]) then s[i] else '_')
  }

  /** The readable part: at most `keep` octets, and never more than 256. */
  function Visible(s: CString, keep: nat): (r: string)
    ensures |r| <= keep && |r| <= REMOTE_MAX && Plain(r)
  {
    Sanitised(s[..Min(|s|, Min(keep, REMOTE_MAX))])
  }

  function HashOf(s: CString): Fnv.U64 { Fnv.Hash(Octets(s), Fnv.OFFSET) }

  predicate IpChar(c: char) {
    c == ':' || '0' <= c <= '9' || 'a' <= c <= 'f' || 'A' <= c <= 'F' || c == '.'
  }

  predicate IpShaped(s: string) { 0 < |s| <= 45 && forall i :: 0 <= i < |s| ==> IpChar(s[i]) }

  /** What the set hash is taken over: each member with its terminator, sorted. */
  function Stream(items: seq<CString>): seq<Byte> {
    if items == [] then [] else Stream(items[..|items| - 1]) + Octets(items[|items| - 1]) + [0]
  }

  function Canonical(items: seq<CString>): seq<CString> {
    SortKeepsStrings(items);
    Sort<string>(items, Before())
  }

  lemma SortKeepsStrings(items: seq<CString>)
    ensures forall i :: 0 <= i < |items| ==> IsC(Sort<string>(items, Before())[i])
  {
    var r := Sort<string>(items, Before());
    SortMultiset<string>(items, Before());
    forall i | 0 <= i < |items| ensures IsC(r[i]) {
      assert r[i] in multiset(r);
      var j :| 0 <= j < |items| && items[j] == r[i];
    }
  }

  /** The members regardless of order. */
  function Bag(items: seq<CString>): multiset<string> {
    var strings: seq<string> := items;
    multiset(strings)
  }

  function SetHash(items: seq<CString>): Fnv.U64 { Fnv.Hash(Stream(Canonical(items)), Fnv.OFFSET) }

  predicate Admissible(c: Comp) {
    match c
    case Token(tok) => TokOk(tok)
    case Members(items) => |items| <= SET_MAX
    case _ => true
  }

  function RemotePieces(s: CString, keep: nat): seq<string> {
    [":", Visible(s, keep), ":", Hex(HashOf(s), 16)]
  }

  function RawPieces(b: seq<Byte>): seq<string> {
    if b == [] then [] else RawPieces(b[..|b| - 1]) + [Hex(b[|b| - 1], 2)]
  }

  /** The appends a component is made of, in order. */
  function Pieces(c: Comp): (ps: seq<string>)
    ensures ps != [] && ps[0] == ":"
  {
    match c
    case Address(mac) => [":", MacText(mac)]
    case Number(v) => [":", Decimal(v)]
    case Token(tok) => [":", tok]
    case Raw(b) => [":"] + RawPieces(b)
    case Remote(s, keep) => RemotePieces(s, keep)
    case Ip(ip) =>
      if !IpShaped(ip) then RemotePieces(ip, IP_FALLBACK_KEEP)
      else if ':' in ip then [":", "[", ip, "]"]
      else [":", ip]
    case Members(items) => [":", Decimal(|items|), ":", Hex(SetHash(items), 16)]
  }

  function Join(ps: seq<string>): string {
    if ps == [] then "" else Join(ps[..|ps| - 1]) + ps[|ps| - 1]
  }

  function Encoding(c: Comp): string { Join(Pieces(c)) }

  /** The key in full, were there room for it. */
  function KeyText(rule: string, comps: seq<Comp>): string {
    if comps == [] then rule else KeyText(rule, comps[..|comps| - 1]) + Encoding(comps[|comps| - 1])
  }

  lemma {:induction false} JoinConcat(a: seq<string>, b: seq<string>)
    ensures Join(a + b) == Join(a) + Join(b)
  {
    if b == [] {
      assert a + b == a && Join(a) + "" == Join(a);
    } else {
      var f := b[..|b| - 1];
      JoinConcat(a, f);
      assert (a + b)[..|a + b| - 1] == a + f;
      assert Join(a) + (Join(f) + b[|b| - 1]) == Join(a) + Join(f) + b[|b| - 1];
    }
  }

  lemma {:induction false} JoinRaw(b: seq<Byte>)
    ensures Join(RawPieces(b)) == HexBytes(b)
  {
    if b == [] {
    } else {
      JoinRaw(b[..|b| - 1]);
      var (f, x) := (RawPieces(b[..|b| - 1]), Hex(b[|b| - 1], 2));
      assert (f + [x])[..|f|] == f;
    }
  }

  /** Each component in closed form: a separator, then a body. */
  function Body(c: Comp): string {
    match c
    case Address(mac) => MacText(mac)
    case Number(v) => Decimal(v)
    case Token(tok) => tok
    case Raw(b) => HexBytes(b)
    case Remote(s, keep) => Visible(s, keep) + ":" + Hex(HashOf(s), 16)
    case Ip(ip) =>
      if !IpShaped(ip) then Visible(ip, IP_FALLBACK_KEEP) + ":" + Hex(HashOf(ip), 16)
      else if ':' in ip then "[" + ip + "]"
      else ip
    case Members(items) => Decimal(|items|) + ":" + Hex(SetHash(items), 16)
  }

  lemma Join2(a: string, b: string)
    ensures Join([a, b]) == a + b
  {
    assert [a, b][..1] == [a] && [a][..0] == [];
    assert Join([a]) == "" + a == a;
  }

  lemma Join4(a: string, b: string, c: string, d: string)
    ensures Join([a, b, c, d]) == a + (b + c + d)
  {
    Join2(a, b);
    Join2(c, d);
    JoinConcat([a, b], [c, d]);
    assert [a, b, c, d] == [a, b] + [c, d];
    assert a + b + (c + d) == a + (b + c + d);
  }

  lemma EncodingIs(c: Comp)
    ensures Encoding(c) == ":" + Body(c)
  {
    hide Decimal, Hex, HexBytes, Visible, MacText, HashOf, SetHash;
    match c
    case Address(mac) => Join2(":", MacText(mac));
    case Number(v) => Join2(":", Decimal(v));
    case Token(tok) => Join2(":", tok);
    case Raw(b) =>
      JoinConcat([":"], RawPieces(b));
      JoinRaw(b);
      assert [":"][..0] == [] && Join([":"]) == "" + ":" == ":";
    case Remote(s, keep) => Join4(":", Visible(s, keep), ":", Hex(HashOf(s), 16));
    case Ip(ip) =>
      Join4(":", Visible(ip, IP_FALLBACK_KEEP), ":", Hex(HashOf(ip), 16));
      Join4(":", "[", ip, "]");
      Join2(":", ip);
    case Members(items) => Join4(":", Decimal(|items|), ":", Hex(SetHash(items), 16));
  }

  // ----- The buffer, on values ---------------------------------------------

  /** Capacity, the text written so far, and the sticky overflow mark. */
  datatype Buf = Buf(n: nat, text: string, overflow: bool)

  /** `put`: all of `s` or none of it, leaving room for the terminator. */
  function Put(b: Buf, s: string): Buf {
    if b.overflow then b
    else if |b.text| + |s| + 1 > b.n then b.(overflow := true)
    else b.(text := b.text + s)
  }

  function PutAll(b: Buf, ps: seq<string>): Buf {
    if ps == [] then b else Put(PutAll(b, ps[..|ps| - 1]), ps[|ps| - 1])
  }

  function Add(b: Buf, c: Comp): Buf {
    if Admissible(c) then PutAll(b, Pieces(c)) else b.(overflow := true)
  }

  function Begin(n: nat, rule: string): Buf {
    var b := Buf(n, "", n == 0);
    if TokOk(rule) then Put(b, rule) else b.(overflow := true)
  }

  function Build(n: nat, rule: string, comps: seq<Comp>): Buf {
    if comps == [] then Begin(n, rule) else Add(Build(n, rule, comps[..|comps| - 1]), comps[|comps| - 1])
  }

  /** `akey_end`. */
  function Finish(b: Buf): string { if b.n == 0 || b.overflow then "" else b.text }

  predicate AllAdmissible(rule: string, comps: seq<Comp>) {
    TokOk(rule) && forall i :: 0 <= i < |comps| ==> Admissible(comps[i])
  }

  /** Unless poisoned, the text leaves room for its terminator. */
  predicate Sound(b: Buf) { !b.overflow ==> |b.text| < b.n }

  lemma {:induction false} PutAllIs(b: Buf, ps: seq<string>)
    requires Sound(b)
    ensures var r := PutAll(b, ps);
            && r.n == b.n && Sound(r)
            && (r.overflow <==> b.overflow || |b.text| + |Join(ps)| + 1 > b.n)
            && (!r.overflow ==> r.text == b.text + Join(ps))
  {
    if ps != [] {
      var (f, s) := (ps[..|ps| - 1], ps[|ps| - 1]);
      PutAllIs(b, f);
      assert b.text + Join(f) + s == b.text + (Join(f) + s);
    } else {
      assert b.text + "" == b.text;
    }
  }

  lemma {:induction false} BuildIs(n: nat, rule: string, comps: seq<Comp>)
    ensures var b := Build(n, rule, comps);
            && b.n == n && Sound(b)
            && (b.overflow <==> !AllAdmissible(rule, comps) || |KeyText(rule, comps)| + 1 > n)
            && (!b.overflow ==> b.text == KeyText(rule, comps))
  {
    hide Add, Admissible, TokOk, Encoding;
    if comps == [] {
      BeginIs(n, rule);
    } else {
      var (f, c) := (comps[..|comps| - 1], comps[|comps| - 1]);
      BuildIs(n, rule, f);
      assert AllAdmissible(rule, comps) <==> AllAdmissible(rule, f) && Admissible(c) by {
        assert comps == f + [c];
      }
      AddIs(Build(n, rule, f), c);
    }
  }

  lemma BeginIs(n: nat, rule: string)
    ensures var b := Begin(n, rule);
            && b.n == n && Sound(b) && (b.overflow <==> !TokOk(rule) || |rule| + 1 > n)
            && (!b.overflow ==> b.text == rule)
  {
    assert "" + rule == rule;
  }

  lemma AddIs(b: Buf, c: Comp)
    requires Sound(b)
    ensures var r := Add(b, c);
            && r.n == b.n && Sound(r)
            && (r.overflow <==> b.overflow || !Admissible(c) || |b.text| + |Encoding(c)| + 1 > b.n)
            && (!r.overflow ==> r.text == b.text + Encoding(c))
  {
    hide Admissible, Pieces, PutAll;
    PutAllIs(b, Pieces(c));
  }

  /** The key is exactly the concatenation of its components when every token and
      set is admissible and it fits with its terminator; otherwise it is empty. */
  lemma KeyIsExact(n: nat, rule: string, comps: seq<Comp>)
    ensures Finish(Build(n, rule, comps)) ==
            if AllAdmissible(rule, comps) && |KeyText(rule, comps)| + 1 <= n then KeyText(rule, comps) else ""
    ensures Finish(Build(n, rule, comps)) == "" <==> n == 0 || Build(n, rule, comps).overflow
  {
    BuildIs(n, rule, comps);
    if TokOk(rule) { KeyStartsWithRule(rule, comps); }
  }

  lemma {:induction false} KeyStartsWithRule(rule: string, comps: seq<Comp>)
    ensures rule <= KeyText(rule, comps)
  {
    if comps == [] {
    } else {
      KeyStartsWithRule(rule, comps[..|comps| - 1]);
    }
  }

  /** Once poisoned, always poisoned, and nothing more is written. */
  lemma {:induction false} OverflowSticks(b: Buf, ps: seq<string>)
    requires b.overflow
    ensures PutAll(b, ps) == b
  {
    if ps == [] {
    } else {
      OverflowSticks(b, ps[..|ps| - 1]);
    }
  }

  lemma {:induction false} PutAllWritesPrefix(b: Buf, ps: seq<string>)
    requires Sound(b) && !b.overflow
    ensures var r := PutAll(b, ps);
            && b.text <= r.text <= b.text + Join(ps)
            && (r.overflow ==> |r.text| < |b.text| + |Join(ps)|)
  {
    if ps == [] {
      assert b.text + "" == b.text;
    } else {
      var (f, s) := (ps[..|ps| - 1], ps[|ps| - 1]);
      PutAllWritesPrefix(b, f);
      PutAllIs(b, f);
      assert b.text + Join(f) + s == b.text + Join(ps);
    }
  }

  lemma {:induction false} FirstPieceDecides(b: Buf, ps: seq<string>)
    requires !b.overflow && ps != []
    ensures var r := PutAll(b, ps);
            if |b.text| + |ps[0]| + 1 > b.n then r == b.(overflow := true)
            else |r.text| >= |b.text| + |ps[0]|
  {
    if |ps| == 1 {
      assert ps[..0] == [];
    } else {
      FirstPieceDecides(b, ps[..|ps| - 1]);
    }
  }

  /** Where a component overflows, part of it stays in the buffer exactly when its
      separator still fitted. Only the sticky mark, and `akey_end` clearing the
      buffer, keep that text from being read as a key. */
  lemma PartialComponentIff(b: Buf, c: Comp)
    requires Sound(b) && !b.overflow && Admissible(c)
    ensures var r := Add(b, c);
            (r.text != b.text && r.text != b.text + Encoding(c)) <==>
            (|b.text| + 2 <= b.n && |b.text| + |Encoding(c)| + 1 > b.n)
  {
    PutAllIs(b, Pieces(c));
    PutAllWritesPrefix(b, Pieces(c));
    FirstPieceDecides(b, Pieces(c));
  }

  lemma PutThree(b: Buf, x: string, y: string, z: string)
    ensures PutAll(b, [x, y, z]) == Put(Put(Put(b, x), y), z)
  {
    hide Put;
    assert [x, y, z][..2] == [x, y] && [x, y][..1] == [x] && [x][..0] == [];
    assert PutAll(b, [x]) == Put(b, x);
    assert PutAll(b, [x, y]) == Put(Put(b, x), y);
  }

  lemma RawTwo(x: Byte, y: Byte)
    ensures Pieces(Raw([x, y])) == [":", Hex(x, 2), Hex(y, 2)]
  {
    hide Hex;
    assert [x, y][..1] == [x] && [x][..0] == [];
    assert RawPieces([x]) == [] + [Hex(x, 2)];
  }

  /** For instance, with 6 octets of room, rule "a" and the octets 1 and 2: the separator
      and the first octet's digits stay behind the overflow mark. */
  lemma PartialComponentStays()
    ensures Add(Begin(6, "a"), Raw([1, 2])) == Buf(6, "a:01", true)
    ensures Finish(Add(Begin(6, "a"), Raw([1, 2]))) == ""
  {
    hide Hex, PutAll, Pieces;
    RawTwo(1, 2);
    OneAndTwo();
    PutThree(Begin(6, "a"), ":", Hex(1, 2), Hex(2, 2));
    assert "" + "a" == "a" && "a" + ":" == "a:" && "a:" + "01" == "a:01";
    assert Begin(6, "a") == Buf(6, "a", false);
  }

  lemma OneAndTwo()
    ensures Hex(1, 2) == "01" && |Hex(2, 2)| == 2
  {
    assert Hex(0, 1) == "0";
    assert Hex(1, 2) == Hex(0, 1) + "1";
  }

  // ----- Sizes --------------------------------------------------------------

  lemma ComponentSizes(c: Comp)
    requires Admissible(c)
    ensures match c
            case Address(_) => |Encoding(c)| == 18
            case Number(_) => |Encoding(c)| <= 11
            case Token(_) => |Encoding(c)| <= 33
            case Raw(b) => |Encoding(c)| == 1 + 2 * |b|
            case Remote(_, keep) => |Encoding(c)| <= 1 + Min(keep, REMOTE_MAX) + 17
            case Ip(_) => |Encoding(c)| <= 1 + 47
            case Members(_) => |Encoding(c)| <= 1 + 2 + 17
  {
    EncodingIs(c);
    match c
    case Number(v) =>
      assert Pow10(10) == 10000000000 by { assert Pow10(5) == 100000; assert Pow10(8) == 1000 * Pow10(5); }
      DecimalSize(v, 10, Pow10(10));
    case Members(items) =>
      DecimalSize(|items|, 2, 100);
    case _ =>
  }

  // ----- Sets ---------------------------------------------------------------

  /** The component does not depend on the order its members were seen in. */
  lemma SetIsOrderIndependent(a: seq<CString>, b: seq<CString>)
    requires Bag(a) == Bag(b)
    ensures Encoding(Members(a)) == Encoding(Members(b))
  {
    BeforeIsTotal();
    SortCanonical<string>(a, b, Before());
    SameSize<string>(a, b);
    EncodingIs(Members(a));
    EncodingIs(Members(b));
  }

  lemma NoTerminatorInside(u: seq<Byte>, s: CString, v: seq<Byte>, t: CString)
    requires u + Octets(s) == v + Octets(t)
    requires u == [] || u[|u| - 1] == 0
    ensures |u| <= |v|
  {
    var (x, y) := (u + Octets(s), v + Octets(t));
    assert forall k :: |v| <= k < |y| ==> y[k] == Octets(t)[k - |v|] != 0;
    assert u != [] ==> x[|u| - 1] == 0;
    assert |x| == |y|;
  }

  lemma LastTerminator(u: seq<Byte>, s: CString, v: seq<Byte>, t: CString)
    requires u + Octets(s) + [0] == v + Octets(t) + [0]
    requires u == [] || u[|u| - 1] == 0
    requires v == [] || v[|v| - 1] == 0
    ensures u == v && s == t
  {
    var (x, y) := (u + Octets(s), v + Octets(t));
    assert x == (x + [0])[..|x|] && y == (y + [0])[..|y|] && |x + [0]| == |y + [0]|;
    NoTerminatorInside(u, s, v, t);
    NoTerminatorInside(v, t, u, s);
    assert u == x[..|u|] && v == y[..|v|];
    assert Octets(s) == x[|u|..] && Octets(t) == y[|v|..];
    assert forall i :: 0 <= i < |s| ==> s[i] as int == Octets(s)[i] == Octets(t)[i] == t[i] as int;
  }

  lemma StreamEnds(items: seq<CString>)
    ensures Stream(items) == [] <==> items == []
    ensures items != [] ==> Stream(items)[|Stream(items)| - 1] == 0
  {
  }

  lemma {:induction false} StreamInjective(a: seq<CString>, b: seq<CString>)
    requires Stream(a) == Stream(b)
    ensures a == b
  {
    StreamEnds(a);
    StreamEnds(b);
    if a == [] {
    } else {
      var (f, s, g, t) := (a[..|a| - 1], a[|a| - 1], b[..|b| - 1], b[|b| - 1]);
      StreamEnds(f);
      StreamEnds(g);
      LastTerminator(Stream(f), s, Stream(g), t);
      StreamInjective(f, g);
      assert a == f + [s] && b == g + [t];
    }
  }

  /** The bytes hashed determine the set and nothing but the set: member boundaries
      count, order does not. */
  lemma SetStreamIsExact(a: seq<CString>, b: seq<CString>)
    ensures Stream(Canonical(a)) == Stream(Canonical(b)) <==> Bag(a) == Bag(b)
  {
    SortMultiset<string>(a, Before());
    SortMultiset<string>(b, Before());
    if Stream(Canonical(a)) == Stream(Canonical(b)) {
      StreamInjective(Canonical(a), Canonical(b));
    }
    if Bag(a) == Bag(b) {
      BeforeIsTotal();
      SortCanonical<string>(a, b, Before());
    }
  }
}
