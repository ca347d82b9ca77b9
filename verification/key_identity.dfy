/** Why two findings cannot share a key: reading a key back, and what the address
    fallback does to that. */
module KeyIdentity {
  import opened Seqs
  import opened Dot11
  import opened Text
  import opened AlertKey

  /** What two components of one type must share for their encodings to agree: the
      value itself, or a readable part and a hash. */
  predicate SameIdentity(c: Comp, d: Comp) {
    match (c, d)
    case (Address(a), Address(b)) => a == b
    case (Number(a), Number(b)) => a == b
    case (Token(a), Token(b)) => a == b
    case (Raw(a), Raw(b)) => a == b
    case (Ip(a), Ip(b)) =>
      if IpShaped(a) || IpShaped(b) then a == b
      else Visible(a, IP_FALLBACK_KEEP) == Visible(b, IP_FALLBACK_KEEP) && HashOf(a) == HashOf(b)
    case (Remote(a, k), Remote(b, m)) => Visible(a, k) == Visible(b, m) && HashOf(a) == HashOf(b)
    case (Members(a), Members(b)) => |a| == |b| && SetHash(a) == SetHash(b)
    case _ => false
  }

  predicate SameType(c: Comp, d: Comp) {
    match (c, d)
    case (Address(_), Address(_)) => true
    case (Number(_), Number(_)) => true
    case (Token(_), Token(_)) => true
    case (Raw(_), Raw(_)) => true
    case (Ip(_), Ip(_)) => true
    case (Remote(_, _), Remote(_, _)) => true
    case (Members(_), Members(_)) => true
    case _ => false
  }

  predicate SameSchema(cs: seq<Comp>, ds: seq<Comp>) {
    |cs| == |ds| && forall i :: 0 <= i < |cs| ==> SameType(cs[i], ds[i])
  }

  /** Whether an address takes its own form, or the fallback of a remote string. */
  predicate SameForm(c: Comp, d: Comp) { c.Ip? && d.Ip? ==> (IpShaped(c.ip) <==> IpShaped(d.ip)) }

  predicate SameForms(cs: seq<Comp>, ds: seq<Comp>)
    requires |cs| == |ds|
  {
    forall i :: 0 <= i < |cs| ==> SameForm(cs[i], ds[i])
  }

  /** At most two addresses, and nothing between them, as in every key the rules build
      (src/alerts/rules_wired.c:196-197 has two). */
  predicate AddressesAdjacent(cs: seq<Comp>) {
    forall i, j :: 0 <= i < j < |cs| && cs[i].Ip? && cs[j].Ip? ==> j == i + 1
  }

  lemma TokensLack(s: string)
    requires TokOk(s)
    ensures Lacks(s, ':')
  {
    assert forall i :: 0 <= i < |s| ==> TokChar(s[i]);
  }

  lemma SplitHash(u: string, g: Fnv.U64, r: string, v: string, h: Fnv.U64, q: string)
    requires Lacks(u, ':') && Lacks(v, ':')
    requires u + ":" + Hex(g, 16) + r == v + ":" + Hex(h, 16) + q
    ensures u == v && g == h && r == q
  {
    hide Hex;
    var (x, y) := (":" + Hex(g, 16) + r, ":" + Hex(h, 16) + q);
    assert u + ":" + Hex(g, 16) + r == u + x && v + ":" + Hex(h, 16) + q == v + y;
    SplitAt(':', u, x, v, y);
    SplitLength(":" + Hex(g, 16), r, ":" + Hex(h, 16), q);
    SplitLength(":", Hex(g, 16), ":", Hex(h, 16));
    Hex64Fits();
    HexInjective(g, h, 16);
  }

  predicate Bracketed(ip: string) { ':' in ip }

  lemma IpFirst(ip: CString, r: string)
    requires IpShaped(ip)
    ensures Bracketed(ip) <==> (Body(Ip(ip)) + r)[0] == '['
    ensures Lacks(ip, '[') && Lacks(ip, ']') && (!Bracketed(ip) ==> Lacks(ip, ':'))
    ensures Body(Ip(ip)) == if Bracketed(ip) then "[" + ip + "]" else ip
  {
    assert forall i :: 0 <= i < |ip| ==> IpChar(ip[i]);
  }

  lemma SplitIp(a: CString, r: string, b: CString, q: string)
    requires IpShaped(a) && IpShaped(b) && StartsWith(r, ':') && StartsWith(q, ':')
    requires Body(Ip(a)) + r == Body(Ip(b)) + q
    ensures a == b && r == q
  {
    hide Body, IpShaped, Bracketed;
    IpFirst(a, r);
    IpFirst(b, q);
    if Bracketed(a) {
      Regroup("[", a, "]", r);
      Regroup("[", b, "]", q);
      SplitLength("[", a + ("]" + r), "[", b + ("]" + q));
      SplitAt(']', a, "]" + r, b, "]" + q);
      SplitLength("]", r, "]", q);
    } else {
      SplitAt(':', a, r, b, q);
    }
  }

  lemma Regroup(a: string, b: string, c: string, d: string)
    ensures a + b + c + d == a + (b + (c + d))
    ensures a == "" ==> a + b == b && b + c + d == b + (c + d)
  {
  }

  /** Read from its front, an encoding can be parsed in one way: colons inside a MAC
      or a bracketed IPv6 address are not taken for separators. */
  lemma DecodeFirst(c: Comp, r: string, d: Comp, q: string)
    requires SameType(c, d) && SameForm(c, d) && Admissible(c) && Admissible(d)
    requires StartsWith(r, ':') && StartsWith(q, ':')
    requires Body(c) + r == Body(d) + q
    ensures SameIdentity(c, d) && r == q
  {
    hide Decimal, Hex, HexBytes, Visible, MacText, HashOf, SetHash;
    match (c, d)
    case (Address(a), Address(b)) =>
      SplitLength(MacText(a), r, MacText(b), q);
      MacTextInjective(a, b);
    case (Number(a), Number(b)) =>
      SplitAt(':', Decimal(a), r, Decimal(b), q);
      DecimalInjective(a, b);
    case (Token(a), Token(b)) =>
      TokensLack(a);
      TokensLack(b);
      SplitAt(':', a, r, b, q);
    case (Raw(a), Raw(b)) =>
      SplitAt(':', HexBytes(a), r, HexBytes(b), q);
      HexBytesInjective(a, b);
    case (Ip(a), Ip(b)) =>
      if IpShaped(a) {
        SplitIp(a, r, b, q);
      } else {
        SplitHash(Visible(a, IP_FALLBACK_KEEP), HashOf(a), r, Visible(b, IP_FALLBACK_KEEP), HashOf(b), q);
      }
    case (Remote(a, k), Remote(b, m)) =>
      SplitHash(Visible(a, k), HashOf(a), r, Visible(b, m), HashOf(b), q);
    case (Members(a), Members(b)) =>
      SplitHash(Decimal(|a|), SetHash(a), r, Decimal(|b|), SetHash(b), q);
      DecimalInjective(|a|, |b|);
  }

  /** The components behind the rule. */
  function Tail(comps: seq<Comp>): (t: string)
    ensures StartsWith(t, ':')
  {
    if comps == [] then ""
    else
      EncodingIs(comps[0]);
      Encoding(comps[0]) + Tail(comps[1..])
  }

  lemma {:induction false} TailConcat(cs: seq<Comp>, ds: seq<Comp>)
    ensures Tail(cs + ds) == Tail(cs) + Tail(ds)
  {
    hide Encoding;
    if cs == [] {
      assert [] + ds == ds && "" + Tail(ds) == Tail(ds);
    } else {
      TailConcat(cs[1..], ds);
      assert (cs + ds)[0] == cs[0] && (cs + ds)[1..] == cs[1..] + ds;
      Regroup("", Encoding(cs[0]), Tail(cs[1..]), Tail(ds));
    }
  }

  lemma TailOne(c: Comp)
    ensures Tail([c]) == Encoding(c)
  {
    assert [c][1..] == [] && Encoding(c) + "" == Encoding(c);
  }

  lemma {:induction false} KeyTextIsTail(rule: string, comps: seq<Comp>)
    ensures KeyText(rule, comps) == rule + Tail(comps)
  {
    hide Encoding;
    if comps == [] {
      assert rule + "" == rule;
    } else {
      var (f, c) := (comps[..|comps| - 1], comps[|comps| - 1]);
      KeyTextIsTail(rule, f);
      TailConcat(f, [c]);
      TailOne(c);
      assert f + [c] == comps;
      Regroup("", rule, Tail(f), Encoding(c));
      assert "" + rule == rule;
    }
  }

  // ----- When an address takes the fallback -----------------------------------

  /** The colons outside brackets. */
  function Outer(s: string, inside: bool): nat {
    if s == "" then 0
    else (if s[0] == ':' && !inside then 1 else 0) + Outer(s[1..], s[0] == '[' || (inside && s[0] != ']'))
  }

  lemma {:induction false} OuterConcat(a: string, r: string)
    requires Lacks(a, '[')
    ensures Outer(a + r, false) == Outer(a, false) + Outer(r, false)
  {
    if a == "" {
      assert "" + r == r;
    } else {
      OuterConcat(a[1..], r);
      assert (a + r)[1..] == a[1..] + r;
    }
  }

  lemma {:induction false} OuterNone(a: string)
    requires Lacks(a, ':') && Lacks(a, '[')
    ensures Outer(a, false) == 0
  {
    if a == "" {
    } else {
      OuterNone(a[1..]);
    }
  }

  lemma {:induction false} OuterLeaves(a: string, r: string)
    requires Lacks(a, ']')
    ensures Outer(a + ("]" + r), true) == Outer(r, false)
  {
    if a == "" {
      assert "" + ("]" + r) == "]" + r && ("]" + r)[1..] == r;
    } else {
      OuterLeaves(a[1..], r);
      assert (a + ("]" + r))[1..] == a[1..] + ("]" + r);
    }
  }

  lemma OuterPlain(a: string, r: string)
    requires Plain(a)
    ensures Outer(a + r, false) == Outer(r, false)
  {
    OuterConcat(a, r);
    OuterNone(a);
  }

  lemma OuterColon(r: string)
    ensures Outer(":" + r, false) == 1 + Outer(r, false)
  {
    assert (":" + r)[1..] == r;
  }

  /** How many a component's body brings: fixed by its type and form. */
  function Colons(c: Comp): nat {
    match c
    case Address(_) => 5
    case Remote(_, _) => 1
    case Members(_) => 1
    case Ip(ip) => if IpShaped(ip) then 0 else 1
    case _ => 0
  }

  lemma OuterMac(m: Mac, r: string)
    ensures Outer(MacText(m) + r, false) == 5 + Outer(r, false)
  {
    hide Hex, Outer;
    var t5 := Hex(m[5], 2) + r;
    var t4 := Hex(m[4], 2) + (":" + t5);
    var t3 := Hex(m[3], 2) + (":" + t4);
    var t2 := Hex(m[2], 2) + (":" + t3);
    var t1 := Hex(m[1], 2) + (":" + t2);
    assert MacText(m) + r == Hex(m[0], 2) + (":" + t1);
    OuterPlain(Hex(m[0], 2), ":" + t1);
    OuterColon(t1);
    OuterPlain(Hex(m[1], 2), ":" + t2);
    OuterColon(t2);
    OuterPlain(Hex(m[2], 2), ":" + t3);
    OuterColon(t3);
    OuterPlain(Hex(m[3], 2), ":" + t4);
    OuterColon(t4);
    OuterPlain(Hex(m[4], 2), ":" + t5);
    OuterColon(t5);
    OuterPlain(Hex(m[5], 2), r);
  }

  lemma OuterHashed(v: string, h: Fnv.U64, r: string)
    requires Plain(v)
    ensures Outer(v + ":" + Hex(h, 16) + r, false) == 1 + Outer(r, false)
  {
    hide Hex, Outer;
    assert v + ":" + Hex(h, 16) + r == v + (":" + (Hex(h, 16) + r));
    OuterPlain(v, ":" + (Hex(h, 16) + r));
    OuterColon(Hex(h, 16) + r);
    OuterPlain(Hex(h, 16), r);
  }

  lemma OuterIp(ip: CString, r: string)
    requires IpShaped(ip)
    ensures Outer(Body(Ip(ip)) + r, false) == Outer(r, false)
  {
    hide Body, IpShaped;
    IpFirst(ip, r);
    if Bracketed(ip) {
      Regroup("[", ip, "]", r);
      assert ("[" + (ip + ("]" + r)))[1..] == ip + ("]" + r);
      OuterLeaves(ip, r);
    } else {
      OuterPlain(ip, r);
    }
  }

  lemma OuterBody(c: Comp, r: string)
    requires Admissible(c)
    ensures Outer(Body(c) + r, false) == Colons(c) + Outer(r, false)
  {
    hide Decimal, Hex, HexBytes, Visible, MacText, HashOf, SetHash, Outer;
    match c
    case Address(mac) => OuterMac(mac, r);
    case Number(v) => OuterPlain(Decimal(v), r);
    case Token(tok) =>
      TokensLack(tok);
      OuterPlain(tok, r);
    case Raw(b) => OuterPlain(HexBytes(b), r);
    case Remote(s, keep) => OuterHashed(Visible(s, keep), HashOf(s), r);
    case Ip(ip) =>
      if IpShaped(ip) {
        OuterIp(ip, r);
      } else {
        OuterHashed(Visible(ip, IP_FALLBACK_KEEP), HashOf(ip), r);
      }
    case Members(items) => OuterHashed(Decimal(|items|), SetHash(items), r);
  }

  /** A key's tail, component by component. */
  lemma TailFirst(cs: seq<Comp>)
    requires cs != []
    ensures Tail(cs) == ":" + (Body(cs[0]) + Tail(cs[1..]))
  {
    hide Body, Encoding;
    EncodingIs(cs[0]);
    Regroup("", ":", Body(cs[0]), Tail(cs[1..]));
  }

  /** Keys of one schema and one form have equally many colons outside brackets. */
  lemma {:induction false} SameFormsSameOuter(cs: seq<Comp>, ds: seq<Comp>)
    requires SameSchema(cs, ds) && SameForms(cs, ds) && AllFit(cs) && AllFit(ds)
    ensures Outer(Tail(cs), false) == Outer(Tail(ds), false)
  {
    hide Tail, Body, Outer;
    if cs == [] {
    } else {
      SameFormsSameOuter(cs[1..], ds[1..]);
      OuterTail(cs);
      OuterTail(ds);
    }
  }

  lemma OuterTail(cs: seq<Comp>)
    requires cs != [] && AllFit(cs)
    ensures Outer(Tail(cs), false) == 1 + Colons(cs[0]) + Outer(Tail(cs[1..]), false)
  {
    hide Tail, Body, Outer, Colons, Admissible;
    TailFirst(cs);
    OuterColon(Body(cs[0]) + Tail(cs[1..]));
    OuterBody(cs[0], Tail(cs[1..]));
  }

  predicate AllFit(cs: seq<Comp>) { forall i :: 0 <= i < |cs| ==> Admissible(cs[i]) }

  /** The readable part of a fallback is never 16 digits, as a hash is: 16 digits have
      the shape of an address. */
  lemma VisibleIsNoHash(ip: CString, h: Fnv.U64)
    requires !IpShaped(ip)
    ensures Visible(ip, IP_FALLBACK_KEEP) != Hex(h, 16)
  {
    HexDigits(h, 16);
    if Visible(ip, IP_FALLBACK_KEEP) == Hex(h, 16) {
      forall i | 0 <= i < |ip| ensures IpChar(ip[i]) {
        assert Sanitised(ip)[i] == Hex(h, 16)[i];
      }
      assert false;
    }
  }

  lemma {:induction false} HexDigits(v: nat, n: nat)
    ensures forall i :: 0 <= i < n ==> '0' <= Hex(v, n)[i] <= '9' || 'a' <= Hex(v, n)[i] <= 'f'
  {
    if n == 0 {
    } else {
      HexDigits(v / 16, n - 1);
      DigitIs(v % 16);
    }
  }

  lemma DigitIs(d: nat)
    requires d < 16
    ensures '0' <= Digit(d) <= '9' || 'a' <= Digit(d) <= 'f'
  {
  }

  lemma CrossedText(p: string, u: string, r: string, v: string, h: string, q: string)
    requires Lacks(p, ':') && Lacks(u, ':') && Lacks(v, ':') && Lacks(h, ':')
    requires StartsWith(r, ':') && StartsWith(q, ':')
    requires p + (":" + (u + r)) == v + (":" + (h + q))
    ensures u == h
  {
    SplitAt(':', p, ":" + (u + r), v, ":" + (h + q));
    SplitLength(":", u + r, ":", h + q);
    SplitAt(':', u, r, h, q);
  }

  lemma FallbackBody(ip: CString, r: string)
    requires !IpShaped(ip)
    ensures Body(Ip(ip)) + r == Visible(ip, IP_FALLBACK_KEEP) + (":" + (Hex(HashOf(ip), 16) + r))
  {
    hide Hex, HashOf, Visible, IpShaped;
    var (v, h) := (Visible(ip, IP_FALLBACK_KEEP), Hex(HashOf(ip), 16));
    assert v + ":" + h + r == v + (":" + (h + r));
  }

  /** An address before a fallback never reads as a fallback before anything. */
  lemma CrossedForms(a: CString, b: CString, r: string, x: CString, q: string)
    requires IpShaped(a) && !IpShaped(b) && !IpShaped(x) && StartsWith(q, ':')
    ensures Body(Ip(a)) + (":" + (Body(Ip(b)) + r)) != Body(Ip(x)) + q
  {
    hide Hex, HashOf, Visible, IpShaped, Body, Bracketed;
    var (u, h, v) := (Visible(b, IP_FALLBACK_KEEP), Hex(HashOf(x), 16), Visible(x, IP_FALLBACK_KEEP));
    var after := ":" + (Hex(HashOf(b), 16) + r);
    FallbackBody(b, r);
    FallbackBody(x, q);
    IpFirst(a, ":" + (u + after));
    FirstOf(v, h + q);
    VisibleIsNoHash(b, HashOf(x));
    if Body(Ip(a)) + (":" + (u + after)) == v + (":" + (h + q)) {
      CrossedText(a, u, after, v, h, q);
    }
  }

  lemma FirstOf(v: string, r: string)
    requires Plain(v)
    ensures (v + (":" + r))[0] != '['
  {
  }

  /** An address whose fallback passes, in its readable part, for another address. */
  predicate Forgeable(ip: CString) { !IpShaped(ip) && IpShaped(Visible(ip, IP_FALLBACK_KEEP)) }

  /** Those are the strings that are no address but begin with 24 octets of one without
      colons, and go on. */
  lemma ForgeableIff(ip: CString)
    ensures Forgeable(ip) <==>
            !IpShaped(ip) && |ip| > IP_FALLBACK_KEEP && forall i :: 0 <= i < IP_FALLBACK_KEEP ==> IpChar(ip[i]) && ip[i] != ':'
  {
    var v := Visible(ip, IP_FALLBACK_KEEP);
    assert |v| == Min(|ip|, IP_FALLBACK_KEEP);
    forall i | 0 <= i < |v| ensures IpChar(v[i]) <==> IpChar(ip[i]) && ip[i] != ':' {
      assert v[i] == if Keeps(ip[i]) then ip[i] else '_';
    }
  }

  /** Components that never begin as a hash does: at most 10 digits, or a colon behind
      the second octet. */
  predicate Shields(c: Comp) { c.Address? || c.Number? || c.Members? }

  lemma ShieldIsNoHash(c: Comp, r: string, h: Fnv.U64, q: string)
    requires Shields(c) && Admissible(c) && StartsWith(r, ':') && StartsWith(q, ':')
    ensures Body(c) + r != Hex(h, 16) + q
  {
    hide Decimal, Hex, SetHash, MacText;
    match c
    case Address(mac) => MacIsNoHash(mac, r, h, q);
    case Number(v) =>
      ComponentSizes(c);
      EncodingIs(c);
      ShortIsNoHash(Decimal(v), r, h, q);
    case Members(items) =>
      DecimalSize(|items|, 2, 100);
      var t := ":" + (Hex(SetHash(items), 16) + r);
      Regroup(Decimal(|items|), ":", Hex(SetHash(items), 16), r);
      ShortIsNoHash(Decimal(|items|), t, h, q);
  }

  lemma ShortIsNoHash(d: string, r: string, h: Fnv.U64, q: string)
    requires Plain(d) && |d| < 16 && StartsWith(r, ':') && StartsWith(q, ':')
    ensures d + r != Hex(h, 16) + q
  {
    hide Hex;
    if d + r == Hex(h, 16) + q {
      SplitAt(':', d, r, Hex(h, 16), q);
    }
  }

  lemma MacIsNoHash(mac: Mac, r: string, h: Fnv.U64, q: string)
    ensures MacText(mac) + r != Hex(h, 16) + q
  {
    hide Hex;
    assert (MacText(mac) + r)[2] == MacText(mac)[2] == ':';
    assert (Hex(h, 16) + q)[2] == Hex(h, 16)[2] != ':';
  }

  /** Every address that could forge a boundary is the last component, or stands before
      one that is no hash. */
  predicate Guarded(cs: seq<Comp>) {
    forall i :: 0 <= i < |cs| && cs[i].Ip? && Forgeable(cs[i].ip) ==> i + 1 == |cs| || Shields(cs[i + 1])
  }

  /** Where the first addresses of two tails differ in form, and at most the next
      component is another address, the tails differ. */
  lemma MixedNeverAgree(cs: seq<Comp>, ds: seq<Comp>)
    requires SameSchema(cs, ds) && AllFit(cs) && AllFit(ds)
    requires cs != [] && cs[0].Ip? && IpShaped(cs[0].ip) && !IpShaped(ds[0].ip)
    requires forall i :: 2 <= i < |cs| ==> !cs[i].Ip?
    ensures Tail(cs) != Tail(ds)
  {
    hide Tail, Body, Outer, IpShaped, Admissible;
    var (c, d) := (cs[1..], ds[1..]);
    OuterTail(cs);
    OuterTail(ds);
    if c != [] && c[0].Ip? && !SameForm(c[0], d[0]) {
      OuterTail(c);
      OuterTail(d);
      SameFormsSameOuter(c[1..], d[1..]);
      if Tail(cs) == Tail(ds) {
        TailFirst(cs);
        TailFirst(ds);
        TailFirst(c);
        TailFirst(d);
        CrossedForms(cs[0].ip, c[0].ip, Tail(c[1..]), ds[0].ip, Tail(d));
        SplitLength(":", Body(cs[0]) + Tail(c), ":", Body(ds[0]) + Tail(d));
      }
    } else {
      SameFormsSameOuter(c, d);
    }
  }

  /** An address reads as a fallback only as its readable part, with the hash after. */
  lemma MixedFirst(a: CString, r: string, x: CString, q: string)
    requires IpShaped(a) && !IpShaped(x) && StartsWith(r, ':')
    requires Body(Ip(a)) + r == Body(Ip(x)) + q
    ensures Forgeable(x) && r == ":" + (Hex(HashOf(x), 16) + q)
  {
    hide Hex, HashOf, Visible, IpShaped, Body, Bracketed;
    var (v, t) := (Visible(x, IP_FALLBACK_KEEP), Hex(HashOf(x), 16) + q);
    FallbackBody(x, q);
    IpFirst(a, r);
    FirstOf(v, t);
    SplitAt(':', a, r, v, ":" + t);
  }

  /** So where first addresses differ in form, a guard keeps the tails apart. */
  lemma GuardedNeverAgree(cs: seq<Comp>, ds: seq<Comp>)
    requires SameSchema(cs, ds) && AllFit(cs) && Guarded(ds)
    requires cs != [] && cs[0].Ip? && IpShaped(cs[0].ip) && !IpShaped(ds[0].ip)
    ensures Tail(cs) != Tail(ds)
  {
    hide Tail, Body, IpShaped, Admissible, Hex, HashOf, Forgeable;
    TailFirst(cs);
    TailFirst(ds);
    var (x, r, q) := (ds[0].ip, Tail(cs[1..]), Tail(ds[1..]));
    if Tail(cs) == Tail(ds) {
      SplitLength(":", Body(cs[0]) + r, ":", Body(ds[0]) + q);
      MixedFirst(cs[0].ip, r, x, q);
      TailNone();
      assert cs[1..] != [];
      TailFirst(cs[1..]);
      var rest := Tail(cs[1..][1..]);
      SplitLength(":", Body(cs[1]) + rest, ":", Hex(HashOf(x), 16) + q);
      ShieldIsNoHash(cs[1], rest, HashOf(x), q);
    }
  }

  lemma TailNone()
    ensures Tail([]) == ""
  {
  }

  lemma FirstFormsAgree(cs: seq<Comp>, ds: seq<Comp>)
    requires SameSchema(cs, ds) && Tail(cs) == Tail(ds) && AllFit(cs) && AllFit(ds) && cs != []
    requires SameForms(cs, ds) || AddressesAdjacent(cs) || (Guarded(cs) && Guarded(ds))
    ensures SameForm(cs[0], ds[0])
  {
    hide Tail, IpShaped, Admissible, Guarded;
    if !SameForm(cs[0], ds[0]) {
      if AddressesAdjacent(cs) {
        assert forall i :: 2 <= i < |cs| ==> !cs[i].Ip? && !ds[i].Ip?;
        if IpShaped(cs[0].ip) { MixedNeverAgree(cs, ds); } else { MixedNeverAgree(ds, cs); }
      } else {
        if IpShaped(cs[0].ip) { GuardedNeverAgree(cs, ds); } else { GuardedNeverAgree(ds, cs); }
      }
    }
  }

  lemma RestStaysGuarded(cs: seq<Comp>)
    requires cs != []
    ensures Guarded(cs) ==> Guarded(cs[1..])
  {
    hide Forgeable;
    assert forall i :: 0 <= i < |cs| - 1 ==> cs[1..][i] == cs[i + 1];
  }

  /** Equal tails of one schema agree in form and value, component by component. */
  lemma {:induction false} DecodeTail(cs: seq<Comp>, ds: seq<Comp>)
    requires SameSchema(cs, ds) && Tail(cs) == Tail(ds) && AllFit(cs) && AllFit(ds)
    requires SameForms(cs, ds) || AddressesAdjacent(cs) || (Guarded(cs) && Guarded(ds))
    ensures forall i :: 0 <= i < |cs| ==> SameIdentity(cs[i], ds[i])
  {
    hide SameIdentity, SameForm, Body, Tail, Admissible, Guarded;
    if cs == [] {
    } else {
      FirstFormsAgree(cs, ds);
      TailFirst(cs);
      TailFirst(ds);
      var (r, q) := (Tail(cs[1..]), Tail(ds[1..]));
      SplitLength(":", Body(cs[0]) + r, ":", Body(ds[0]) + q);
      DecodeFirst(cs[0], r, ds[0], q);
      RestStaysGuarded(cs);
      RestStaysGuarded(ds);
      DecodeTail(cs[1..], ds[1..]);
      assert forall i :: 0 < i < |cs| ==> cs[i] == cs[1..][i - 1] && ds[i] == ds[1..][i - 1];
    }
  }

  // ----- No two findings merge ----------------------------------------------

  /** Keys of different rules never collide, whatever their components. */
  lemma RulesNeverCollide(n: nat, m: nat, r: string, s: string, cs: seq<Comp>, ds: seq<Comp>)
    requires Finish(Build(n, r, cs)) == Finish(Build(m, s, ds)) != ""
    ensures r == s && Tail(cs) == Tail(ds)
  {
    KeyIsExact(n, r, cs);
    KeyIsExact(m, s, ds);
    KeyTextIsTail(r, cs);
    KeyTextIsTail(s, ds);
    TokensLack(r);
    TokensLack(s);
    SplitAt(':', r, Tail(cs), s, Tail(ds));
  }

  lemma SameIdentitySameEncoding(c: Comp, d: Comp)
    requires SameIdentity(c, d) && SameType(c, d)
    ensures Encoding(c) == Encoding(d)
  {
    EncodingIs(c);
    EncodingIs(d);
  }

  lemma {:induction false} SameIdentitySameTail(cs: seq<Comp>, ds: seq<Comp>)
    requires SameSchema(cs, ds) && forall i :: 0 <= i < |cs| ==> SameIdentity(cs[i], ds[i])
    ensures Tail(cs) == Tail(ds)
  {
    hide SameIdentity, SameType, Encoding;
    if cs == [] {
    } else {
      SameIdentitySameEncoding(cs[0], ds[0]);
      SameIdentitySameTail(cs[1..], ds[1..]);
    }
  }

  /** Unique decodability: two keys built to one schema are the same key if and only
      if the rule and every value agree, remote strings, sets and addresses that take
      the fallback by readable part and hash. It holds while no address is forgeable, or
      each that is stands last or before a number, an address or a set; also where the
      addresses of the schema stand together, or take the same form in both keys. */
  lemma KeysDecodeUniquely(n: nat, m: nat, r: string, s: string, cs: seq<Comp>, ds: seq<Comp>)
    requires SameSchema(cs, ds)
    requires (Guarded(cs) && Guarded(ds)) || AddressesAdjacent(cs) || SameForms(cs, ds)
    requires Finish(Build(n, r, cs)) != "" && Finish(Build(m, s, ds)) != ""
    ensures Finish(Build(n, r, cs)) == Finish(Build(m, s, ds)) <==>
            r == s && forall i :: 0 <= i < |cs| ==> SameIdentity(cs[i], ds[i])
  {
    hide SameIdentity, SameType, Build, Finish, KeyText, Tail, Guarded;
    KeyIsExact(n, r, cs);
    KeyIsExact(m, s, ds);
    if Finish(Build(n, r, cs)) == Finish(Build(m, s, ds)) {
      RulesNeverCollide(n, m, r, s, cs, ds);
      DecodeTail(cs, ds);
    }
    if r == s && forall i :: 0 <= i < |cs| ==> SameIdentity(cs[i], ds[i]) {
      SameIdentitySameTail(cs, ds);
      KeyTextIsTail(r, cs);
      KeyTextIsTail(s, ds);
    }
  }

  function HashText(s: CString): (t: CString)
    ensures |t| == 16 && Plain(t) && TokOk(t) && IpShaped(t)
  {
    HexDigits(HashOf(s), 16);
    Hex(HashOf(s), 16)
  }

  /** Two findings that differ in every component, built around a forgeable address. */
  function Honest(x: CString): seq<Comp> { [Ip(Visible(x, IP_FALLBACK_KEEP)), Token(HashText(x)), Ip("z")] }

  function Forged(x: CString): seq<Comp> { [Ip(x), Token("z"), Ip(HashText("z"))] }

  /** With a token between two addresses every forgeable address forges a boundary: the
      two findings share a key. */
  lemma FallbackForgesBoundary(x: CString)
    requires Forgeable(x)
    ensures SameSchema(Honest(x), Forged(x)) && forall i :: 0 <= i < 3 ==> !SameIdentity(Honest(x)[i], Forged(x)[i])
    ensures Finish(Build(192, "rule", Honest(x))) == Finish(Build(192, "rule", Forged(x))) != ""
  {
    hide HashText, Visible, Build, Finish, Tail;
    TailsMeet(x);
    SameTailSameKey(192, "rule", Honest(x), Forged(x));
  }

  /** Keys of one schema and rule that merge two findings, with no forgeable address
      but possibly x. */
  ghost predicate Merges(x: CString, n: nat, r: string, cs: seq<Comp>, ds: seq<Comp>) {
    && SameSchema(cs, ds) && Finish(Build(n, r, cs)) == Finish(Build(n, r, ds)) != ""
    && (exists i :: 0 <= i < |cs| && !SameIdentity(cs[i], ds[i]))
    && forall c :: c in cs + ds && c.Ip? && Forgeable(c.ip) ==> c.ip == x
  }

  lemma MergeNeedsForgeable(x: CString, n: nat, r: string, cs: seq<Comp>, ds: seq<Comp>)
    requires Merges(x, n, r, cs, ds)
    ensures Forgeable(x)
  {
    hide Forgeable, SameIdentity, SameType, Build, Finish, Guarded;
    if !Forgeable(x) {
      NoneIsGuarded(cs, cs + ds);
      NoneIsGuarded(ds, cs + ds);
      KeysDecodeUniquely(n, n, r, r, cs, ds);
    }
  }

  /** So the boundaries can be forged exactly by the forgeable addresses. */
  lemma ForgesIff(x: CString)
    ensures Forgeable(x) <==> exists n, r, cs, ds :: Merges(x, n, r, cs, ds)
  {
    hide Merges, Honest, Forged, Forgeable;
    if Forgeable(x) { ForgedMerge(x); }
    if n, r, cs, ds :| Merges(x, n, r, cs, ds) { MergeNeedsForgeable(x, n, r, cs, ds); }
  }

  lemma ForgedMerge(x: CString)
    requires Forgeable(x)
    ensures Merges(x, 192, "rule", Honest(x), Forged(x))
  {
    hide Forgeable, SameIdentity, SameType, Build, Finish;
    FallbackForgesBoundary(x);
    OnlyOneForges(x);
  }

  lemma NoneIsGuarded(cs: seq<Comp>, all: seq<Comp>)
    requires forall i :: 0 <= i < |cs| ==> cs[i] in all
    requires forall c :: c in all && c.Ip? ==> !Forgeable(c.ip)
    ensures Guarded(cs)
  {
  }

  lemma OnlyOneForges(x: CString)
    requires Forgeable(x)
    ensures forall c :: c in Honest(x) + Forged(x) && c.Ip? && Forgeable(c.ip) ==> c.ip == x
  {
    hide HashText, Visible;
    ForgeableIff("z");
  }

  /** One digit too many for an address. */
  lemma OverlongIsForgeable(x: CString)
    requires |x| == 46 && forall i :: 0 <= i < 46 ==> x[i] == '1'
    ensures Forgeable(x)
  {
    ForgeableIff(x);
  }

  /** Keys of one rule and equal tails are one key, if they fit. */
  lemma SameTailSameKey(n: nat, r: string, cs: seq<Comp>, ds: seq<Comp>)
    requires TokOk(r) && AllFit(cs) && AllFit(ds) && Tail(cs) == Tail(ds)
    requires |r| + |Tail(cs)| < n
    ensures Finish(Build(n, r, cs)) == Finish(Build(n, r, ds)) != ""
  {
    hide Tail, Build, Finish, KeyText, Admissible;
    KeyIsExact(n, r, cs);
    KeyIsExact(n, r, ds);
    KeyTextIsTail(r, cs);
    KeyTextIsTail(r, ds);
  }

  lemma TailsMeet(x: CString)
    requires Forgeable(x)
    ensures Tail(Honest(x)) == Tail(Forged(x)) && |Tail(Forged(x))| <= 61
  {
    hide HashText, Visible, Body, Tail;
    var (p, h, z) := (Visible(x, IP_FALLBACK_KEEP), HashText(x), HashText("z"));
    ForgedBodies(x);
    ThreeTail(Ip(p), Token(h), Ip("z"));
    ThreeTail(Ip(x), Token("z"), Ip(z));
    Regroup4(":", p, ":", h);
    assert ":" + p + ":" + h + ":" + ("z:" + z) == ":" + p + ":" + h + ":" + "z" + ":" + z;
  }

  lemma Regroup4(a: string, b: string, c: string, d: string)
    ensures a + (b + c + d) == a + b + c + d
  {
  }

  lemma ForgedBodies(x: CString)
    requires Forgeable(x)
    ensures var (p, h, z) := (Visible(x, IP_FALLBACK_KEEP), HashText(x), HashText("z"));
            && Body(Ip(p)) == p && Body(Token(h)) == h && Body(Ip("z")) == "z:" + z
            && Body(Ip(x)) == p + ":" + h && Body(Token("z")) == "z" && Body(Ip(z)) == z
  {
    hide Hex, HashOf;
    assert Visible("z", IP_FALLBACK_KEEP) == "z";
    assert "z" + ":" == "z:";
  }

  lemma ThreeTail(c: Comp, d: Comp, e: Comp)
    ensures Tail([c, d, e]) == ":" + Body(c) + ":" + Body(d) + ":" + Body(e)
  {
    hide Tail, Body, Encoding;
    TailOne(e);
    TailConcat([c, d], [e]);
    TailOne(d);
    TailConcat([c], [d]);
    TailOne(c);
    assert [c, d, e] == [c, d] + [e] && [c, d] == [c] + [d];
    EncodingIs(c);
    EncodingIs(d);
    EncodingIs(e);
    assert ":" + Body(c) + (":" + Body(d)) == ":" + Body(c) + ":" + Body(d);
    assert ":" + Body(c) + ":" + Body(d) + (":" + Body(e)) == ":" + Body(c) + ":" + Body(d) + ":" + Body(e);
  }

  ghost predicate OneByteApart(s: CString, t: CString, i: nat) {
    |s| == |t| && i < |s| && s[i] != t[i] && forall j :: 0 <= j < |s| && j != i ==> s[j] == t[j]
  }

  lemma HashesDiffer(s: CString, t: CString, i: nat)
    requires OneByteApart(s, t, i)
    ensures HashOf(s) != HashOf(t)
  {
    var (x, y) := (Octets(s), Octets(t));
    assert x[..i] == y[..i] && x[i + 1..] == y[i + 1..];
    Fnv.OneByteApart(x, y, i, Fnv.OFFSET);
  }

  /** What follows a component in a key: its separator and body, then the rest. */
  lemma TailAround(pre: seq<Comp>, c: Comp, post: seq<Comp>)
    ensures Tail(pre + [c] + post) == Tail(pre) + (":" + (Body(c) + Tail(post)))
  {
    hide Encoding, Body;
    TailConcat(pre + [c], post);
    TailConcat(pre, [c]);
    TailOne(c);
    EncodingIs(c);
    Regroup("", Tail(pre), Encoding(c), Tail(post));
    assert "" + Tail(pre) == Tail(pre);
    assert ":" + Body(c) + Tail(post) == ":" + (Body(c) + Tail(post));
  }

  /** So behind a common prefix two components of one type show their identity. */
  lemma DecodeBehind(pre: seq<Comp>, c: Comp, post: seq<Comp>, d: Comp, rest: seq<Comp>)
    requires SameType(c, d) && SameForm(c, d) && Admissible(c) && Admissible(d)
    requires Tail(pre + [c] + post) == Tail(pre + [d] + rest)
    ensures SameIdentity(c, d) && Tail(post) == Tail(rest)
  {
    hide SameType, SameIdentity, Admissible, Encoding, Body, Tail;
    TailAround(pre, c, post);
    TailAround(pre, d, rest);
    SplitLength(Tail(pre), ":" + (Body(c) + Tail(post)), Tail(pre), ":" + (Body(d) + Tail(rest)));
    SplitLength(":", Body(c) + Tail(post), ":", Body(d) + Tail(rest));
    DecodeFirst(c, Tail(post), d, Tail(rest));
  }

  lemma FitsInside(n: nat, r: string, pre: seq<Comp>, c: Comp, post: seq<Comp>)
    requires Finish(Build(n, r, pre + [c] + post)) != ""
    ensures Admissible(c)
  {
    hide Build, Finish, Admissible;
    KeyIsExact(n, r, pre + [c] + post);
    assert (pre + [c] + post)[|pre|] == c;
  }

  /** The first component in which two keys differ separates them, schemas aside: if it
      is of one type and form in both, nothing behind it can make them one key. */
  lemma FirstDifferenceSeparates(n: nat, m: nat, r: string, q: string, pre: seq<Comp>,
                                 c: Comp, post: seq<Comp>, d: Comp, rest: seq<Comp>)
    requires SameType(c, d) && SameForm(c, d) && !SameIdentity(c, d)
    ensures var j := Finish(Build(n, r, pre + [c] + post));
            j != "" ==> j != Finish(Build(m, q, pre + [d] + rest))
  {
    hide Build, Finish, Tail, SameType, SameForm, SameIdentity, Admissible;
    if Finish(Build(n, r, pre + [c] + post)) == Finish(Build(m, q, pre + [d] + rest)) != "" {
      FitsInside(n, r, pre, c, post);
      FitsInside(m, q, pre, d, rest);
      RulesNeverCollide(n, m, r, q, pre + [c] + post, pre + [d] + rest);
      DecodeBehind(pre, c, post, d, rest);
    }
  }

  /** So a token keeps apart the schemas a rule chooses between. */
  lemma TokensSeparate(n: nat, m: nat, r: string, q: string, pre: seq<Comp>,
                       a: CString, post: seq<Comp>, b: CString, rest: seq<Comp>)
    requires a != b
    ensures var j := Finish(Build(n, r, pre + [Token(a)] + post));
            j != "" ==> j != Finish(Build(m, q, pre + [Token(b)] + rest))
  {
    hide Build, Finish;
    FirstDifferenceSeparates(n, m, r, q, pre, Token(a), post, Token(b), rest);
  }

  /** And a token that does not spell a number keeps apart the key with the number. */
  lemma NumberIsNoToken(n: nat, m: nat, r: string, q: string, pre: seq<Comp>,
                        v: U32, post: seq<Comp>, t: CString, rest: seq<Comp>)
    requires exists i :: 0 <= i < |t| && !('0' <= t[i] <= '9')
    ensures var j := Finish(Build(n, r, pre + [Number(v)] + post));
            j != "" ==> j != Finish(Build(m, q, pre + [Token(t)] + rest))
  {
    hide Build, Finish, Tail, Decimal;
    var (c, d) := (Number(v), Token(t));
    if Finish(Build(n, r, pre + [c] + post)) == Finish(Build(m, q, pre + [d] + rest)) != "" {
      FitsInside(m, q, pre, d, rest);
      RulesNeverCollide(n, m, r, q, pre + [c] + post, pre + [d] + rest);
      TailAround(pre, c, post);
      TailAround(pre, d, rest);
      SplitLength(Tail(pre), ":" + (Body(c) + Tail(post)), Tail(pre), ":" + (Body(d) + Tail(rest)));
      SplitLength(":", Body(c) + Tail(post), ":", Body(d) + Tail(rest));
      TokensLack(t);
      SplitAt(':', Decimal(v), Tail(post), t, Tail(rest));
      DecimalDigits(v);
    }
  }

  lemma {:induction false} DecimalDigits(v: nat)
    ensures forall i :: 0 <= i < |Decimal(v)| ==> '0' <= Decimal(v)[i] <= '9'
  {
    if v < 10 {
      OneDigit(v);
    } else {
      DecimalDigits(v / 10);
      OneDigit(v % 10);
    }
  }

  lemma OneDigit(d: nat)
    requires d < 10
    ensures '0' <= Digit(d) <= '9'
  {
  }

  /** Two remote strings of one length that differ in a single octet, even past the
      readable part, never merge: in any position of any two keys that agree before
      it, whatever follows. */
  lemma RemotesNeverMerge(n: nat, m: nat, r: string, q: string, pre: seq<Comp>,
                          s: CString, t: CString, keep: nat, kept: nat, post: seq<Comp>, rest: seq<Comp>, i: nat)
    requires OneByteApart(s, t, i)
    ensures var j := Finish(Build(n, r, pre + [Remote(s, keep)] + post));
            var k := Finish(Build(m, q, pre + [Remote(t, kept)] + rest));
            j != "" ==> j != k
  {
    hide Build, Finish, HashOf, Visible;
    HashesDiffer(s, t, i);
    FirstDifferenceSeparates(n, m, r, q, pre, Remote(s, keep), post, Remote(t, kept), rest);
  }

  // ----- Sets ---------------------------------------------------------------

  lemma {:induction false} StreamConcat(a: seq<CString>, b: seq<CString>)
    ensures Stream(a + b) == Stream(a) + Stream(b)
  {
    if b == [] {
      assert a + b == a && Stream(a) + [] == Stream(a);
    } else {
      var (f, s) := (b[..|b| - 1], b[|b| - 1]);
      StreamConcat(a, f);
      assert (a + b)[..|a + b| - 1] == a + f;
      assert Stream(a) + Stream(f) + Octets(s) + [0] == Stream(a) + (Stream(f) + Octets(s) + [0]);
    }
  }

  /** What a set's hash is taken over, around one member. */
  lemma StreamAround(pre: seq<CString>, s: CString, post: seq<CString>)
    ensures Stream(pre + [s] + post) == Stream(pre) + (Octets(s) + ([0] + Stream(post)))
  {
    StreamConcat(pre + [s], post);
    assert (pre + [s])[..|pre|] == pre;
    assert Stream(pre) + Octets(s) + [0] + Stream(post) == Stream(pre) + (Octets(s) + ([0] + Stream(post)));
  }

  lemma OneOctetInside(pre: seq<Byte>, x: seq<Byte>, y: seq<Byte>, post: seq<Byte>, i: nat)
    requires |x| == |y| && i < |x| && x[i] != y[i] && forall j :: 0 <= j < |x| && j != i ==> x[j] == y[j]
    ensures Fnv.Hash(pre + (x + post), Fnv.OFFSET) != Fnv.Hash(pre + (y + post), Fnv.OFFSET)
  {
    hide Fnv.Hash;
    var (u, v, k) := (pre + (x + post), pre + (y + post), |pre| + i);
    assert u[k] == x[i] && v[k] == y[i];
    assert u[..k] == pre + x[..i] && v[..k] == pre + y[..i] && x[..i] == y[..i];
    assert u[k + 1..] == x[i + 1..] + post && v[k + 1..] == y[i + 1..] + post && x[i + 1..] == y[i + 1..];
    Fnv.OneByteApart(u, v, k, Fnv.OFFSET);
  }

  /** Sets that agree in their sorted members, but for one octet of one of them at any
      place, have different hashes. */
  lemma SetHashesDiffer(a: seq<CString>, b: seq<CString>, pre: seq<CString>, s: CString, t: CString, post: seq<CString>, i: nat)
    requires Canonical(a) == pre + [s] + post && Canonical(b) == pre + [t] + post && OneByteApart(s, t, i)
    ensures SetHash(a) != SetHash(b)
  {
    hide Canonical, Stream, Fnv.Hash;
    StreamAround(pre, s, post);
    StreamAround(pre, t, post);
    assert forall j :: 0 <= j < |s| ==> Octets(s)[j] == s[j] as int && Octets(t)[j] == t[j] as int;
    OneOctetInside(Stream(pre), Octets(s), Octets(t), [0] + Stream(post), i);
  }

  /** So, as remote strings do, they make different components and never one key, behind
      any common components and whatever follows. */
  lemma SetsNeverMerge(n: nat, m: nat, r: string, q: string, front: seq<Comp>, a: seq<CString>, b: seq<CString>,
                       back: seq<Comp>, rest: seq<Comp>, pre: seq<CString>, s: CString, t: CString, post: seq<CString>, i: nat)
    requires Canonical(a) == pre + [s] + post && Canonical(b) == pre + [t] + post && OneByteApart(s, t, i)
    ensures Encoding(Members(a)) != Encoding(Members(b))
    ensures var j := Finish(Build(n, r, front + [Members(a)] + back));
            j != "" ==> j != Finish(Build(m, q, front + [Members(b)] + rest))
  {
    hide Build, Finish, Canonical, SetHash, Encoding;
    SetHashesDiffer(a, b, pre, s, t, post, i);
    FirstDifferenceSeparates(n, m, r, q, front, Members(a), back, Members(b), rest);
    SetEncodingsDiffer(a, b);
  }

  lemma SetEncodingsDiffer(a: seq<CString>, b: seq<CString>)
    requires SetHash(a) != SetHash(b)
    ensures Encoding(Members(a)) != Encoding(Members(b))
  {
    hide SetHash, Decimal, Hex, Encoding;
    EncodingIs(Members(a));
    EncodingIs(Members(b));
    if Encoding(Members(a)) == Encoding(Members(b)) {
      var (x, y) := (Body(Members(a)), Body(Members(b)));
      SplitLength(":", x, ":", y);
      assert x == x + "" && y == y + "";
      SplitHash(Decimal(|a|), SetHash(a), "", Decimal(|b|), SetHash(b), "");
    }
  }
}
