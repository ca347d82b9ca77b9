/** WNM BSS Transition Management Requests: what the parser reads, and the printer
    it inverts. */
module BtmRequest {
  import opened Wrappers
  import opened Seqs
  import opened Dot11

  const ACT_BTM_REQUEST: Byte := 7
  const MAX_CANDIDATES: nat := 8
  const ELEM_NEIGHBOR_REPORT: Byte := 52
  const NEIGHBOR_MIN_LEN: nat := 13
  const TERM_DURATION_LEN: nat := 12

  /** Request Mode bits B2, B3 and B4. */
  predicate IsImminent(mode: Byte) { mode / 4 % 2 == 1 }
  predicate HasTermination(mode: Byte) { mode / 8 % 2 == 1 }
  predicate HasUrl(mode: Byte) { mode / 16 % 2 == 1 }

  datatype Request = Request(bssid: Mac, sta: Mac, token: Byte, mode: Byte, timer: nat, validity: Byte,
                             candidates: seq<Mac>, truncated: bool, eventId: nat)

  predicate IsNeighbor(e: Elem) { e.tag == ELEM_NEIGHBOR_REPORT && |e.body| >= NEIGHBOR_MIN_LEN }

  /** The BSSIDs of the Neighbor Reports long enough to carry one (section 9.4.2.36). */
  function Neighbors(es: seq<Elem>): seq<Mac> {
    if es == [] then []
    else Neighbors(es[..|es| - 1]) + if IsNeighbor(es[|es| - 1]) then [es[|es| - 1].body[..6]] else []
  }

  function Take(s: seq<Mac>, n: nat): seq<Mac> { if |s| <= n then s else s[..n] }

  function Le16(lo: Byte, hi: Byte): nat { lo as int + 256 * hi as int }

  /** What is left behind an optional 12-octet termination duration, and behind an
      optional length-prefixed URL; None where the field overruns. */
  function AfterTerm(mode: Byte, b: seq<Byte>): Option<seq<Byte>> {
    if !HasTermination(mode) then Some(b)
    else if |b| < TERM_DURATION_LEN then None
    else Some(b[TERM_DURATION_LEN..])
  }

  function AfterUrl(mode: Byte, b: seq<Byte>): Option<seq<Byte>> {
    if !HasUrl(mode) then Some(b)
    else if |b| < 1 || |b| - 1 < b[0] then None
    else Some(b[1 + b[0] as int..])
  }

  function AfterOptional(mode: Byte, b: seq<Byte>): Option<seq<Byte>> {
    match AfterTerm(mode, b)
    case Some(c) => AfterUrl(mode, c)
    case None => None
  }

  /** `btm_req_frame`. */
  function Parse(f: Frame): Option<Request> {
    match CategoryOf(f)
    case Readable(cat, action) =>
      if cat != CAT_WNM || action != ACT_BTM_REQUEST then None
      else
        var b := f.p[f.HdrLen() + 2..];
        if |b| < 5 then None
        else
          var region := AfterOptional(b[1], b[5..]);
          if region.None? then None
          else
            var found := Neighbors(Elements(region.value));
            Some(Request(f.Bssid(), f.Da(), b[0], b[1], Le16(b[2], b[3]), b[4],
                         Take(found, MAX_CANDIDATES), |found| > MAX_CANDIDATES, f.eventId))
    case _ => None
  }

  /** The parser as written: one offset moving through the frame. */
  method ParseFrame(f: Frame) returns (r: Option<Request>)
    ensures r == Parse(f)
  {
    hide Elements, Neighbors, AfterOptional;
    var c := CategoryOf(f);
    if !c.Readable? || c.cat != CAT_WNM || c.action != ACT_BTM_REQUEST { return None; }
    var (p, len, hdr) := (f.p, |f.p|, f.HdrLen());
    var off := hdr + 2;
    ghost var b := p[off..];
    if off + 5 > len { return None; }
    var token, mode, timer, validity := p[off], p[off + 1], Le16(p[off + 2], p[off + 3]), p[off + 4];
    off := off + 5;
    assert p[off..] == b[5..];
    var next := SkipOptional(p, off, mode);
    if next.None? { return None; }
    off := next.value;
    var candidates, truncated := WalkCandidates(p[off..]);
    r := Some(Request(f.Bssid(), f.Da(), token, mode, timer, validity, candidates, truncated, f.eventId));
  }

  method SkipOptional(p: seq<Byte>, start: nat, mode: Byte) returns (next: Option<nat>)
    requires start <= |p|
    ensures next.None? ==> AfterOptional(mode, p[start..]).None?
    ensures next.Some? ==> next.value <= |p| && AfterOptional(mode, p[start..]) == Some(p[next.value..])
  {
    var off := start;
    if HasTermination(mode) {
      if off + TERM_DURATION_LEN > |p| { return None; }
      off := off + TERM_DURATION_LEN;
    }
    assert AfterTerm(mode, p[start..]) == Some(p[off..]);
    if HasUrl(mode) {
      if off + 1 > |p| { return None; }
      var urlLen: nat := p[off];
      off := off + 1;
      if off + urlLen > |p| { return None; }
      off := off + urlLen;
    }
    next := Some(off);
  }

  method WalkCandidates(region: seq<Byte>) returns (candidates: seq<Mac>, truncated: bool)
    ensures var found := Neighbors(Elements(region));
            candidates == Take(found, MAX_CANDIDATES) && truncated == (|found| > MAX_CANDIDATES)
  {
    hide Elements, Leftover, Fits;
    candidates, truncated := [], false;
    var it := new TlvIter(region);
    ghost var done: seq<Elem> := [];
    assert it.p[0..] == it.p;
    while it.status.Walking?
      invariant it.Valid() && fresh(it) && it.p == region
      invariant Elements(region) == done + Elements(it.p[it.off..])
      invariant it.status != Walking ==> Elements(it.p[it.off..]) == []
      invariant candidates == Take(Neighbors(done), MAX_CANDIDATES)
      invariant truncated == (|Neighbors(done)| > MAX_CANDIDATES)
      decreases |it.p| - it.off, it.status.Walking?
    {
      var next := it.Next();
      if next.Got? {
        assert (done + [next.e])[..|done|] == done;
        if IsNeighbor(next.e) {
          if |candidates| < MAX_CANDIDATES {
            candidates := candidates + [next.e.body[..6]];
          } else {
            truncated := true;
          }
        }
        done := done + [next.e];
      }
    }
    assert done == Elements(region);
  }

  // ----- The printer ------------------------------------------------------

  /** One element of the list: a Neighbor Report long enough to carry a BSSID, whose
      first six octets that is, or anything else. */
  datatype Item = Candidate(bssid: Mac, info: seq<Byte>) | Other(e: Elem)

  predicate ItemOk(i: Item) {
    match i
    case Candidate(_, info) => 7 <= |info| < 250
    case Other(e) => |e.body| < 256 && !(e.tag == 52 && |e.body| >= 13)
  }

  function ElemOf(i: Item): Elem {
    match i
    case Candidate(bssid, info) => Elem(52, bssid + info)
    case Other(e) => e
  }

  function Elems(items: seq<Item>): (es: seq<Elem>)
    ensures |es| == |items| && forall i :: 0 <= i < |items| ==> es[i] == ElemOf(items[i])
  {
    seq(|items|, i requires 0 <= i < |items| => ElemOf(items[i]))
  }

  /** The BSSIDs offered, in order. */
  function Offered(items: seq<Item>): seq<Mac> {
    if items == [] then []
    else Offered(items[..|items| - 1]) + match items[|items| - 1] { case Candidate(bssid, _) => [bssid] case Other(_) => [] }
  }

  /** Everything a BTM Request frame can carry on the air. */
  datatype Wire = Wire(head: Head, token: Byte, preferred: bool, abridged: bool, imminent: bool, terminates: bool,
                       leavesEss: bool, reserved: nat, timer: nat, validity: Byte,
                       term: seq<Byte>, url: seq<Byte>, items: seq<Item>, tail: seq<Byte>)

  /** Lengths the standard fixes; the optional fields exactly with their mode bits; the
      Protected bit clear; the tail, if any, an element that overruns. */
  ghost predicate OnAir(x: Wire) {
    && HeadOk(x.head) && !x.head.encrypted && x.timer < 65536 && x.reserved < 8
    && |x.term| == (if x.terminates then TERM_DURATION_LEN else 0)
    && (if x.leavesEss then |x.url| < 256 else x.url == [])
    && (forall i :: 0 <= i < |x.items| ==> ItemOk(x.items[i])) && !Fits(x.tail)
  }

  function Bit(b: bool): nat { if b then 1 else 0 }

  /** The Request Mode octet: one bit each, least significant first. */
  function ModeOctet(x: Wire): (mode: Byte)
    requires x.reserved < 8
  {
    Bit(x.preferred) + 2 * Bit(x.abridged) + 4 * Bit(x.imminent) + 8 * Bit(x.terminates) + 16 * Bit(x.leavesEss)
    + 32 * x.reserved
  }

  lemma BitTwo(low: nat, b: bool, high: nat)
    requires low < 4
    ensures (low + 4 * Bit(b) + 8 * high) / 4 % 2 == Bit(b)
  {
    assert (low + 4 * Bit(b) + 8 * high) / 4 == Bit(b) + 2 * high;
  }

  lemma BitThree(low: nat, b: bool, high: nat)
    requires low < 8
    ensures (low + 8 * Bit(b) + 16 * high) / 8 % 2 == Bit(b)
  {
    assert (low + 8 * Bit(b) + 16 * high) / 8 == Bit(b) + 2 * high;
  }

  lemma BitFour(low: nat, b: bool, high: nat)
    requires low < 16
    ensures (low + 16 * Bit(b) + 32 * high) / 16 % 2 == Bit(b)
  {
    assert (low + 16 * Bit(b) + 32 * high) / 16 == Bit(b) + 2 * high;
  }

  lemma ImminentBit(x: Wire)
    requires x.reserved < 8
    ensures IsImminent(ModeOctet(x)) == x.imminent
  {
    BitTwo(Bit(x.preferred) + 2 * Bit(x.abridged), x.imminent, Bit(x.terminates) + 2 * Bit(x.leavesEss) + 4 * x.reserved);
  }

  lemma TerminationBit(x: Wire)
    requires x.reserved < 8
    ensures HasTermination(ModeOctet(x)) == x.terminates
  {
    BitThree(Bit(x.preferred) + 2 * Bit(x.abridged) + 4 * Bit(x.imminent), x.terminates, Bit(x.leavesEss) + 2 * x.reserved);
  }

  lemma UrlBit(x: Wire)
    requires x.reserved < 8
    ensures HasUrl(ModeOctet(x)) == x.leavesEss
  {
    BitFour(Bit(x.preferred) + 2 * Bit(x.abridged) + 4 * Bit(x.imminent) + 8 * Bit(x.terminates), x.leavesEss, x.reserved);
  }

  lemma ModeBits(x: Wire)
    requires x.reserved < 8
    ensures IsImminent(ModeOctet(x)) == x.imminent
    ensures HasTermination(ModeOctet(x)) == x.terminates && HasUrl(ModeOctet(x)) == x.leavesEss
  {
    hide ModeOctet, IsImminent, HasTermination, HasUrl;
    ImminentBit(x);
    TerminationBit(x);
    UrlBit(x);
  }

  ghost function UrlField(leaves: bool, url: seq<Byte>): seq<Byte>
    requires |url| < 256
  {
    if leaves then [|url|] + url else []
  }

  ghost function Optional(x: Wire): seq<Byte>
    requires OnAir(x)
  {
    x.term + UrlField(x.leavesEss, x.url)
  }

  lemma ItemsPrintable(items: seq<Item>)
    requires forall i :: 0 <= i < |items| ==> ItemOk(items[i])
    ensures Printable(Elems(items))
  {
  }

  ghost function Encode(x: Wire): seq<Byte>
    requires OnAir(x)
  {
    ItemsPrintable(x.items);
    PrintHead(x.head)
    + [10, 7, x.token, ModeOctet(x), x.timer % 256, x.timer / 256, x.validity]
    + (Optional(x) + (PrintAll(Elems(x.items)) + x.tail))
  }

  lemma AfterTermOfPrint(mode: Byte, term: seq<Byte>, rest: seq<Byte>)
    requires |term| == if HasTermination(mode) then TERM_DURATION_LEN else 0
    ensures AfterTerm(mode, term + rest) == Some(rest)
  {
    assert (term + rest)[|term|..] == rest;
    if !HasTermination(mode) { assert term + rest == rest; }
  }

  lemma AfterUrlOfPrint(mode: Byte, url: seq<Byte>, rest: seq<Byte>)
    requires |url| < 256
    ensures AfterUrl(mode, UrlField(HasUrl(mode), url) + rest) == Some(rest)
  {
    if HasUrl(mode) {
      var field := [|url|] + url;
      assert (field + rest)[0] == |url|;
      assert (field + rest)[|field|..] == rest;
    } else {
      assert [] + rest == rest;
    }
  }

  lemma AfterOptionalOfPrint(x: Wire, rest: seq<Byte>)
    requires OnAir(x)
    ensures AfterOptional(ModeOctet(x), Optional(x) + rest) == Some(rest)
  {
    hide AfterTerm, AfterUrl, UrlField, PrintAll, Fits, ModeOctet, HasTermination, HasUrl;
    ModeBits(x);
    var field := UrlField(x.leavesEss, x.url);
    assert x.term + field + rest == x.term + (field + rest);
    AfterTermOfPrint(ModeOctet(x), x.term, field + rest);
    AfterUrlOfPrint(ModeOctet(x), x.url, rest);
  }

  /** What the parser collects from a printed list is what the list offers. */
  lemma {:induction false} NeighborsOfItems(items: seq<Item>)
    requires forall i :: 0 <= i < |items| ==> ItemOk(items[i])
    ensures Neighbors(Elems(items)) == Offered(items)
  {
    if items == [] {
    } else {
      var f := items[..|items| - 1];
      NeighborsOfItems(f);
      assert Elems(items)[..|items| - 1] == Elems(f);
      var i := items[|items| - 1];
      if i.Candidate? { assert (i.bssid + i.info)[..6] == i.bssid; }
    }
  }

  /** What the parser makes of a body whose optional fields it can skip. */
  lemma ParseOfBody(f: Frame, token: Byte, mode: Byte, lo: Byte, hi: Byte, validity: Byte,
                    rest: seq<Byte>, region: seq<Byte>)
    requires CategoryOf(f) == Readable(CAT_WNM, ACT_BTM_REQUEST)
    requires f.p[f.HdrLen()..] == [CAT_WNM, ACT_BTM_REQUEST, token, mode, lo, hi, validity] + rest
    requires AfterOptional(mode, rest) == Some(region)
    ensures var found := Neighbors(Elements(region));
            Parse(f) == Some(Request(f.Bssid(), f.Da(), token, mode, Le16(lo, hi), validity,
                                     Take(found, MAX_CANDIDATES), |found| > MAX_CANDIDATES, f.eventId))
  {
    hide Neighbors, Elements, AfterOptional;
    var b := f.p[f.HdrLen() + 2..];
    assert b == f.p[f.HdrLen()..][2..] == [token, mode, lo, hi, validity] + rest;
    assert b[5..] == rest;
  }

  /** Parsing inverts printing, for every request: header of 24 or 28 octets, each
      mode bit, optional fields or not, any list, any overrunning tail. */
  lemma ParseOfEncode(x: Wire, id: nat)
    requires OnAir(x)
    ensures var offered := Offered(x.items);
            Parse(Frame(Encode(x), id)) ==
            Some(Request(x.head.bssid, x.head.da, x.token, ModeOctet(x), x.timer, x.validity,
                         if |offered| <= 8 then offered else offered[..8], |offered| > 8, id))
    ensures IsImminent(ModeOctet(x)) == x.imminent
  {
    hide PrintHead, Optional, Neighbors, Elements, Elems, PrintAll, AfterOptional, CategoryOf, Parse, Fits, ModeOctet, Offered;
    ItemsPrintable(x.items);
    ModeBits(x);
    var region := PrintAll(Elems(x.items)) + x.tail;
    var (mode, lo, hi) := (ModeOctet(x), x.timer % 256, x.timer / 256);
    var fixed := [CAT_WNM, ACT_BTM_REQUEST, x.token, mode, lo, hi, x.validity];
    var body := fixed + (Optional(x) + region);
    assert Encode(x) == PrintHead(x.head) + body;
    HeadDecodes(x.head, body, id);
    AfterOptionalOfPrint(x, region);
    ElementsOfPrint(Elems(x.items), x.tail);
    NeighborsOfItems(x.items);
    ParseOfBody(Frame(PrintHead(x.head) + body, id), x.token, mode, lo, hi, x.validity, Optional(x) + region, region);
  }

  function ItemOf(e: Elem): (i: Item)
    ensures ElemOf(i) == e
  {
    if e.tag == 52 && |e.body| >= 13 then Candidate(e.body[..6], e.body[6..]) else Other(e)
  }

  lemma {:induction false} ItemsOf(es: seq<Elem>) returns (items: seq<Item>)
    requires Printable(es)
    ensures Elems(items) == es && forall i :: 0 <= i < |items| ==> ItemOk(items[i])
  {
    items := seq(|es|, i requires 0 <= i < |es| => ItemOf(es[i]));
    assert Elems(items) == es;
  }

  lemma Halves(n: nat)
    ensures n == n % 2 + 2 * (n / 2)
  {
  }

  lemma QuotientTwice(n: nat)
    ensures n / 2 / 2 == n / 4 && n / 4 / 2 == n / 8 && n / 8 / 2 == n / 16 && n / 16 / 2 == n / 32
  {
  }

  lemma AddUp(n: nat, q: nat, r: nat, s: nat, t: nat, u: nat, a: nat, b: nat, c: nat, d: nat, e: nat)
    requires n == a + 2 * q && q == b + 2 * r && r == c + 2 * s && s == d + 2 * t && t == e + 2 * u
    ensures n == a + 2 * b + 4 * c + 8 * d + 16 * e + 32 * u
  {
  }

  lemma FiveBits(n: nat)
    ensures n == n % 2 + 2 * (n / 2 % 2) + 4 * (n / 4 % 2) + 8 * (n / 8 % 2) + 16 * (n / 16 % 2) + 32 * (n / 32)
  {
    QuotientTwice(n);
    Halves(n);
    Halves(n / 2);
    Halves(n / 4);
    Halves(n / 8);
    Halves(n / 16);
    AddUp(n, n / 2, n / 4, n / 8, n / 16, n / 32, n % 2, n / 2 % 2, n / 4 % 2, n / 8 % 2, n / 16 % 2);
  }

  lemma ModeIs(x: Wire, a: nat, b: nat, c: nat, d: nat, e: nat)
    requires a < 2 && b < 2 && c < 2 && d < 2 && e < 2 && x.reserved < 8
    requires x.preferred == (a == 1) && x.abridged == (b == 1) && x.imminent == (c == 1)
    requires x.terminates == (d == 1) && x.leavesEss == (e == 1)
    ensures ModeOctet(x) == a + 2 * b + 4 * c + 8 * d + 16 * e + 32 * x.reserved
  {
  }

  /** The mode octet, taken apart. */
  lemma ModeSplit(mode: Byte, x: Wire)
    requires x.preferred == (mode % 2 == 1) && x.abridged == (mode / 2 % 2 == 1) && x.imminent == IsImminent(mode)
    requires x.terminates == HasTermination(mode) && x.leavesEss == HasUrl(mode) && x.reserved == mode / 32
    ensures x.reserved < 8 && ModeOctet(x) == mode
  {
    hide ModeOctet;
    FiveBits(mode);
    ModeIs(x, mode % 2, mode / 2 % 2, mode / 4 % 2, mode / 8 % 2, mode / 16 % 2);
  }

  /** And every frame the parser accepts was printed so: there is nothing it
      reads that the printer could not have written. */
  lemma EncodeOfParse(f: Frame) returns (x: Wire)
    requires Parse(f).Some?
    ensures OnAir(x) && f.p == Encode(x)
  {
    hide Neighbors, Elements, Elems, PrintAll, Leftover, Fits, AfterOptional, PrintHead, UrlField, ModeOctet,
         IsImminent, HasTermination, HasUrl, Le16;
    var (p, h) := (f.p, f.HdrLen());
    var b := p[h + 2..];
    var head := HeadOfFrame(f);
    var term, url, region := OptionalOfParse(b[1], b[5..]);
    PrintOfElements(region);
    var items := ItemsOf(Elements(region));
    x := Wire(head, b[0], b[1] % 2 == 1, b[1] / 2 % 2 == 1, IsImminent(b[1]), HasTermination(b[1]), HasUrl(b[1]), b[1] / 32,
              Le16(b[2], b[3]), b[4], term, url, items, Leftover(region));
    ModeSplit(b[1], x);
    Le16Split(b[2], b[3]);
    BodySplit(p, h);
    assert OnAir(x);
    assert b[5..] == Optional(x) + (PrintAll(Elems(x.items)) + x.tail);
    Attach(PrintHead(head), [10, 7, b[0], b[1], b[2], b[3], b[4]], b[5..]);
  }

  lemma Le16Split(lo: Byte, hi: Byte)
    ensures Le16(lo, hi) < 65536 && Le16(lo, hi) % 256 == lo && Le16(lo, hi) / 256 == hi
  {
  }

  lemma Attach(a: seq<Byte>, b: seq<Byte>, c: seq<Byte>)
    ensures a + (b + c) == a + b + c
  {
  }

  lemma BodySplit(p: seq<Byte>, h: nat)
    requires h + 7 <= |p|
    ensures var b := p[h + 2..];
            p[h..] == [p[h], p[h + 1], b[0], b[1], b[2], b[3], b[4]] + b[5..]
  {
  }

  lemma OptionalOfParse(mode: Byte, b: seq<Byte>) returns (term: seq<Byte>, url: seq<Byte>, region: seq<Byte>)
    requires AfterOptional(mode, b).Some?
    ensures |term| == (if HasTermination(mode) then TERM_DURATION_LEN else 0)
    ensures if HasUrl(mode) then |url| < 256 else url == []
    ensures AfterOptional(mode, b) == Some(region)
    ensures b == term + UrlField(HasUrl(mode), url) + region
  {
    var c := AfterTerm(mode, b).value;
    term := if HasTermination(mode) then b[..TERM_DURATION_LEN] else [];
    assert b == term + c;
    url, region := UrlOfParse(mode, c);
    assert term + UrlField(HasUrl(mode), url) + region == term + (UrlField(HasUrl(mode), url) + region);
  }

  lemma UrlOfParse(mode: Byte, c: seq<Byte>) returns (url: seq<Byte>, region: seq<Byte>)
    requires AfterUrl(mode, c).Some?
    ensures if HasUrl(mode) then |url| < 256 else url == []
    ensures AfterUrl(mode, c) == Some(region) && c == UrlField(HasUrl(mode), url) + region
  {
    region := AfterUrl(mode, c).value;
    if HasUrl(mode) {
      var n: nat := c[0];
      url := c[1..1 + n];
      assert c == [c[0]] + url + region;
    } else {
      url := [];
    }
  }
}
