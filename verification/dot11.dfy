/** IEEE 802.11 management frames as the Action-frame code sees them: the header
    decode, the element iterator, and the Category demultiplexer. */
module Dot11 {
  type Byte = x: int | 0 <= x < 256
  type Mac = m: seq<Byte> | |m| == 6 witness [0, 0, 0, 0, 0, 0]

  datatype Pair = Pair(bssid: Mac, sta: Mac)

  /** The Individual/Group bit of an address. */
  predicate IsGroup(m: Mac) { m[0] % 2 == 1 }

  predicate IsZero(m: Mac) { m == [0, 0, 0, 0, 0, 0] }

  const CAT_SPECTRUM: Byte := 0
  const CAT_PUBLIC: Byte := 4
  const CAT_RRM: Byte := 5
  const CAT_SA_QUERY: Byte := 8
  const CAT_WNM: Byte := 10
  const CAT_UNPROT_WNM: Byte := 11
  const CAT_VENDOR: Byte := 127

  /** A captured frame and the evidence-ring ID it was retained under (0: none).
      The header fields are functions of the octets. */
  datatype Frame = Frame(p: seq<Byte>, eventId: nat) {

    predicate IsAction() { |p| >= 2 && p[0] % 4 == 0 && p[0] / 4 % 4 == 0 && p[0] / 16 == 13 }

    predicate IsProtected() { |p| >= 2 && p[1] / 64 % 2 == 1 }

    predicate HasHtc() { |p| >= 2 && p[1] / 128 == 1 }

    /** Management header: 24 octets, 28 with HT Control; -1 when cut short. */
    function HdrLen(): (n: int)
      ensures n != -1 ==> 24 <= n <= 28 && n <= |p|
    {
      var need := if HasHtc() then 28 else 24;
      if |p| < need then -1 else need
    }

    function Da(): Mac requires |p| >= 24 { p[4..10] }
    function Ta(): Mac requires |p| >= 24 { p[10..16] }
    function Bssid(): Mac requires |p| >= 24 { p[16..22] }
  }

  datatype Category = NotAction | Ciphertext | Readable(cat: Byte, action: Byte)

  /** `category_frame`: the Protected bit is looked at before the length. */
  function CategoryOf(f: Frame): (c: Category)
    ensures c.Readable? ==> f.HdrLen() >= 24 && f.HdrLen() + 2 <= |f.p|
  {
    if !f.IsAction() then NotAction
    else if f.IsProtected() then Ciphertext
    else if f.HdrLen() < 0 || |f.p| < f.HdrLen() + 2 then NotAction
    else Readable(f.p[f.HdrLen()], f.p[f.HdrLen() + 1])
  }

  // ----- The header on the air -------------------------------------------------

  /** A management header of an Action frame: the low six flag bits, the Protected and
      +HTC bits, three addresses, and an HT Control field exactly with its bit. */
  datatype Head = Head(flags: nat, encrypted: bool, htControl: bool, duration: seq<Byte>,
                       da: Mac, sa: Mac, bssid: Mac, seqCtl: seq<Byte>, htc: seq<Byte>)

  predicate HeadOk(h: Head) {
    h.flags < 64 && |h.duration| == 2 && |h.seqCtl| == 2 && |h.htc| == if h.htControl then 4 else 0
  }

  function PrintHead(h: Head): seq<Byte>
    requires HeadOk(h)
  {
    [0xD0, h.flags + (if h.encrypted then 64 else 0) + if h.htControl then 128 else 0]
    + h.duration + h.da + h.sa + h.bssid + h.seqCtl + h.htc
  }

  /** A printed header reads back, whatever body follows. */
  lemma HeadDecodes(h: Head, body: seq<Byte>, id: nat)
    requires HeadOk(h)
    ensures var f := Frame(PrintHead(h) + body, id);
            && f.HdrLen() == |PrintHead(h)| && f.p[f.HdrLen()..] == body
            && f.Da() == h.da && f.Ta() == h.sa && f.Bssid() == h.bssid
            && CategoryOf(f) == (if h.encrypted then Ciphertext
                                 else if |body| < 2 then NotAction
                                 else Readable(body[0], body[1]))
  {
    var p := PrintHead(h);
    assert p[4..10] == h.da && p[10..16] == h.sa && p[16..22] == h.bssid;
    var f := Frame(p + body, id);
    assert f.p[0] == 0xD0 && f.p[1] == p[1];
    assert f.p[4..10] == p[4..10] && f.p[10..16] == p[10..16] && f.p[16..22] == p[16..22];
    assert f.p[|p|..] == body;
  }

  /** And every frame with a whole header begins with a printed one. */
  lemma HeadOfFrame(f: Frame) returns (h: Head)
    requires f.IsAction() && f.HdrLen() >= 24
    ensures HeadOk(h) && f.p == PrintHead(h) + f.p[f.HdrLen()..]
    ensures h.da == f.Da() && h.sa == f.Ta() && h.bssid == f.Bssid() && h.encrypted == f.IsProtected()
  {
    var (p, n) := (f.p, f.HdrLen());
    h := Head(p[1] % 64, f.IsProtected(), f.HasHtc(), p[2..4], f.Da(), f.Ta(), f.Bssid(), p[22..24], p[24..n]);
    assert p[0] == 0xD0;
    FlagBits(p[1]);
    HeadSlices(p, n);
    assert p == p[..n] + p[n..];
  }

  lemma FlagBits(o: Byte)
    ensures o == o % 64 + (if o / 64 % 2 == 1 then 64 else 0) + if o / 128 == 1 then 128 else 0
  {
  }

  lemma HeadSlices(p: seq<Byte>, n: nat)
    requires 24 <= n <= |p|
    ensures [p[0], p[1]] + p[2..4] + p[4..10] + p[10..16] + p[16..22] + p[22..24] + p[24..n] == p[..n]
  {
    assert [p[0], p[1]] + p[2..4] == p[..4];
    assert p[..4] + p[4..10] == p[..10];
    assert p[..10] + p[10..16] == p[..16];
    assert p[..16] + p[16..22] == p[..22];
    assert p[..22] + p[22..24] == p[..24];
    assert p[..24] + p[24..n] == p[..n];
  }

  /** The three answers on the octets: type and version in the first, the Protected
      and +HTC bits in the second, the body behind 24 or 28. */
  lemma CategoryOnOctets(f: Frame)
    ensures |f.p| < 2 || f.p[0] != 0xD0 ==> CategoryOf(f) == NotAction
    ensures |f.p| >= 2 && f.p[0] == 0xD0 && f.p[1] / 64 % 2 == 1 ==> CategoryOf(f) == Ciphertext
    ensures |f.p| >= 2 && f.p[0] == 0xD0 && f.p[1] / 64 % 2 == 0 ==>
              var body := if f.p[1] >= 128 then 28 else 24;
              CategoryOf(f) == if |f.p| < body + 2 then NotAction else Readable(f.p[body], f.p[body + 1])
  {
  }

  // ----- Elements ---------------------------------------------------------

  datatype Elem = Elem(tag: Byte, body: seq<Byte>)

  ghost predicate Printable(es: seq<Elem>) { forall i :: 0 <= i < |es| ==> |es[i].body| < 256 }

  function Print(e: Elem): seq<Byte>
    requires |e.body| < 256
  {
    [e.tag, |e.body|] + e.body
  }

  function PrintAll(es: seq<Elem>): seq<Byte>
    requires Printable(es)
  {
    if es == [] then [] else Print(es[0]) + PrintAll(es[1..])
  }

  /** The element at the start of `b` lies entirely inside it. */
  predicate Fits(b: seq<Byte>) { |b| >= 2 && b[1] <= |b| - 2 }

  function First(b: seq<Byte>): (e: Elem)
    requires Fits(b)
    ensures |e.body| < 256
  {
    Elem(b[0], b[2..2 + b[1] as int])
  }

  function After(b: seq<Byte>): (rest: seq<Byte>)
    requires Fits(b)
    ensures |rest| < |b|
  {
    b[2 + b[1] as int..]
  }

  /** The elements a region yields before its end or the first one that does not fit. */
  function Elements(b: seq<Byte>): (es: seq<Elem>)
    ensures Printable(es)
    decreases |b|
  {
    if !Fits(b) then [] else [First(b)] + Elements(After(b))
  }

  /** What is left where the walk stops: empty exactly when it ended cleanly. */
  function Leftover(b: seq<Byte>): seq<Byte>
    decreases |b|
  {
    if !Fits(b) then b else Leftover(After(b))
  }

  lemma FirstOfPrint(e: Elem, rest: seq<Byte>)
    requires |e.body| < 256
    ensures var b := Print(e) + rest; Fits(b) && First(b) == e && After(b) == rest
  {
    var b := Print(e) + rest;
    assert b[1] == |e.body|;
    assert b[2..2 + |e.body|] == e.body;
  }

  /** Any printed list reads back, whatever does not fit behind it. */
  lemma {:induction false} ElementsOfPrint(es: seq<Elem>, tail: seq<Byte>)
    requires Printable(es) && !Fits(tail)
    ensures Elements(PrintAll(es) + tail) == es && Leftover(PrintAll(es) + tail) == tail
  {
    hide Fits, First, After, Print;
    if es == [] {
      assert PrintAll(es) + tail == tail;
    } else {
      var (e, rest) := (es[0], PrintAll(es[1..]) + tail);
      ElementsOfPrint(es[1..], tail);
      FirstOfPrint(e, rest);
      assert PrintAll(es) + tail == Print(e) + rest;
    }
  }

  lemma PrintOfFirst(b: seq<Byte>)
    requires Fits(b)
    ensures b == Print(First(b)) + After(b)
  {
    var l: nat := b[1];
    assert b == b[..2] + b[2..2 + l] + b[2 + l..];
  }

  lemma PrintCons(e: Elem, es: seq<Elem>)
    requires |e.body| < 256 && Printable(es)
    ensures Printable([e] + es) && PrintAll([e] + es) == Print(e) + PrintAll(es)
  {
    assert ([e] + es)[1..] == es;
  }

  /** Every region is a printed list followed by something that does not fit. */
  lemma {:induction false} PrintOfElements(b: seq<Byte>)
    ensures b == PrintAll(Elements(b)) + Leftover(b)
    ensures !Fits(Leftover(b))
    decreases |b|
  {
    hide Print, First, After, Fits, PrintAll;
    if !Fits(b) {
      NothingPrinted(b);
    } else {
      PrintOfElements(After(b));
      PrintOfFirst(b);
      PrintCons(First(b), Elements(After(b)));
    }
  }

  lemma NothingPrinted(b: seq<Byte>)
    ensures b == PrintAll([]) + b
  {
  }

  lemma SliceOfRest(p: seq<Byte>, off: nat, l: nat)
    requires off + 2 + l <= |p|
    ensures p[off..][2..2 + l] == p[off + 2..off + 2 + l] && p[off..][2 + l..] == p[off + 2 + l..]
    ensures p[off..][0] == p[off] && p[off..][1] == p[off + 1]
  {
  }

  datatype Status = Walking | End | Overrun

  datatype Next = Stopped | Got(e: Elem)

  /** `tlv_it_t`: an offset into a region, and how the walk ended. */
  class TlvIter {
    const p: seq<Byte>
    var off: nat
    var status: Status

    ghost predicate Valid()
      reads this
    {
      && off <= |p|
      && (!status.Walking? ==> Elements(p[off..]) == [] && Leftover(p[off..]) == p[off..])
      && (status.End? ==> off == |p|) && (status.Overrun? ==> off < |p|)
    }

    constructor (p: seq<Byte>)
      ensures Valid() && this.p == p && off == 0 && status.Walking?
    {
      this.p, off, status := p, 0, Walking;
    }

    /** Yields elements that fit entirely; END and OVERRUN are terminal, and on
        OVERRUN the offset stays at the element that did not fit. */
    method Next() returns (r: Next)
      requires Valid()
      modifies this
      ensures Valid()
      ensures r.Got? ==> status.Walking? && off > old(off)
      ensures r.Got? ==> Elements(p[old(off)..]) == [r.e] + Elements(p[off..])
      ensures r.Got? ==> Leftover(p[old(off)..]) == Leftover(p[off..])
      ensures r.Stopped? ==> off == old(off) && status != Walking && Elements(p[off..]) == []
    {
      if status != Walking { return Stopped; }
      if off == |p| { status := End; return Stopped; }
      if off + 2 > |p| || p[off + 1] > |p| - off - 2 { status := Overrun; return Stopped; }
      var l := p[off + 1];
      ghost var b := p[off..];
      SliceOfRest(p, off, l);
      r := Got(Elem(p[off], p[off + 2..off + 2 + l]));
      off := off + 2 + l;
      assert Fits(b) && First(b) == r.e && After(b) == p[off..];
    }
  }

  /** `mac_is_usable`. */
  predicate Usable(m: Mac) { !IsGroup(m) && !IsZero(m) }
}
