/** Radio Measurement frames as they are printed, and what each leaves in the table. */
module RrmWire {
  import opened Wrappers
  import opened Seqs
  import opened Dot11
  import opened Rrm

  /** One element of the body: a Beacon Request with its fixed fields and subelements
      (section 9.4.2.20.7), one too short for a subelement, a Measurement Report, or
      anything else. The SSID asked for is the last non-empty one. */
  datatype Item =
    | Ask(token: Byte, reqMode: Byte, opClass: Byte, chan: Byte, interval: seq<Byte>, duration: seq<Byte>, mode: Byte,
          ap: Mac, before: seq<Elem>, ssid: Option<seq<Byte>>, after: seq<Elem>, tail: seq<Byte>)
    | Brief(token: Byte, reqMode: Byte, rest: seq<Byte>)
    | Reply(report: seq<Byte>)
    | Other(e: Elem)

  predicate Unnamed(subs: seq<Elem>) { forall i :: 0 <= i < |subs| ==> subs[i].tag != 0 || subs[i].body == [] }

  function Subs(i: Item): seq<Elem>
    requires i.Ask?
  {
    match i.ssid
    case Some(s) => i.before + [Elem(0, s)] + i.after
    case None => i.before
  }

  function Fixed(i: Item): seq<Byte>
    requires i.Ask?
  {
    [i.token, i.reqMode, 5, i.opClass, i.chan] + i.interval + i.duration + [i.mode] + i.ap
  }

  ghost predicate ItemOk(i: Item) {
    match i
    case Ask(_, _, _, _, interval, duration, _, _, before, ssid, after, tail) =>
      && |interval| == 2 && |duration| == 2 && Printable(Subs(i)) && !Fits(tail)
      && 16 + |PrintAll(Subs(i))| + |tail| < 256
      && (if ssid.Some? then ssid.value != [] && Unnamed(after) else Unnamed(before) && after == [])
    case Brief(_, _, rest) => |rest| < 13
    case Reply(report) => |report| < 256
    case Other(e) => |e.body| < 256 && e.tag != 39 && !(e.tag == 38 && |e.body| >= 3 && e.body[2] == 5)
  }

  ghost function ElemOf(i: Item): Elem
    requires ItemOk(i)
  {
    match i
    case Ask(_, _, _, _, _, _, _, _, _, _, _, tail) => Elem(38, Fixed(i) + (PrintAll(Subs(i)) + tail))
    case Brief(token, reqMode, rest) => Elem(38, [token, reqMode, 5] + rest)
    case Reply(report) => Elem(39, report)
    case Other(e) => e
  }

  ghost predicate ItemsOk(items: seq<Item>) { forall i :: 0 <= i < |items| ==> ItemOk(items[i]) }

  ghost function Elems(items: seq<Item>): (es: seq<Elem>)
    requires ItemsOk(items)
    ensures |es| == |items| && forall i :: 0 <= i < |items| ==> es[i] == ElemOf(items[i])
  {
    seq(|items|, i requires 0 <= i < |items| => ElemOf(items[i]))
  }

  /** What an element counts as: in a request frame only the Beacon Requests, in a report
      frame only the reports. */
  function Counts(request: bool, i: Item): Option<What> {
    match i
    case Ask(_, _, _, chan, _, _, mode, _, _, ssid, _, _) =>
      if !request then None
      else (match ssid case Some(s) => Some(Targeted(SsidCopy(s), chan, mode)) case None => Some(Broadcast(chan, mode)))
    case Brief(_, _, rest) =>
      if !request then None
      else Some(Broadcast(if |rest| >= 2 then rest[1] else 0, if |rest| >= 7 then rest[6] else 0))
    case Reply(_) => if request then None else Some(Report)
    case Other(_) => None
  }

  function Counted(request: bool, items: seq<Item>): seq<What> {
    if items == [] then []
    else Counted(request, items[..|items| - 1])
         + match Counts(request, items[|items| - 1]) { case Some(x) => [x] case None => [] }
  }

  datatype Wire = Wire(head: Head, request: bool, token: Byte, repetitions: seq<Byte>, items: seq<Item>, tail: seq<Byte>)

  /** A request carries the number of repetitions, a report does not. */
  ghost predicate OnAir(x: Wire) {
    && HeadOk(x.head) && !x.head.encrypted && |x.repetitions| == (if x.request then 2 else 0)
    && ItemsOk(x.items) && !Fits(x.tail)
  }

  lemma ElemFits(i: Item)
    requires ItemOk(i)
    ensures |ElemOf(i).body| < 256
  {
  }

  lemma ItemsPrintable(items: seq<Item>)
    requires ItemsOk(items)
    ensures Printable(Elems(items))
  {
    hide ItemOk, ElemOf;
    forall i | 0 <= i < |items| ensures |Elems(items)[i].body| < 256 { ElemFits(items[i]); }
  }

  ghost function Encode(x: Wire): seq<Byte>
    requires OnAir(x)
  {
    ItemsPrintable(x.items);
    PrintHead(x.head) + ([5, if x.request then 0 else 1, x.token] + x.repetitions + (PrintAll(Elems(x.items)) + x.tail))
  }

  lemma {:induction false} UnnamedAsksNothing(subs: seq<Elem>)
    requires Unnamed(subs)
    ensures Filter(subs, Named()) == []
  {
    if subs == [] {
    } else {
      UnnamedAsksNothing(subs[..|subs| - 1]);
    }
  }

  lemma AskedBySubs(before: seq<Elem>, s: seq<Byte>, after: seq<Elem>)
    requires s != [] && Unnamed(after)
    ensures SsidAsked(before + [Elem(0, s)] + after) == Some(SsidCopy(s))
  {
    hide Filter, SsidCopy;
    UnnamedAsksNothing(after);
    FilterConcat(before + [Elem(0, s)], after, Named());
    FilterPush(before, Elem(0, s), Named());
  }

  lemma RecognisesAsk(i: Item)
    requires ItemOk(i) && i.Ask?
    ensures Recognise(ACT_REQUEST, ElemOf(i)) == Counts(true, i)
  {
    hide Filter, PrintAll, Elements, SsidCopy, SsidAsked, Fits, Leftover;
    var (fixed, subs) := (Fixed(i), Subs(i));
    var b := ElemOf(i).body;
    assert |fixed| == 16 && b[2] == 5 && b[4] == i.chan && b[9] == i.mode;
    assert b[16..] == PrintAll(subs) + i.tail;
    ElementsOfPrint(subs, i.tail);
    SubsAsk(i);
  }

  lemma SubsAsk(i: Item)
    requires ItemOk(i) && i.Ask?
    ensures SsidAsked(Subs(i)) == match i.ssid { case Some(s) => Some(SsidCopy(s)) case None => None }
  {
    hide PrintAll, SsidCopy, Fits;
    match i.ssid
    case Some(s) => AskedBySubs(i.before, s, i.after);
    case None => UnnamedAsksNothing(i.before);
  }

  lemma RecognisesItem(request: bool, i: Item)
    requires ItemOk(i)
    ensures Recognise(if request then ACT_REQUEST else ACT_REPORT, ElemOf(i)) == Counts(request, i)
  {
    hide SsidCopy, SsidAsked, PrintAll, Fits;
    if i.Ask? && request {
      RecognisesAsk(i);
    } else if i.Brief? {
      EmptyAsksNothing();
    }
  }

  lemma {:induction false} RecognisesAll(request: bool, items: seq<Item>)
    requires ItemsOk(items)
    ensures RecogniseAll(if request then ACT_REQUEST else ACT_REPORT, Elems(items)) == Counted(request, items)
  {
    hide Recognise, Counts, ItemOk, ElemOf;
    if items == [] {
    } else {
      var f := items[..|items| - 1];
      RecognisesAll(request, f);
      RecognisesItem(request, items[|items| - 1]);
      assert Elems(items)[..|items| - 1] == Elems(f);
    }
  }

  lemma ReadsItems(x: Wire, id: nat)
    requires OnAir(x)
    ensures var f := Frame(Encode(x), id);
            var action := if x.request then ACT_REQUEST else ACT_REPORT;
            && CategoryOf(f) == Readable(CAT_RRM, action)
            && Elements(Region(f, action)) == Elems(x.items)
            && f.Da() == x.head.da && f.Ta() == x.head.sa && f.Bssid() == x.head.bssid
  {
    hide PrintHead, PrintAll, Elements, Fits, CategoryOf, Elems, Leftover, ItemsOk;
    ItemsPrintable(x.items);
    var action := if x.request then ACT_REQUEST else ACT_REPORT;
    var (first, region) := ([5, action, x.token] + x.repetitions, PrintAll(Elems(x.items)) + x.tail);
    HeadDecodes(x.head, first + region, id);
    ElementsOfPrint(Elems(x.items), x.tail);
    var f := Frame(Encode(x), id);
    assert f.p[f.HdrLen() + |first|..] == f.p[f.HdrLen()..][|first|..] == region;
  }

  /** Reading inverts printing: each counted element of the frame is one observation, in
      order, of the pair of the BSS and the station: addr1 of a request, addr2 of a
      report. A group address in either makes none. */
  lemma ObservationsOfEncode(x: Wire, id: nat, now: int)
    requires OnAir(x)
    ensures var obs := Observations(Frame(Encode(x), id), now);
            var sta := if x.request then x.head.da else x.head.sa;
            var counted := Counted(x.request, x.items);
            if sta[0] % 2 == 1 || x.head.bssid[0] % 2 == 1 then obs == []
            else |obs| == |counted|
                 && forall i :: 0 <= i < |obs| ==> obs[i].key == Pair(x.head.bssid, sta) && obs[i].ts == now
                                                   && obs[i].what == counted[i]
  {
    hide Encode, RecogniseAll, Elems, CategoryOf, Elements, Counted, Region, ItemsOk;
    ReadsItems(x, id);
    RecognisesAll(x.request, x.items);
  }

  // ----- Every frame is so printed ------------------------------------------------

  lemma {:induction false} LastNamed(subs: seq<Elem>) returns (before: seq<Elem>, ssid: Option<seq<Byte>>, after: seq<Elem>)
    ensures match ssid
            case Some(s) => s != [] && Unnamed(after) && subs == before + [Elem(0, s)] + after
            case None => Unnamed(subs) && before == subs && after == []
  {
    if subs == [] {
      before, ssid, after := [], None, [];
    } else {
      var (f, e) := (subs[..|subs| - 1], subs[|subs| - 1]);
      assert subs == f + [e];
      if e.tag == 0 && e.body != [] {
        before, ssid, after := f, Some(e.body), [];
        assert e == Elem(0, e.body) && subs == f + [e] + [];
      } else {
        before, ssid, after := LastNamed(f);
        if ssid.Some? {
          after := after + [e];
        } else {
          before := subs;
        }
      }
    }
  }

  lemma AskOf(b: seq<Byte>) returns (i: Item)
    requires 16 <= |b| < 256 && b[2] == 5
    ensures ItemOk(i) && ElemOf(i) == Elem(38, b)
  {
    hide PrintAll, Elements, Leftover, Fits;
    var region := b[16..];
    PrintOfElements(region);
    var subs := Elements(region);
    var before, ssid, after := LastNamed(subs);
    i := Ask(b[0], b[1], b[3], b[4], b[5..7], b[7..9], b[9], b[10..16], before, ssid, after, Leftover(region));
    assert Subs(i) == subs;
    SixteenOctets(b);
    assert b == b[..16] + b[16..];
  }

  lemma SixteenOctets(b: seq<Byte>)
    requires 16 <= |b| && b[2] == 5
    ensures [b[0], b[1], 5, b[3], b[4]] + b[5..7] + b[7..9] + [b[9]] + b[10..16] == b[..16]
  {
    var s := [b[0], b[1], 5, b[3], b[4]] + b[5..7] + b[7..9] + [b[9]] + b[10..16];
    assert |s| == 16;
    assert s[0] == b[0] && s[1] == b[1] && s[2] == b[2] && s[3] == b[3] && s[4] == b[4];
    assert s[5] == b[5] && s[6] == b[6] && s[7] == b[7] && s[8] == b[8] && s[9] == b[9];
    assert s[10..] == b[10..16];
    assert forall k :: 10 <= k < 16 ==> s[k] == s[10..][k - 10] == b[10..16][k - 10] == b[k];
  }

  lemma ItemOf(e: Elem) returns (i: Item)
    requires |e.body| < 256
    ensures ItemOk(i) && ElemOf(i) == e
  {
    var b := e.body;
    if e.tag == 39 {
      i := Reply(b);
    } else if e.tag == 38 && |b| >= 3 && b[2] == 5 {
      if |b| >= 16 {
        i := AskOf(b);
      } else {
        i := Brief(b[0], b[1], b[3..]);
        assert b == [b[0], b[1], 5] + b[3..];
      }
    } else {
      i := Other(e);
    }
  }

  lemma {:induction false} ItemsOf(es: seq<Elem>) returns (items: seq<Item>)
    requires Printable(es)
    ensures ItemsOk(items) && Elems(items) == es
  {
    hide ItemOk, ElemOf;
    if es == [] {
      items := [];
    } else {
      var (f, e) := (es[..|es| - 1], es[|es| - 1]);
      var init := ItemsOf(f);
      var i := ItemOf(e);
      items := init + [i];
      assert es == f + [e] && Elems(items) == es;
    }
  }

  /** Every request or report long enough for its fixed fields is such a printing. */
  lemma EncodeOfFrame(f: Frame) returns (x: Wire)
    requires CategoryOf(f).Readable? && CategoryOf(f).cat == 5 && CategoryOf(f).action <= 1
    requires f.HdrLen() + (if CategoryOf(f).action == 0 then 5 else 3) <= |f.p|
    ensures OnAir(x) && f.p == Encode(x)
  {
    hide PrintHead, PrintAll, Elements, Leftover, Fits, Elems, ItemsOk;
    var (h, request) := (f.HdrLen(), CategoryOf(f).action == 0);
    var head := HeadOfFrame(f);
    var n := if request then 5 else 3;
    var b := f.p[h..];
    var region := b[n..];
    PrintOfElements(region);
    var items := ItemsOf(Elements(region));
    x := Wire(head, request, b[2], b[3..n], items, Leftover(region));
    assert b == [5, if request then 0 else 1, b[2]] + b[3..n] + region;
  }

  /** A shorter one records nothing. */
  lemma ShortFrame(f: Frame, now: int)
    requires CategoryOf(f).Readable? && CategoryOf(f).cat == 5 && CategoryOf(f).action <= 1
    requires f.HdrLen() + (if CategoryOf(f).action == 0 then 5 else 3) > |f.p|
    ensures Observations(f, now) == []
  {
    hide CategoryOf;
    NoElements();
    EmptyAsksNothing();
  }

  /** An SSID is kept up to 32 octets and its first NUL, control octets as '?'. */
  lemma {:induction false} SsidCopyIs(b: seq<Byte>)
    ensures var r := SsidCopy(b);
            && |r| <= Min(32, |b|) && (|r| == Min(32, |b|) || b[|r|] == 0)
            && forall i :: 0 <= i < |r| ==> b[i] != 0 && r[i] == if b[i] < 32 || b[i] == 127 then 63 else b[i]
  {
    CleanIs(if |b| <= 32 then b else b[..32]);
  }

  lemma {:induction false} CleanIs(b: seq<Byte>)
    ensures var r := Clean(b);
            && |r| <= |b| && (|r| == |b| || b[|r|] == 0)
            && forall i :: 0 <= i < |r| ==> b[i] != 0 && r[i] == if b[i] < 32 || b[i] == 127 then 63 else b[i]
  {
    if b == [] || b[0] == 0 {
    } else {
      CleanIs(b[1..]);
      assert forall i :: 0 < i < |b| ==> b[i] == b[1..][i - 1];
    }
  }
}
