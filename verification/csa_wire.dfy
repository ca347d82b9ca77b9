/** Channel Switch frames as they are printed, and what each leaves in the ring. */
module CsaWire {
  import opened Wrappers
  import opened Dot11
  import opened Csa

  /** One element of the body: a Channel Switch Announcement, an extended one, or
      anything else; with whatever octets follow the fields. */
  datatype Item =
    | Plain(mode: Byte, channel: Byte, count: Byte, more: seq<Byte>)
    | Extended(mode: Byte, opClass: Byte, channel: Byte, count: Byte, more: seq<Byte>)
    | Other(e: Elem)

  predicate ItemOk(i: Item) {
    match i
    case Plain(_, _, _, more) => |more| < 253
    case Extended(_, _, _, _, more) => |more| < 252
    case Other(e) => |e.body| < 256 && !(e.tag == 37 && |e.body| >= 3) && !(e.tag == 60 && |e.body| >= 4)
  }

  function ElemOf(i: Item): Elem {
    match i
    case Plain(mode, channel, count, more) => Elem(37, [mode, channel, count] + more)
    case Extended(mode, opClass, channel, count, more) => Elem(60, [mode, opClass, channel, count] + more)
    case Other(e) => e
  }

  function Elems(items: seq<Item>): (es: seq<Elem>)
    ensures |es| == |items| && forall i :: 0 <= i < |items| ==> es[i] == ElemOf(items[i])
  {
    seq(|items|, i requires 0 <= i < |items| => ElemOf(items[i]))
  }

  datatype Wire = Wire(head: Head, items: seq<Item>, tail: seq<Byte>)

  ghost predicate OnAir(x: Wire) {
    HeadOk(x.head) && !x.head.encrypted && (forall i :: 0 <= i < |x.items| ==> ItemOk(x.items[i])) && !Fits(x.tail)
  }

  lemma ItemsPrintable(items: seq<Item>)
    requires forall i :: 0 <= i < |items| ==> ItemOk(items[i])
    ensures Printable(Elems(items))
  {
  }

  ghost function Encode(x: Wire): seq<Byte>
    requires OnAir(x)
  {
    ItemsPrintable(x.items);
    PrintHead(x.head) + ([0, 4] + (PrintAll(Elems(x.items)) + x.tail))
  }

  /** The operating class the last extended announcement named, else 0. */
  function LastClass(items: seq<Item>): Byte {
    if items == [] then 0
    else match items[|items| - 1]
      case Extended(_, opClass, _, _, _) => opClass
      case _ => LastClass(items[..|items| - 1])
  }

  lemma ReadsItems(x: Wire, id: nat)
    requires OnAir(x)
    ensures var f := Frame(Encode(x), id);
            && CategoryOf(f) == Readable(CAT_SPECTRUM, ACT_CHANNEL_SWITCH)
            && Elements(f.p[f.HdrLen() + 2..]) == Elems(x.items)
            && f.Ta() == x.head.sa && f.Bssid() == x.head.bssid
  {
    hide PrintHead, PrintAll, Elements, Fits, CategoryOf, Elems, Leftover;
    ItemsPrintable(x.items);
    var region := PrintAll(Elems(x.items)) + x.tail;
    HeadDecodes(x.head, [0, 4] + region, id);
    ElementsOfPrint(Elems(x.items), x.tail);
    var f := Frame(Encode(x), id);
    assert f.p[f.HdrLen() + 2..] == f.p[f.HdrLen()..][2..] == region;
  }

  lemma {:induction false} ClassOfItems(items: seq<Item>)
    requires forall i :: 0 <= i < |items| ==> ItemOk(items[i])
    ensures ReadAll(Elems(items)).opClass == LastClass(items)
  {
    if items == [] {
    } else {
      var f := items[..|items| - 1];
      ClassOfItems(f);
      assert Elems(items)[..|items| - 1] == Elems(f);
    }
  }

  lemma {:induction false} NothingAnnounced(items: seq<Item>)
    requires forall i :: 0 <= i < |items| ==> ItemOk(items[i]) && items[i].Other?
    ensures !ReadAll(Elems(items)).found
  {
    if items == [] {
    } else {
      var f := items[..|items| - 1];
      NothingAnnounced(f);
      assert Elems(items)[..|items| - 1] == Elems(f);
    }
  }

  /** A frame without an announcing element records nothing. */
  lemma SilentFrame(x: Wire, id: nat, now: int)
    requires OnAir(x) && forall i :: 0 <= i < |x.items| ==> x.items[i].Other?
    ensures Observations(Frame(Encode(x), id), now) == []
  {
    hide Encode, ReadAll, Elems, CategoryOf, Elements;
    ReadsItems(x, id);
    NothingAnnounced(x.items);
  }

  lemma ElemsAround(pre: seq<Item>, a: Item, post: seq<Item>)
    ensures Elems(pre + [a] + post) == Elems(pre) + [ElemOf(a)] + Elems(post)
  {
    hide ElemOf;
  }

  lemma AnnouncingElem(a: Item)
    requires ItemOk(a) && !a.Other?
    ensures var (e, b) := (ElemOf(a), ElemOf(a).body);
            && IsAnnouncement(e) && (e.tag == 37 <==> a.Plain?)
            && (if a.Plain? then b[0] == a.mode && b[1] == a.channel && b[2] == a.count
                else b[0] == a.mode && b[1] == a.opClass && b[2] == a.channel && b[3] == a.count)
  {
  }

  lemma OthersAnnounceNothing(items: seq<Item>)
    requires forall i :: 0 <= i < |items| ==> ItemOk(items[i]) && items[i].Other?
    ensures forall i :: 0 <= i < |Elems(items)| ==> !IsAnnouncement(Elems(items)[i])
  {
  }

  lemma ReadsLast(pre: seq<Item>, a: Item, post: seq<Item>)
    requires (forall i :: 0 <= i < |pre| ==> ItemOk(pre[i])) && ItemOk(a) && !a.Other?
    requires forall i :: 0 <= i < |post| ==> ItemOk(post[i]) && post[i].Other?
    ensures ReadAll(Elems(pre + [a] + post)) ==
            Announced(true, a.mode, a.channel, a.count, if a.Extended? then a.opClass else LastClass(pre))
  {
    hide ReadAll, LastClass, Elems, ElemOf, IsAnnouncement, ItemOk;
    ClassOfItems(pre);
    ElemsAround(pre, a, post);
    AnnouncingElem(a);
    OthersAnnounceNothing(post);
    LastAnnouncementWins(Elems(pre), ElemOf(a), Elems(post));
  }

  /** One that announces records its last announcement, whatever follows that: addr3 as
      the BSS, addr2 as the transmitter, the channel if it is one, the operating class
      the announcement's own or the one an earlier element named. */
  lemma LastItemIsStored(x: Wire, pre: seq<Item>, a: Item, post: seq<Item>, id: nat, now: int)
    requires OnAir(x) && x.items == pre + [a] + post && !a.Other?
    requires forall i :: 0 <= i < |post| ==> post[i].Other?
    ensures Observations(Frame(Encode(x), id), now) ==
            if a.channel == 0 || a.channel > 233 then []
            else [Event(x.head.bssid, x.head.sa, if a.Extended? then a.opClass else LastClass(pre), a.channel,
                        if a.mode == 0 then 0 else 1, a.count, 2, 0, now)]
  {
    hide Encode, ReadAll, Elems, CategoryOf, Elements, LastClass, ItemOk;
    ReadsItems(x, id);
    assert pre == x.items[..|pre|] && post == x.items[|pre| + 1..] && a == x.items[|pre|];
    ReadsLast(pre, a, post);
  }

  /** The beacon path stores its arguments as they are, where they fit an octet. */
  lemma ArgumentsAreStored(bssid: Mac, ta: Option<Mac>, channel: int, opClass: Byte, mode: int, count: Byte,
                           source: Byte, fromChannel: Byte, now: int)
    ensures Accept(bssid, ta, channel, opClass, mode, count, source, fromChannel, now) ==
            if !(1 <= channel <= 233) then []
            else [Event(bssid, match ta { case Some(t) => t case None => bssid }, opClass, channel,
                        if mode == 0 then 0 else 1, count, source, fromChannel, now)]
  {
  }
}
