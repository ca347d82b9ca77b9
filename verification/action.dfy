/** The Action-frame observer: one dispatcher feeding five detectors, and what a
    whole capture leaves in each of them. */
module Action {
  import opened Wrappers
  import opened Seqs
  import opened Rings
  import opened Lru
  import opened Dot11
  import Saq = SaQuery
  import Mfp
  import Csa
  import Rrm
  import Btm
  import BtmRequest
  import CsaWire
  import RrmWire

  /** What reaches the module: a captured frame, with the protection its BSS's
      beacon advertises (2: required), or an announcement read from a beacon. */
  datatype Input =
    | Captured(f: Frame, now: int, mfp: int)
    | Announced(bssid: Mac, ta: Option<Mac>, channel: int, opClass: int, mode: int, count: int,
                source: int, fromChannel: int, at: int)

  function CategoryIn(x: Input): Category {
    match x
    case Captured(f, _, _) => CategoryOf(f)
    case _ => NotAction
  }

  function ReadableInput(): Input -> bool { (x: Input) => CategoryIn(x).Readable? }
  function Protected(): Input -> bool { (x: Input) => CategoryIn(x).Ciphertext? }
  function Recognised(): Input -> bool { (x: Input) => !CategoryIn(x).NotAction? }
  function InCategory(c: Byte): Input -> bool {
    (x: Input) => CategoryIn(x).Readable? && CategoryIn(x).cat == c
  }

  // ----- The observations each detector owes to one input -------------------

  /** The station is whichever address is not the BSSID. */
  function Station(f: Frame): Mac
    requires |f.p| >= 24
  {
    if f.Ta() == f.Bssid() then f.Da() else f.Ta()
  }

  function SaqOf(): Input -> seq<Saq.SaqObs> {
    (x: Input) =>
      if CategoryIn(x).Readable? && CategoryIn(x).cat == CAT_SA_QUERY && !IsGroup(Station(x.f))
      then [Obs(Pair(x.f.Bssid(), Station(x.f)), x.now, x.f.eventId)] else []
  }

  function MfpOf(): Input -> seq<Mfp.MfpObs> {
    (x: Input) =>
      if CategoryIn(x).Readable? && Mfp.IsRobust(CategoryIn(x).cat) && !IsGroup(x.f.Da()) && x.mfp == 2
      then [Obs(x.f.Bssid(), x.now, CategoryIn(x).cat)] else []
  }

  function CsaOf(): Input -> seq<Csa.Event> {
    (x: Input) =>
      match x
      case Captured(f, now, _) => Csa.Observations(f, now)
      case Announced(bssid, ta, ch, op, mode, count, source, from, at) =>
        Csa.Accept(bssid, ta, ch, op, mode, count, source, from, at)
  }

  function RrmOf(): Input -> seq<Rrm.RrmObs> {
    (x: Input) => if x.Captured? then Rrm.Observations(x.f, x.now) else []
  }

  function BtmOf(): Input -> seq<Btm.BtmObs> {
    (x: Input) => if x.Captured? then Btm.Observations(x.f, x.now) else []
  }

  /** The log a detector accumulates over a capture. */
  function Gather<T>(xs: seq<Input>, g: Input -> seq<T>): seq<T> {
    if xs == [] then [] else Gather(xs[..|xs| - 1], g) + g(xs[|xs| - 1])
  }

  lemma GatherPush<T>(xs: seq<Input>, x: Input, g: Input -> seq<T>)
    ensures Gather(xs + [x], g) == Gather(xs, g) + g(x)
  {
    assert (xs + [x])[..|xs|] == xs;
  }

  ghost predicate Separate(os: seq<object>) {
    forall i, j :: 0 <= i < j < |os| ==> os[i] != os[j]
  }

  class Snoop {
    const perCategory: array<nat>
    var total: nat
    var protected: nat
    const saq: Saq.SaqTable
    const mfp: Mfp.MfpTable
    const csa: Csa.EventRing
    const rrm: Rrm.RrmTable
    const btm: Btm.Steering
    ghost var capture: seq<Input>
    /** How much of the capture came before the counters were last cleared. */
    ghost var cleared: nat

    /** The objects the module keeps are separate. */
    ghost predicate Apart() {
      && Separate([saq as object, mfp as object, rrm as object, btm.table as object, csa as object, btm as object])
      && Separate([saq.rows as object, mfp.rows as object, rrm.rows as object, btm.table.rows as object,
                   csa.slots as object, btm.ring as object, perCategory as object])
    }

    ghost predicate Parts()
      reads saq, saq.rows, mfp, mfp.rows, csa, csa.slots, rrm, rrm.rows,
            btm, btm.ring, btm.table, btm.table.rows
    {
      Saq.IsSaq(saq) && Mfp.IsMfp(mfp) && csa.Valid() && Rrm.IsRrm(rrm) && btm.Valid()
    }

    ghost predicate Logged(xs: seq<Input>)
      reads saq, mfp, csa, rrm, btm, btm.table
    {
      && saq.log == Gather(xs, SaqOf()) && mfp.log == Gather(xs, MfpOf()) && csa.log == Gather(xs, CsaOf())
      && rrm.log == Gather(xs, RrmOf())
      && btm.ringLog == Gather(xs, BtmOf()) && btm.table.log == Gather(xs, BtmOf())
    }

    ghost predicate Counted(xs: seq<Input>)
      reads this`total, this`protected, perCategory
    {
      && perCategory.Length == 256
      && total == Count(xs, ReadableInput()) && protected == Count(xs, Protected())
      && forall c: Byte :: perCategory[c] == Count(xs, InCategory(c))
    }

    ghost predicate Valid()
      reads this, perCategory, saq, saq.rows, mfp, mfp.rows, csa, csa.slots, rrm, rrm.rows,
            btm, btm.ring, btm.table, btm.table.rows
    {
      Apart() && Parts() && Logged(capture) && cleared <= |capture| && Counted(capture[cleared..])
    }

    /** The module at program start: zeroed counters around empty detectors. */
    constructor (saq: Saq.SaqTable, mfp: Mfp.MfpTable, csa: Csa.EventRing, rrm: Rrm.RrmTable, btm: Btm.Steering)
      requires Saq.IsSaq(saq) && Mfp.IsMfp(mfp) && csa.Valid() && Rrm.IsRrm(rrm) && btm.Valid()
      requires saq.log == [] && mfp.log == [] && csa.log == [] && rrm.log == [] && btm.ringLog == [] && btm.table.log == []
      ensures Valid() && capture == [] && cleared == 0
    {
      hide Csa.EventRing.Valid, Rrm.IsRrm, Btm.Steering.Valid, Saq.IsSaq, Mfp.IsMfp;
      perCategory := new nat[256](_ => 0);
      total, protected, capture, cleared := 0, 0, [], 0;
      this.saq, this.mfp, this.csa, this.rrm, this.btm := saq, mfp, csa, rrm, btm;
    }

    static method Start() returns (s: Snoop)
      ensures s.Valid() && s.capture == [] && s.cleared == 0
    {
      hide Csa.EventRing.Valid, Rrm.IsRrm, Btm.Steering.Valid, Saq.IsSaq, Mfp.IsMfp;
      var saq := Saq.NewTable();
      var mfp := Mfp.NewTable();
      var csa := new Csa.EventRing();
      var rrm := Rrm.NewTable();
      var btm := new Btm.Steering();
      s := new Snoop(saq, mfp, csa, rrm, btm);
    }

    /** The three counters, under their one lock. */
    method Tally(f: Frame, ghost xs: seq<Input>, ghost x: Input)
      requires Counted(xs) && x.Captured? && x.f == f
      modifies this`total, this`protected, perCategory
      ensures Counted(xs + [x])
    {
      hide Filter;
      FilterPush(xs, x, ReadableInput());
      FilterPush(xs, x, Protected());
      forall c: Byte ensures Count(xs + [x], InCategory(c)) == Count(xs, InCategory(c)) + if InCategory(c)(x) then 1 else 0 {
        FilterPush(xs, x, InCategory(c));
      }
      match CategoryOf(f)
      case NotAction =>
      case Ciphertext =>
        protected := protected + 1;
      case Readable(cat, _) =>
        perCategory[cat] := perCategory[cat] + 1;
        total := total + 1;
    }

    /** An unprotected, individually addressed robust frame where protection is required. */
    method NoteViolation(f: Frame, cat: Byte, now: int, required: int)
      requires Mfp.IsMfp(mfp) && CategoryOf(f).Readable? && CategoryOf(f).cat == cat
      modifies mfp, mfp.rows
      ensures Mfp.IsMfp(mfp) && mfp.log == old(mfp.log) + MfpOf()(Captured(f, now, required))
    {
      if Mfp.IsRobust(cat) && !IsGroup(f.Da()) && required == 2 {
        mfp.Observe(Obs(f.Bssid(), now, cat));
      }
    }

    method NoteSaQuery(f: Frame, cat: Byte, now: int, ghost required: int)
      requires Saq.IsSaq(saq) && CategoryOf(f).Readable? && CategoryOf(f).cat == cat
      modifies saq, saq.rows
      ensures Saq.IsSaq(saq) && saq.log == old(saq.log) + SaqOf()(Captured(f, now, required))
    {
      if cat == CAT_SA_QUERY {
        var sta := if f.Ta() == f.Bssid() then f.Da() else f.Ta();
        if !IsGroup(sta) { saq.Observe(Obs(Pair(f.Bssid(), sta), now, f.eventId)); }
      }
    }

    /** At most one of the three deep parsers sees the frame. */
    method DeepParse(f: Frame, cat: Byte, action: Byte, now: int, ghost required: int)
      requires csa.Valid() && Rrm.IsRrm(rrm) && btm.Valid() && CategoryOf(f) == Readable(cat, action)
      modifies csa, csa.slots, rrm, rrm.rows, btm, btm.ring, btm.table, btm.table.rows
      ensures csa.Valid() && Rrm.IsRrm(rrm) && btm.Valid()
      ensures var x := Captured(f, now, required);
              && csa.log == old(csa.log) + CsaOf()(x) && rrm.log == old(rrm.log) + RrmOf()(x)
              && btm.ringLog == old(btm.ringLog) + BtmOf()(x) && btm.table.log == old(btm.table.log) + BtmOf()(x)
    {
      hide Csa.EventRing.Valid, Rrm.IsRrm, Btm.Steering.Valid, Csa.Observations, Rrm.Observations, Btm.Observations;
      OneParser(Captured(f, now, required));
      if cat == CAT_SPECTRUM && action == Csa.ACT_CHANNEL_SWITCH {
        var _ := csa.ObserveFrame(f, now);
      } else if cat == CAT_RRM {
        var _ := Rrm.ObserveFrame(rrm, f, now);
      } else if cat == CAT_WNM && action == BtmRequest.ACT_BTM_REQUEST {
        btm.ObserveFrame(f, now);
      }
    }

    /** Each detector's log grows by its observations of the frame. */
    ghost predicate Grown(x: Input, saqLog: seq<Saq.SaqObs>, mfpLog: seq<Mfp.MfpObs>, csaLog: seq<Csa.Event>,
                          rrmLog: seq<Rrm.RrmObs>, ringLog: seq<Btm.BtmObs>, rowLog: seq<Btm.BtmObs>)
      reads saq, mfp, csa, rrm, btm, btm.table
    {
      && saq.log == saqLog + SaqOf()(x) && mfp.log == mfpLog + MfpOf()(x) && csa.log == csaLog + CsaOf()(x)
      && rrm.log == rrmLog + RrmOf()(x) && btm.ringLog == ringLog + BtmOf()(x) && btm.table.log == rowLog + BtmOf()(x)
    }

    method Dispatch(f: Frame, now: int, required: int)
      requires Apart() && Parts()
      modifies saq, saq.rows, mfp, mfp.rows, csa, csa.slots, rrm, rrm.rows, btm, btm.ring, btm.table, btm.table.rows
      ensures Parts()
      ensures Grown(Captured(f, now, required), old(saq.log), old(mfp.log), old(csa.log),
                    old(rrm.log), old(btm.ringLog), old(btm.table.log))
    {
      hide Csa.EventRing.Valid, Rrm.IsRrm, Btm.Steering.Valid, Saq.IsSaq, Mfp.IsMfp, CategoryOf, SaqOf, MfpOf, CsaOf, RrmOf, BtmOf;
      OneParser(Captured(f, now, required));
      var c := CategoryOf(f);
      if !c.Readable? { return; }
      NoteViolation(f, c.cat, now, required);
      NoteSaQuery(f, c.cat, now, required);
      DeepParse(f, c.cat, c.action, now, required);
    }

    /** `action_observe_frame`. Every counter, table and ring ends up holding what
        the extended capture says it should. */
    method ObserveFrame(f: Frame, now: int, required: int)
      requires Valid()
      modifies this, perCategory, saq, saq.rows, mfp, mfp.rows, csa, csa.slots, rrm, rrm.rows,
               btm, btm.ring, btm.table, btm.table.rows
      ensures Valid() && capture == old(capture) + [Captured(f, now, required)] && cleared == old(cleared)
    {
      hide Parts, Gather, Filter;
      ghost var x := Captured(f, now, required);
      LoggedPush(capture, x);
      assert (capture + [x])[cleared..] == capture[cleared..] + [x];
      Tally(f, capture[cleared..], x);
      Dispatch(f, now, required);
      capture := capture + [x];
    }

    /** The beacon and probe-response path into the announcement ring. */
    method ObserveAnnouncement(bssid: Mac, ta: Option<Mac>, channel: int, opClass: int, mode: int, count: int,
                               source: int, fromChannel: int, at: int)
      requires Valid()
      modifies this, csa, csa.slots
      ensures Valid()
      ensures capture == old(capture) + [Announced(bssid, ta, channel, opClass, mode, count, source, fromChannel, at)]
      ensures cleared == old(cleared)
    {
      hide Csa.EventRing.Valid, Rrm.IsRrm, Btm.Steering.Valid, Saq.IsSaq, Mfp.IsMfp, Gather, Filter;
      ghost var x := Announced(bssid, ta, channel, opClass, mode, count, source, fromChannel, at);
      LoggedPush(capture, x);
      assert (capture + [x])[cleared..] == capture[cleared..] + [x];
      NotCounted(capture[cleared..], x);
      csa.Observe(bssid, ta, channel, opClass, mode, count, source, fromChannel, at);
      capture := capture + [x];
    }

    /** `action_clear`: the counters start again, the detectors keep what they hold. */
    method Clear()
      requires Valid()
      modifies this`total, this`protected, this`cleared, perCategory
      ensures Valid() && capture == old(capture) && cleared == |capture|
    {
      hide Parts, Gather, Filter;
      NothingCounted();
      forall c | 0 <= c < 256 { perCategory[c] := 0; }
      total, protected, cleared := 0, 0, |capture|;
      assert capture[cleared..] == [];
    }
  }

  lemma NothingCounted()
    ensures Count<Input>([], ReadableInput()) == 0 && Count<Input>([], Protected()) == 0
    ensures forall c: Byte :: Count<Input>([], InCategory(c)) == 0
  {
  }

  lemma NotCounted(xs: seq<Input>, x: Input)
    requires x.Announced?
    ensures Count(xs + [x], ReadableInput()) == Count(xs, ReadableInput())
    ensures Count(xs + [x], Protected()) == Count(xs, Protected())
    ensures forall c: Byte :: Count(xs + [x], InCategory(c)) == Count(xs, InCategory(c))
  {
    FilterPush(xs, x, ReadableInput());
    FilterPush(xs, x, Protected());
    forall c: Byte ensures Count(xs + [x], InCategory(c)) == Count(xs, InCategory(c)) {
      FilterPush(xs, x, InCategory(c));
    }
  }

  lemma LoggedPush(xs: seq<Input>, x: Input)
    ensures Gather(xs + [x], SaqOf()) == Gather(xs, SaqOf()) + SaqOf()(x)
    ensures Gather(xs + [x], MfpOf()) == Gather(xs, MfpOf()) + MfpOf()(x)
    ensures Gather(xs + [x], CsaOf()) == Gather(xs, CsaOf()) + CsaOf()(x)
    ensures Gather(xs + [x], RrmOf()) == Gather(xs, RrmOf()) + RrmOf()(x)
    ensures Gather(xs + [x], BtmOf()) == Gather(xs, BtmOf()) + BtmOf()(x)
  {
    GatherPush(xs, x, SaqOf());
    GatherPush(xs, x, MfpOf());
    GatherPush(xs, x, CsaOf());
    GatherPush(xs, x, RrmOf());
    GatherPush(xs, x, BtmOf());
  }

  /** A frame whose body cannot be read, or is none, feeds no detector; one that can
      feeds at most one of the three deep parsers. */
  lemma OneParser(x: Input)
    requires x.Captured?
    ensures !CategoryIn(x).Readable? ==>
              SaqOf()(x) == [] && MfpOf()(x) == [] && CsaOf()(x) == [] && RrmOf()(x) == [] && BtmOf()(x) == []
    ensures CsaOf()(x) != [] ==> CategoryIn(x) == Readable(CAT_SPECTRUM, Csa.ACT_CHANNEL_SWITCH)
    ensures RrmOf()(x) != [] ==> CategoryIn(x).Readable? && CategoryIn(x).cat == CAT_RRM
    ensures BtmOf()(x) != [] ==> CategoryIn(x) == Readable(CAT_WNM, BtmRequest.ACT_BTM_REQUEST)
  {
  }

  // ----- What a capture amounts to -----------------------------------------

  function SumTo(xs: seq<Input>, n: nat): nat
    requires n <= 256
  {
    if n == 0 then 0 else SumTo(xs, n - 1) + Count(xs, InCategory(n - 1))
  }

  lemma {:induction false} SumPush(xs: seq<Input>, x: Input, n: nat)
    requires n <= 256
    ensures SumTo(xs + [x], n) == SumTo(xs, n) + if CategoryIn(x).Readable? && CategoryIn(x).cat < n then 1 else 0
  {
    if n == 0 {
    } else {
      SumPush(xs, x, n - 1);
      FilterPush(xs, x, InCategory(n - 1));
    }
  }

  lemma {:induction false} SumEmpty(n: nat)
    requires n <= 256
    ensures SumTo([], n) == 0
  {
    if n == 0 {
    } else {
      SumEmpty(n - 1);
    }
  }

  /** Nothing read is lost or counted twice: the 256 category counters sum to the
      total, and with the protected tally to every Action frame recognised. */
  lemma {:induction false} CountersAddUp(xs: seq<Input>)
    ensures SumTo(xs, 256) == Count(xs, ReadableInput())
    ensures Count(xs, ReadableInput()) + Count(xs, Protected()) == Count(xs, Recognised())
  {
    if xs == [] {
      SumEmpty(256);
    } else {
      var (p, x) := (xs[..|xs| - 1], xs[|xs| - 1]);
      assert p + [x] == xs;
      CountersAddUp(p);
      SumPush(p, x, 256);
      FilterPush(p, x, ReadableInput());
      FilterPush(p, x, Protected());
      FilterPush(p, x, Recognised());
    }
  }

  /** Counting in a gathered log is counting in the capture, when each input makes
      at most one observation. */
  lemma {:induction false} GatherCount<T(!new)>(xs: seq<Input>, g: Input -> seq<T>, p: T -> bool, q: Input -> bool)
    requires forall x :: |g(x)| <= 1 && q(x) == (g(x) != [] && p(g(x)[0]))
    ensures Count(Gather(xs, g), p) == Count(xs, q)
  {
    if xs == [] {
    } else {
      var (f, x) := (xs[..|xs| - 1], xs[|xs| - 1]);
      GatherCount(f, g, p, q);
      if g(x) == [] {
        assert Gather(xs, g) == Gather(f, g);
      } else {
        assert g(x) == [g(x)[0]];
        FilterPush(Gather(f, g), g(x)[0], p);
      }
    }
  }

  /** A captured, readable SA Query frame of the pair inside the window: sent by the
      station, or by the AP to it. */
  function SaQueryFrame(pair: Pair, now: int, w: int): Input -> bool {
    (x: Input) =>
      && x.Captured? && CategoryOf(x.f).Readable? && CategoryOf(x.f).cat == 8
      && x.f.Bssid() == pair.bssid && pair.sta[0] % 2 == 0
      && (if x.f.Ta() == pair.bssid then x.f.Da() == pair.sta else x.f.Ta() == pair.sta)
      && now - x.now <= w && now >= x.now
  }

  /** Both directions of one exchange count for the station. */
  lemma BothDirectionsOnePair(f: Frame, g: Frame, ap: Mac, sta: Mac, now: int, later: int, mfp: int)
    requires CategoryOf(f).Readable? && CategoryOf(f).cat == 8 && CategoryOf(g).Readable? && CategoryOf(g).cat == 8
    requires f.Bssid() == ap && f.Ta() == ap && f.Da() == sta
    requires g.Bssid() == ap && g.Ta() == sta && g.Da() == ap
    requires sta != ap && sta[0] % 2 == 0
    ensures SaqOf()(Captured(f, now, mfp)) == [Obs(Pair(ap, sta), now, f.eventId)]
    ensures SaqOf()(Captured(g, later, mfp)) == [Obs(Pair(ap, sta), later, g.eventId)]
  {
  }

  /** A frame the SA Query detector has nothing to record of. */
  lemma NoStation(f: Frame, now: int, mfp: int)
    requires !CategoryOf(f).Readable? || CategoryOf(f).cat != 8
             || (if f.Ta() == f.Bssid() then f.Da() else f.Ta())[0] % 2 == 1
    ensures SaqOf()(Captured(f, now, mfp)) == []
  {
  }

  /** A BTM Request on the air, from the pair's AP to its station, with the
      Disassociation Imminent bit. */
  ghost predicate Expels(f: Frame, pair: Pair) {
    exists x: BtmRequest.Wire :: BtmRequest.OnAir(x) && f.p == BtmRequest.Encode(x)
                                 && x.head.bssid == pair.bssid && x.head.da == pair.sta && x.imminent
  }

  /** Neither a group address nor all zeros. */
  predicate Individual(m: Mac) { m[0] % 2 == 0 && m != [0, 0, 0, 0, 0, 0] }

  /** A captured BTM Request forcing the pair inside the window. */
  ghost function ForcingFrame(pair: Pair, now: int, w: int): Input -> bool {
    (x: Input) =>
      && x.Captured? && Expels(x.f, pair) && Individual(pair.bssid) && Individual(pair.sta)
      && x.now != 0 && now - x.now <= w
  }

  lemma ExpelsIs(f: Frame, pair: Pair)
    ensures Expels(f, pair) <==>
            var r := BtmRequest.Parse(f);
            r.Some? && r.value.bssid == pair.bssid && r.value.sta == pair.sta && BtmRequest.IsImminent(r.value.mode)
  {
    hide BtmRequest.Parse, BtmRequest.Encode, BtmRequest.IsImminent, BtmRequest.ModeOctet;
    if x: BtmRequest.Wire :| BtmRequest.OnAir(x) && f.p == BtmRequest.Encode(x)
                             && x.head.bssid == pair.bssid && x.head.da == pair.sta && x.imminent {
      BtmRequest.ParseOfEncode(x, f.eventId);
      assert f == Frame(BtmRequest.Encode(x), f.eventId);
    }
    if BtmRequest.Parse(f).Some? {
      var x := BtmRequest.EncodeOfParse(f);
      BtmRequest.ParseOfEncode(x, f.eventId);
      assert f == Frame(BtmRequest.Encode(x), f.eventId);
    }
  }

  /** The dispatcher's observation of a frame forces a pair exactly if the frame does. */
  lemma ForcingIs(x: Input, pair: Pair, now: int, w: int)
    ensures ForcingFrame(pair, now, w)(x) <==> BtmOf()(x) != [] && Btm.Forces(pair, now, w)(Btm.EvtOf()(BtmOf()(x)[0]))
    ensures |BtmOf()(x)| <= 1
  {
    hide Expels, BtmRequest.Parse, BtmRequest.IsImminent;
    if x.Captured? { ExpelsIs(x.f, pair); }
  }

  lemma SaqCountsFrames(xs: seq<Input>, pair: Pair, now: int, w: int)
    ensures Saq.Naive(Gather(xs, SaqOf()), pair, now, w) == Count(xs, SaQueryFrame(pair, now, w))
  {
    hide Gather, Filter, CategoryOf;
    var log := Gather(xs, SaqOf());
    var p := (o: Saq.SaqObs) => o.key == pair && now - o.ts <= w && now >= o.ts;
    FilterMap(OfKey(log, pair), Saq.StampOf(), Saq.InWindow(now, w), Saq.ObsInWindow(now, w));
    FilterTwice(log, ByKey(pair), Saq.ObsInWindow(now, w), p);
    GatherCount(xs, SaqOf(), p, SaQueryFrame(pair, now, w));
  }

  /** From the air to the verdict: with a non-decreasing clock and enough kept of every
      pair (as while no more than 64 are active in a window), the SA Query detector
      fires exactly when some pair has `thresh` readable SA Query frames in the
      capture's window. */
  lemma FloodVerdictOnCapture(xs: seq<Input>, now: int, w: int, thresh: int, best: nat, who: Option<Pair>)
    requires var log := Gather(xs, SaqOf());
             && Ordered(log) && (log != [] ==> log[|log| - 1].ts <= now)
             && forall p :: Saq.Suffices(log, p, now, w)
    requires 0 < thresh <= 48
    requires Saq.Busiest(Gather(xs, SaqOf()), now, w, best, who)
    ensures best >= thresh <==> exists p :: Count(xs, SaQueryFrame(p, now, w)) >= thresh
  {
    hide Gather, Filter, Saq.Suffices;
    var log := Gather(xs, SaqOf());
    Saq.FloodFiresExactly(log, now, w, thresh, best, who);
    forall p ensures Saq.Naive(log, p, now, w) == Count(xs, SaQueryFrame(p, now, w)) {
      SaqCountsFrames(xs, p, now, w);
    }
    if best >= thresh {
      var p :| Saq.Naive(log, p, now, w) >= thresh;
      assert Count(xs, SaQueryFrame(p, now, w)) >= thresh;
    }
    if p :| Count(xs, SaQueryFrame(p, now, w)) >= thresh {
      assert Saq.Naive(log, p, now, w) >= thresh;
    }
  }

  lemma BtmCountsFrames(xs: seq<Input>, pair: Pair, now: int, w: int)
    ensures Btm.Forced(Map(Gather(xs, BtmOf()), Btm.EvtOf()), pair, now, w) == Count(xs, ForcingFrame(pair, now, w))
  {
    hide Gather, Filter, Btm.Observations, ForcingFrame;
    var log := Gather(xs, BtmOf());
    var p := (o: Btm.BtmObs) => Btm.Forces(pair, now, w)(Btm.EvtOf()(o));
    FilterMap(log, Btm.EvtOf(), Btm.Forces(pair, now, w), p);
    forall x ensures |BtmOf()(x)| <= 1 && ForcingFrame(pair, now, w)(x) == (BtmOf()(x) != [] && p(BtmOf()(x)[0])) {
      ForcingIs(x, pair, now, w);
    }
    GatherCount(xs, BtmOf(), p, ForcingFrame(pair, now, w));
  }

  /** Likewise for steering: with every imminent request in the window among the newest
      256 accepted, the count reported is the largest number of forcing requests any
      pair was sent, as the frames themselves show, if that reaches the threshold. */
  lemma ForcingVerdictOnCapture(xs: seq<Input>, now: int, w: int, thresh: int, best: nat, total: nat, who: Option<Pair>)
    requires var events := Map(Gather(xs, BtmOf()), Btm.EvtOf());
             && Btm.ImminentAreNewest(events, now, w)
             && Btm.Answer(Last(events, Btm.RING), now, w, thresh, best, total, who)
    ensures who.Some? ==> Count(xs, ForcingFrame(who.value, now, w)) == best >= thresh
    ensures forall p :: Count(xs, ForcingFrame(p, now, w)) >= thresh ==> Count(xs, ForcingFrame(p, now, w)) <= best
  {
    hide Gather, Filter, Btm.Forced;
    var events := Map(Gather(xs, BtmOf()), Btm.EvtOf());
    Btm.ForcedExactIff(events, now, w);
    forall p ensures Btm.Forced(events, p, now, w) == Count(xs, ForcingFrame(p, now, w)) {
      BtmCountsFrames(xs, p, now, w);
    }
  }

  // ----- What is cited of a capture ------------------------------------------

  function FrameId(): Input -> nat { (x: Input) => if x.Captured? then x.f.eventId else 0 }

  lemma {:induction false} GatherIds<T(!new)>(xs: seq<Input>, g: Input -> seq<T>, p: T -> bool, q: Input -> bool, id: T -> nat)
    requires forall x :: |g(x)| <= 1 && q(x) == (g(x) != [] && p(g(x)[0]))
    requires forall x :: g(x) != [] ==> id(g(x)[0]) == FrameId()(x)
    ensures Map(Filter(Gather(xs, g), p), id) == Map(Filter(xs, q), FrameId())
  {
    if xs == [] {
    } else {
      var (f, x) := (xs[..|xs| - 1], xs[|xs| - 1]);
      GatherIds(f, g, p, q, id);
      assert f + [x] == xs;
      FilterPush(f, x, q);
      if g(x) == [] {
        assert Gather(xs, g) == Gather(f, g);
        assert Filter(xs, q) == Filter(f, q);
      } else {
        assert g(x) == [g(x)[0]];
        FilterPush(Gather(f, g), g(x)[0], p);
        MapPush(Filter(Gather(f, g), p), g(x)[0], id);
        MapPush(Filter(f, q), x, FrameId());
        assert !q(x) ==> Filter(xs, q) == Filter(f, q);
      }
    }
  }

  lemma MapPush<T, U>(s: seq<T>, x: T, f: T -> U)
    ensures Map(s + [x], f) == Map(s, f) + [f(x)]
  {
  }

  lemma LastMap<T, U>(s: seq<T>, n: nat, f: T -> U)
    ensures Last(Map(s, f), n) == Map(Last(s, n), f)
  {
  }

  /** The SA Query citation, over its newest 48 counted frames, is the retained IDs of
      the very frames of the capture that count, oldest first. */
  lemma FloodEvidenceOnCapture(xs: seq<Input>, pair: Pair, now: int, w: int)
    requires var log := Gather(xs, SaqOf());
             Ordered(log) && (log != [] ==> log[|log| - 1].ts <= now) && Saq.Suffices(log, pair, now, w)
    ensures Ids(Saq.Retained(Gather(xs, SaqOf()), pair), Saq.InWindow(now, w), Saq.EventId()) ==
            Filter(Last(Map(Filter(xs, SaQueryFrame(pair, now, w)), FrameId()), Saq.RING), NonZero())
  {
    hide Gather, Filter, Saq.Suffices, Saq.Retained, CategoryOf;
    var log := Gather(xs, SaqOf());
    Saq.EvidenceIsExact(log, pair, now, w);
    var p := (o: Saq.SaqObs) => o.key == pair && now - o.ts <= w && now >= o.ts;
    var id := (o: Saq.SaqObs) => o.what;
    FilterMap(OfKey(log, pair), Saq.StampOf(), Saq.InWindow(now, w), Saq.ObsInWindow(now, w));
    FilterTwice(log, ByKey(pair), Saq.ObsInWindow(now, w), p);
    GatherIds(xs, SaqOf(), p, SaQueryFrame(pair, now, w), id);
    var stamps := Filter(Saq.Stamps(log, pair), Saq.InWindow(now, w));
    assert Map(stamps, Saq.EventId()) == Map(Filter(log, p), id);
    LastMap(stamps, Saq.RING, Saq.EventId());
  }

  /** And the steering citation those of the frames that force the pair. */
  lemma ForcingEvidenceOnCapture(xs: seq<Input>, pair: Pair, now: int, w: int)
    requires Btm.ImminentAreNewest(Map(Gather(xs, BtmOf()), Btm.EvtOf()), now, w)
    ensures Ids(Last(Map(Gather(xs, BtmOf()), Btm.EvtOf()), Btm.RING), Btm.Forces(pair, now, w), Btm.EventId()) ==
            Ids(xs, ForcingFrame(pair, now, w), FrameId())
  {
    hide Gather, Filter, ForcingFrame, Btm.Observations, Btm.ImminentAreNewest;
    var events := Map(Gather(xs, BtmOf()), Btm.EvtOf());
    var log := Gather(xs, BtmOf());
    Btm.ForcesAreNewest(events, pair, now, w);
    var p := (o: Btm.BtmObs) => Btm.Forces(pair, now, w)(Btm.EvtOf()(o));
    var id := (o: Btm.BtmObs) => o.what.eventId;
    FilterMap(log, Btm.EvtOf(), Btm.Forces(pair, now, w), p);
    forall x
      ensures |BtmOf()(x)| <= 1 && ForcingFrame(pair, now, w)(x) == (BtmOf()(x) != [] && p(BtmOf()(x)[0]))
      ensures BtmOf()(x) != [] ==> id(BtmOf()(x)[0]) == FrameId()(x)
    {
      ForcingIs(x, pair, now, w);
      BtmKeepsId(x);
    }
    GatherIds(xs, BtmOf(), p, ForcingFrame(pair, now, w), id);
    assert Map(Filter(events, Btm.Forces(pair, now, w)), Btm.EventId()) == Map(Filter(log, p), id);
  }

  lemma BtmKeepsId(x: Input)
    ensures BtmOf()(x) != [] ==> BtmOf()(x)[0].what.eventId == FrameId()(x)
  {
  }

  // ----- What reaches the other detectors ----------------------------------------

  /** The beacon path into the ring: a channel of 1 to 233, as announced. */
  lemma AnnouncementIsStored(bssid: Mac, ta: Option<Mac>, channel: int, opClass: Byte, mode: int, count: Byte,
                             source: Byte, fromChannel: Byte, at: int)
    ensures CsaOf()(Announced(bssid, ta, channel, opClass, mode, count, source, fromChannel, at)) ==
            if !(1 <= channel <= 233) then []
            else [Csa.Event(bssid, match ta { case Some(t) => t case None => bssid }, opClass, channel,
                            if mode == 0 then 0 else 1, count, source, fromChannel, at)]
  {
    CsaWire.ArgumentsAreStored(bssid, ta, channel, opClass, mode, count, source, fromChannel, at);
  }

  /** A Channel Switch frame stores its last announcement. */
  lemma SwitchIsStored(x: CsaWire.Wire, pre: seq<CsaWire.Item>, a: CsaWire.Item, post: seq<CsaWire.Item>,
                       id: nat, now: int, mfp: int)
    requires CsaWire.OnAir(x) && x.items == pre + [a] + post && !a.Other?
    requires forall i :: 0 <= i < |post| ==> post[i].Other?
    ensures CsaOf()(Captured(Frame(CsaWire.Encode(x), id), now, mfp)) ==
            if a.channel == 0 || a.channel > 233 then []
            else [Csa.Event(x.head.bssid, x.head.sa, if a.Extended? then a.opClass else CsaWire.LastClass(pre),
                            a.channel, if a.mode == 0 then 0 else 1, a.count, 2, 0, now)]
  {
    hide CsaWire.Encode, Csa.Observations, CsaWire.LastClass;
    CsaWire.LastItemIsStored(x, pre, a, post, id, now);
  }

  /** A Radio Measurement frame records its counted elements for its pair. */
  lemma MeasurementIsStored(x: RrmWire.Wire, id: nat, now: int, mfp: int)
    requires RrmWire.OnAir(x)
    ensures var obs := RrmOf()(Captured(Frame(RrmWire.Encode(x), id), now, mfp));
            var sta := if x.request then x.head.da else x.head.sa;
            var counted := RrmWire.Counted(x.request, x.items);
            if sta[0] % 2 == 1 || x.head.bssid[0] % 2 == 1 then obs == []
            else |obs| == |counted|
                 && forall i :: 0 <= i < |obs| ==> obs[i].key == Pair(x.head.bssid, sta) && obs[i].ts == now
                                                   && obs[i].what == counted[i]
  {
    hide RrmWire.Encode, RrmWire.Counted, Rrm.Observations;
    RrmWire.ObservationsOfEncode(x, id, now);
  }

  // ----- What each frame adds --------------------------------------------------

  /** An individually addressed frame of any category but Public, unprotected WNM and
      vendor, on a BSS whose beacon requires protection. */
  function ViolationFrame(bssid: Mac): Input -> bool {
    (x: Input) =>
      && x.Captured? && CategoryOf(x.f).Readable? && CategoryOf(x.f).cat !in {4, 11, 127}
      && x.f.Da()[0] % 2 == 0 && x.f.Bssid() == bssid && x.mfp == 2
  }

  /** A BSSID's logged violations are its offending frames. */
  lemma MfpCountsFrames(xs: seq<Input>, bssid: Mac)
    ensures |OfKey(Gather(xs, MfpOf()), bssid)| == Count(xs, ViolationFrame(bssid))
  {
    hide Gather, Filter, CategoryOf;
    GatherCount(xs, MfpOf(), ByKey(bssid), ViolationFrame(bssid));
  }

  /** What one captured frame adds to the counters, on its octets: a protected Action
      frame one to that tally and nothing else; a readable one to the total and its own
      category; any other nothing. */
  lemma EachCountsOnce(xs: seq<Input>, f: Frame, now: int, mfp: int)
    ensures var x := Captured(f, now, mfp);
            var action := |f.p| >= 2 && f.p[0] == 0xD0;
            var encrypted := action && f.p[1] / 64 % 2 == 1;
            var body := if action && f.p[1] >= 128 then 28 else 24;
            var readable := action && !encrypted && |f.p| >= body + 2;
            && Count(xs + [x], Protected()) == Count(xs, Protected()) + (if encrypted then 1 else 0)
            && Count(xs + [x], ReadableInput()) == Count(xs, ReadableInput()) + (if readable then 1 else 0)
            && forall c: Byte :: Count(xs + [x], InCategory(c)) == Count(xs, InCategory(c)) + if readable && f.p[body] == c then 1 else 0
  {
    hide Filter, CategoryOf;
    var x := Captured(f, now, mfp);
    CategoryOnOctets(f);
    FilterPush(xs, x, Protected());
    FilterPush(xs, x, ReadableInput());
    forall c: Byte ensures Count(xs + [x], InCategory(c)) == Count(xs, InCategory(c)) + if InCategory(c)(x) then 1 else 0 {
      FilterPush(xs, x, InCategory(c));
    }
  }
}
