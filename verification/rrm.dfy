/** 802.11k Radio Measurement: Beacon Requests and Reports per (BSSID, station). */
module Rrm {
  import opened Wrappers
  import opened Seqs
  import opened Lru
  import opened Sorting
  import opened Dot11

  const MAX_PAIRS: nat := 64

  datatype What =
    | Targeted(ssid: seq<Byte>, chan: Byte, mode: Byte)
    | Broadcast(chan: Byte, mode: Byte)
    | Report

  datatype Tally = Tally(targeted: nat, broadcast: nat, reports: nat,
                         lastSsid: seq<Byte>, lastChan: Byte, lastMode: Byte, firstSeen: int)

  type RrmObs = Obs<Pair, What>
  type RrmTable = Table<Pair, Tally, What>
  type RrmRow = Row<Pair, Tally>

  function Record(was: Option<Tally>, o: RrmObs): Tally {
    var t := if was.Some? then was.value else Tally(0, 0, 0, [], 0, 0, o.ts);
    match o.what
    case Targeted(ssid, chan, mode) =>
      t.(targeted := t.targeted + 1, lastSsid := ssid, lastChan := chan, lastMode := mode)
    case Broadcast(chan, mode) =>
      t.(broadcast := t.broadcast + 1, lastChan := chan, lastMode := mode)
    case Report =>
      t.(reports := t.reports + 1)
  }

  ghost predicate IsRrm(t: RrmTable)
    reads t, t.rows
  {
    t.Valid() && t.cap == MAX_PAIRS && t.upd == Record
  }

  method NewTable() returns (t: RrmTable)
    ensures IsRrm(t) && t.log == [] && fresh(t) && fresh(t.rows)
  {
    var zero := [0, 0, 0, 0, 0, 0];
    t := new Table(MAX_PAIRS, Record, Row(Pair(zero, zero), 0, Tally(0, 0, 0, [], 0, 0, 0)));
  }

  // ----- The frame walk ---------------------------------------------------

  const ELEM_MEAS_REQUEST: Byte := 38
  const ELEM_MEAS_REPORT: Byte := 39
  const MEAS_TYPE_BEACON: Byte := 5
  const ACT_REQUEST: Byte := 0
  const ACT_REPORT: Byte := 1

  /** `dot11_ie_ssid_copy`: at most 32 octets, up to the first NUL, with control
      octets replaced. */
  function SsidCopy(b: seq<Byte>): (r: seq<Byte>)
    ensures |r| <= 32 && forall i :: 0 <= i < |r| ==> r[i] >= 32 && r[i] != 127
  {
    Clean(if |b| <= 32 then b else b[..32])
  }

  function Clean(b: seq<Byte>): (r: seq<Byte>)
    ensures |r| <= |b| && forall i :: 0 <= i < |r| ==> r[i] >= 32 && r[i] != 127
  {
    if b == [] || b[0] == 0 then []
    else [if b[0] < 32 || b[0] == 127 then 63 else b[0]] + Clean(b[1..])
  }

  /** The subelements naming a network. */
  function Named(): Elem -> bool { (e: Elem) => e.tag == 0 && e.body != [] }

  /** Offset of the subelements inside a Beacon Request body (section 9.4.2.20.7). */
  const SUBELEMENTS: nat := 16

  /** Its subelement octets; none in a body too short to reach them. */
  function Subelements(b: seq<Byte>): seq<Byte> { if |b| >= SUBELEMENTS then b[SUBELEMENTS..] else [] }

  /** Whether an element is one the table records, and as what. */
  function Recognise(action: Byte, e: Elem): Option<What> {
    var b := e.body;
    if action == ACT_REPORT && e.tag == ELEM_MEAS_REPORT then Some(Report)
    else if action == ACT_REQUEST && e.tag == ELEM_MEAS_REQUEST && |b| >= 3 && b[2] == MEAS_TYPE_BEACON then
      var chan := if |b| >= 5 then b[4] else 0;
      var mode := if |b| >= 10 then b[9] else 0;
      match SsidAsked(Elements(Subelements(b)))
      case Some(ssid) => Some(Targeted(ssid, chan, mode))
      case None => Some(Broadcast(chan, mode))
    else None
  }

  /** The SSID kept: that of the last non-empty SSID subelement. */
  function SsidAsked(subs: seq<Elem>): Option<seq<Byte>> {
    var named := Filter(subs, Named());
    if named == [] then None else Some(SsidCopy(named[|named| - 1].body))
  }

  function RecogniseAll(action: Byte, es: seq<Elem>): seq<What> {
    if es == [] then []
    else RecogniseAll(action, es[..|es| - 1])
         + match Recognise(action, es[|es| - 1]) { case Some(x) => [x] case None => [] }
  }

  function Stamped(pair: Pair, now: int, xs: seq<What>): seq<RrmObs> {
    Map(xs, (x: What) => Obs(pair, now, x))
  }

  /** The octets behind the fixed fields; empty when the frame is shorter. */
  function Region(f: Frame, action: Byte): seq<Byte>
    requires f.HdrLen() >= 24
  {
    var off := f.HdrLen() + 3 + if action == ACT_REQUEST then 2 else 0;
    if off <= |f.p| then f.p[off..] else []
  }

  /** The observations one frame makes. */
  function Observations(f: Frame, now: int): seq<RrmObs> {
    match CategoryOf(f)
    case Readable(cat, action) =>
      if cat != CAT_RRM || (action != ACT_REQUEST && action != ACT_REPORT) then []
      else
        var sta := if action == ACT_REQUEST then f.Da() else f.Ta();
        if IsGroup(sta) || IsGroup(f.Bssid()) then []
        else Stamped(Pair(f.Bssid(), sta), now, RecogniseAll(action, Elements(Region(f, action))))
    case _ => []
  }

  /** A Beacon Request counts as targeted exactly when its subelement walk yields a
      non-empty SSID before the walk stops; anything behind the stop is ignored. A
      body too short for a subelement, a channel or a mode has none, 0 and 0. */
  lemma TargetedIffNamed(b: seq<Byte>, subs: seq<Elem>, tail: seq<Byte>)
    requires |b| >= 3 && b[2] == MEAS_TYPE_BEACON
    requires Printable(subs) && !Fits(tail) && Subelements(b) == PrintAll(subs) + tail
    ensures var r := Recognise(ACT_REQUEST, Elem(ELEM_MEAS_REQUEST, b));
            && r.Some? && !r.value.Report?
            && r.value.chan == (if |b| >= 5 then b[4] else 0)
            && r.value.mode == (if |b| >= 10 then b[9] else 0)
            && (r.value.Targeted? <==> exists e :: e in subs && e.tag == 0 && e.body != [])
            && (r.value.Targeted? ==> exists e :: e in subs && e.tag == 0 && e.body != [] && r.value.ssid == SsidCopy(e.body))
  {
    hide Filter, Elements, SsidCopy, Subelements;
    ElementsOfPrint(subs, tail);
    var named := Filter(subs, Named());
    if e :| e in subs && Named()(e) {
      FilterMember(subs, Named(), e);
    }
    if named != [] {
      FilterMember(subs, Named(), named[|named| - 1]);
    }
  }

  lemma OneMoreElement(pair: Pair, now: int, action: Byte, done: seq<Elem>, e: Elem)
    ensures var (was, after) := (RecogniseAll(action, done), RecogniseAll(action, done + [e]));
            match Recognise(action, e)
            case Some(x) => after != [] && Stamped(pair, now, after) == Stamped(pair, now, was) + [Obs(pair, now, x)]
            case None => after == was
  {
    hide Recognise;
    assert (done + [e])[..|done|] == done;
  }

  lemma NoElements()
    ensures forall action :: RecogniseAll(action, []) == []
    ensures forall pair, now :: Stamped(pair, now, []) == []
    ensures forall pair, now, xs :: |Stamped(pair, now, xs)| == |xs|
  {
  }

  method ObserveFrame(t: RrmTable, f: Frame, now: int) returns (found: bool)
    requires IsRrm(t)
    modifies t, t.rows
    ensures IsRrm(t) && t.log == old(t.log) + Observations(f, now)
    ensures found == (Observations(f, now) != [])
  {
    hide RecogniseAll, Stamped, Elements, Run;
    NoElements();
    found := false;
    var c := CategoryOf(f);
    if !c.Readable? || c.cat != CAT_RRM || (c.action != ACT_REQUEST && c.action != ACT_REPORT) { return; }
    var sta := if c.action == ACT_REQUEST then f.Da() else f.Ta();
    if IsGroup(sta) || IsGroup(f.Bssid()) { return; }
    found := WalkElements(t, Pair(f.Bssid(), sta), now, c.action, Region(f, c.action));
  }

  method Store(t: RrmTable, o: RrmObs)
    requires IsRrm(t)
    modifies t, t.rows
    ensures IsRrm(t) && t.log == old(t.log) + [o]
  {
    t.Observe(o);
  }

  method WalkElements(t: RrmTable, pair: Pair, now: int, action: Byte, region: seq<Byte>) returns (found: bool)
    requires IsRrm(t)
    modifies t, t.rows
    ensures IsRrm(t) && t.log == old(t.log) + Stamped(pair, now, RecogniseAll(action, Elements(region)))
    ensures found == (RecogniseAll(action, Elements(region)) != [])
  {
    hide Recognise, RecogniseAll, Stamped, Elements, Leftover, Fits, IsRrm;
    NoElements();
    found := false;
    var it := new TlvIter(region);
    ghost var done: seq<Elem> := [];
    assert it.p[0..] == it.p;
    while it.status.Walking?
      invariant IsRrm(t) && it.Valid() && fresh(it) && it.p == region
      invariant Elements(region) == done + Elements(it.p[it.off..])
      invariant it.status != Walking ==> Elements(it.p[it.off..]) == []
      invariant t.log == old(t.log) + Stamped(pair, now, RecogniseAll(action, done))
      invariant found == (RecogniseAll(action, done) != [])
      decreases |it.p| - it.off, it.status.Walking?
    {
      var next := it.Next();
      if next.Got? {
        var seen := RecogniseElem(action, next.e);
        OneMoreElement(pair, now, action, done, next.e);
        if seen.Some? {
          Store(t, Obs(pair, now, seen.value));
          found := true;
        }
        done := done + [next.e];
      }
    }
    assert done == Elements(region);
  }

  /** The body of the walk: classifies one element, walking its subelements. */
  method RecogniseElem(action: Byte, e: Elem) returns (r: Option<What>)
    ensures r == Recognise(action, e)
  {
    var b := e.body;
    if action == ACT_REPORT && e.tag == ELEM_MEAS_REPORT { return Some(Report); }
    if !(action == ACT_REQUEST && e.tag == ELEM_MEAS_REQUEST && |b| >= 3 && b[2] == MEAS_TYPE_BEACON) { return None; }
    var chan := if |b| >= 5 then b[4] else 0;
    var mode := if |b| >= 10 then b[9] else 0;
    var ssid := None;
    if |b| >= SUBELEMENTS {
      ssid := WalkSubelements(b[SUBELEMENTS..]);
    } else {
      EmptyAsksNothing();
    }
    r := if ssid.Some? then Some(Targeted(ssid.value, chan, mode)) else Some(Broadcast(chan, mode));
  }

  method WalkSubelements(region: seq<Byte>) returns (ssid: Option<seq<Byte>>)
    ensures ssid == SsidAsked(Elements(region))
  {
    hide SsidAsked, Elements, SsidCopy, Fits, Leftover;
    ssid := None;
    var it := new TlvIter(region);
    ghost var done: seq<Elem> := [];
    assert it.p[0..] == it.p;
    EmptyAsksNothing();
    while it.status.Walking?
      invariant it.Valid() && fresh(it) && it.p == region
      invariant Elements(region) == done + Elements(it.p[it.off..])
      invariant it.status != Walking ==> Elements(it.p[it.off..]) == []
      invariant ssid == SsidAsked(done)
      decreases |it.p| - it.off, it.status.Walking?
    {
      var next := it.Next();
      if next.Got? {
        AskedPush(done, next.e);
        if next.e.tag == 0 && |next.e.body| > 0 { ssid := Some(SsidCopy(next.e.body)); }
        done := done + [next.e];
      }
    }
    assert done == Elements(region);
  }

  lemma AskedPush(done: seq<Elem>, e: Elem)
    ensures SsidAsked(done + [e]) == if e.tag == 0 && |e.body| > 0 then Some(SsidCopy(e.body)) else SsidAsked(done)
  {
    hide Filter, SsidCopy;
    FilterPush(done, e, Named());
  }

  lemma EmptyAsksNothing()
    ensures SsidAsked([]) == None && Elements([]) == []
  {
  }

  // ----- Rows -------------------------------------------------------------

  function IsTargeted(): RrmObs -> bool { (o: RrmObs) => o.what.Targeted? }
  function IsBroadcast(): RrmObs -> bool { (o: RrmObs) => o.what.Broadcast? }
  function IsReport(): RrmObs -> bool { (o: RrmObs) => o.what.Report? }

  function Rows(log: seq<RrmObs>): seq<RrmRow> { Run<Pair, Tally, What>(MAX_PAIRS, Record, log) }

  function History(log: seq<RrmObs>, pair: Pair): seq<RrmObs> {
    Since<Pair, Tally, What>(MAX_PAIRS, Record, log, pair)
  }

  /** A row's three tallies split the elements recognised since it was created. */
  lemma {:induction false} TallyIsHistory(h: seq<RrmObs>)
    requires h != []
    ensures var t := Replay<Pair, Tally, What>(Record, h);
            && t.targeted == Count(h, IsTargeted())
            && t.broadcast == Count(h, IsBroadcast())
            && t.reports == Count(h, IsReport())
            && t.targeted + t.broadcast + t.reports == |h|
            && t.firstSeen == h[0].ts
  {
    var (p, o) := (h[..|h| - 1], h[|h| - 1]);
    assert h == p + [o];
    if |h| > 1 { TallyIsHistory(p); }
    FilterPush(p, o, IsTargeted());
    FilterPush(p, o, IsBroadcast());
    FilterPush(p, o, IsReport());
  }

  predicate Asks(h: seq<RrmObs>, i: nat)
    requires i < |h|
  {
    !h[i].what.Report?
  }

  predicate Names(h: seq<RrmObs>, i: nat)
    requires i < |h|
  {
    h[i].what.Targeted?
  }

  /** A row shows the SSID of its last targeted request, and the channel and mode of
      its last request of either kind. */
  lemma {:induction false} LatestRequestShown(h: seq<RrmObs>, i: nat)
    requires i < |h|
    ensures var t := Replay<Pair, Tally, What>(Record, h);
            && (Names(h, i) && (forall j :: i < j < |h| ==> !Names(h, j)) ==> t.lastSsid == h[i].what.ssid)
            && (Asks(h, i) && (forall j :: i < j < |h| ==> !Asks(h, j)) ==>
                  t.lastChan == h[i].what.chan && t.lastMode == h[i].what.mode)
  {
    if i < |h| - 1 {
      var p := h[..|h| - 1];
      LatestRequestShown(p, i);
      assert forall j :: i < j < |p| ==> Names(p, j) == Names(h, j) && Asks(p, j) == Asks(h, j);
      var (t, u) := (Replay<Pair, Tally, What>(Record, h), Replay<Pair, Tally, What>(Record, p));
      assert !Names(h, |h| - 1) ==> t.lastSsid == u.lastSsid;
      assert !Asks(h, |h| - 1) ==> t.lastChan == u.lastChan && t.lastMode == u.lastMode;
    }
  }

  lemma RowIsHistory(log: seq<RrmObs>, i: nat)
    requires i < |Rows(log)|
    ensures var row := Rows(log)[i];
            var h := History(log, row.key);
            && h != [] && row.seen == h[|h| - 1].ts && row.data.firstSeen == h[0].ts
            && row.data.targeted == Count(h, IsTargeted())
            && row.data.targeted + row.data.broadcast + row.data.reports == |h|
  {
    TableIsFaithful<Pair, Tally, What>(MAX_PAIRS, Record, log);
    TallyIsHistory(History(log, Rows(log)[i].key));
  }

  // ----- Detection --------------------------------------------------------

  /** The targeted requests a row has counted in its life. */
  function Lifetime(log: seq<RrmObs>, pair: Pair): nat { Count(History(log, pair), IsTargeted()) }

  ghost predicate Eligible(log: seq<RrmObs>, pair: Pair, now: int, w: int, thresh: int) {
    var h := History(log, pair);
    h != [] && h[|h| - 1].ts != 0 && now - h[|h| - 1].ts <= w && Lifetime(log, pair) >= thresh
  }

  /** What `rrm_busiest_pair` answers: the largest lifetime count of an eligible row. */
  ghost predicate Busiest(log: seq<RrmObs>, now: int, w: int, thresh: int, best: nat, who: Option<Pair>) {
    && (best == 0 <==> who.None?)
    && (who.Some? ==> Eligible(log, who.value, now, w, thresh) && Lifetime(log, who.value) == best)
    && forall p :: Eligible(log, p, now, w, thresh) ==> Lifetime(log, p) <= best
  }

  /** Whoever is named has made an observation inside the window, and `thresh` targeted
      requests in all. */
  lemma NamedWasSeen(log: seq<RrmObs>, now: int, w: int, thresh: int, best: nat, who: Option<Pair>)
    requires Busiest(log, now, w, thresh, best, who) && who.Some?
    ensures exists o :: o in log && o.key == who.value && o.ts != 0 && now - o.ts <= w
    ensures thresh <= best <= Count(OfKey(log, who.value), IsTargeted())
  {
    hide Run, Since, Filter;
    var h := History(log, who.value);
    SinceInLog<Pair, Tally, What>(MAX_PAIRS, Record, log, who.value);
    assert h[|h| - 1] in log;
    NeverOvercounts<Pair, Tally, What>(MAX_PAIRS, Record, log, who.value, IsTargeted());
  }

  method BusiestPair(t: RrmTable, now: int, w: int, thresh: int) returns (best: nat, who: Option<Pair>)
    requires IsRrm(t)
    ensures Busiest(t.log, now, w, thresh, best, who)
  {
    hide Run, Since, Filter, Find;
    best, who := 0, None;
    ghost var rows := t.rows[..t.n];
    for i := 0 to t.n
      invariant best == 0 <==> who.None?
      invariant who.Some? ==> Eligible(t.log, who.value, now, w, thresh) && Lifetime(t.log, who.value) == best
      invariant forall j :: 0 <= j < i && Eligible(t.log, rows[j].key, now, w, thresh) ==> Lifetime(t.log, rows[j].key) <= best
    {
      assert rows[i] == t.rows[i];
      RowIsHistory(t.log, i);
      var r := t.rows[i];
      if r.seen == 0 || now - r.seen > w { continue; }
      if r.data.targeted < thresh { continue; }
      if r.data.targeted <= best { continue; }
      best, who := r.data.targeted, Some(r.key);
    }
    forall p | Eligible(t.log, p, now, w, thresh) ensures Lifetime(t.log, p) <= best {
      HasMeans(rows, p);
      SinceEmpty<Pair, Tally, What>(MAX_PAIRS, Record, t.log, p);
    }
  }

  function TargetedIn(now: int, w: int): RrmObs -> bool {
    (o: RrmObs) => o.what.Targeted? && now - o.ts <= w
  }

  /** What the header documents: targeted requests inside the window. */
  function Windowed(log: seq<RrmObs>, pair: Pair, now: int, w: int): nat {
    Count(OfKey(log, pair), TargetedIn(now, w))
  }

  /** No targeted request of the pair inside the window was lost with an evicted row. */
  ghost predicate Remembered(log: seq<RrmObs>, pair: Pair, now: int, w: int) {
    forall i :: 0 <= i < |OfKey(log, pair)| - |History(log, pair)| && OfKey(log, pair)[i].what.Targeted?
                ==> now - OfKey(log, pair)[i].ts > w
  }

  /** No targeted request of the row's life precedes the window. */
  ghost predicate Fresh(log: seq<RrmObs>, pair: Pair, now: int, w: int) {
    forall i :: 0 <= i < |History(log, pair)| && History(log, pair)[i].what.Targeted?
                ==> now - History(log, pair)[i].ts <= w
  }

  /** A pair is remembered while its row is older than the window, whatever the
      others did, and every pair is if no more than 64 were ever active together. */
  lemma RemembersTargeted(log: seq<RrmObs>, pair: Pair, now: int, w: nat)
    requires Ordered(log) && forall o :: o in log ==> o.ts <= now
    ensures ActiveFit(log, w, 64) ==> Remembered(log, pair, now, w)
    ensures History(log, pair) != [] && now - History(log, pair)[0].ts > w ==> Remembered(log, pair, now, w)
  {
    hide Run, Since, Filter, ActiveFit;
    if log != [] { assert log[|log| - 1] in log; }
    if ActiveFit(log, w, MAX_PAIRS) {
      ActiveFitRemembers<Pair, Tally, What>(MAX_PAIRS, Record, log, pair, now, w);
    }
    if History(log, pair) != [] && now - History(log, pair)[0].ts > w {
      OldRowRemembers<Pair, Tally, What>(MAX_PAIRS, Record, log, pair, now, w);
    }
  }

  /** The table was not crowded since any targeted request of the pair inside the window. */
  ghost predicate Uncrowded(log: seq<RrmObs>, pair: Pair, now: int, w: int) {
    forall i :: 0 <= i < |OfKey(log, pair)| && OfKey(log, pair)[i].what.Targeted? && now - OfKey(log, pair)[i].ts <= w
                ==> !CrowdedSince(log, pair, MAX_PAIRS, i)
  }

  /** It was since every targeted request of the pair from before the window. */
  ghost predicate Cleared(log: seq<RrmObs>, pair: Pair, now: int, w: int) {
    forall i :: 0 <= i < |OfKey(log, pair)| && OfKey(log, pair)[i].what.Targeted? && now - OfKey(log, pair)[i].ts > w
                ==> CrowdedSince(log, pair, MAX_PAIRS, i)
  }

  /** What was lost and what is still counted, in the log alone: exactly under stamps
      that tell pairs apart; otherwise a pair is remembered if the table was not crowded,
      and is not if it was overrun. */
  lemma RememberedInLog(log: seq<RrmObs>, pair: Pair, now: int, w: int)
    requires Ordered(log)
    ensures Uncrowded(log, pair, now, w) ==> Remembered(log, pair, now, w)
    ensures forall i :: 0 <= i < |OfKey(log, pair)| && OfKey(log, pair)[i].what.Targeted?
                        && now - OfKey(log, pair)[i].ts <= w && OverrunSince(log, pair, MAX_PAIRS, i)
                        ==> !Remembered(log, pair, now, w)
    ensures Unshared(log) ==> (Remembered(log, pair, now, w) <==> Uncrowded(log, pair, now, w))
    ensures Unshared(log) ==> (Fresh(log, pair, now, w) <==> Cleared(log, pair, now, w))
  {
    hide Run, Since, OfKey, CrowdedSince, OverrunSince, Unshared, Ordered;
    var (all, h) := (OfKey(log, pair), History(log, pair));
    forall i | 0 <= i < |all|
      ensures !CrowdedSince(log, pair, MAX_PAIRS, i) ==> |all| - |h| <= i
      ensures OverrunSince(log, pair, MAX_PAIRS, i) ==> i < |all| - |h|
      ensures Unshared(log) ==> (|all| - |h| <= i <==> !CrowdedSince(log, pair, MAX_PAIRS, i))
    {
      KeptIffNotCrowded<Pair, Tally, What>(MAX_PAIRS, Record, log, pair, i);
    }
    FreshInLog(log, pair, now, w);
  }

  lemma FreshInLog(log: seq<RrmObs>, pair: Pair, now: int, w: int)
    ensures Fresh(log, pair, now, w) <==>
            forall i :: 0 <= i < |OfKey(log, pair)| && |OfKey(log, pair)| <= i + |History(log, pair)|
                        && OfKey(log, pair)[i].what.Targeted?
                        ==> now - OfKey(log, pair)[i].ts <= w
  {
    hide Run, Since, OfKey;
    SinceIsSuffix<Pair, Tally, What>(MAX_PAIRS, Record, log, pair);
    var (all, h) := (OfKey(log, pair), History(log, pair));
    var d := |all| - |h|;
    assert forall i :: d <= i < |all| ==> all[i] == h[i - d];
    assert forall j :: 0 <= j < |h| ==> h[j] == all[d + j];
  }

  lemma {:induction false} NarrowerCountsLess(s: seq<RrmObs>, p: RrmObs -> bool, q: RrmObs -> bool)
    requires forall o :: p(o) ==> q(o)
    ensures Count(s, p) <= Count(s, q)
    ensures Count(s, p) == Count(s, q) <==> forall i :: 0 <= i < |s| && q(s[i]) ==> p(s[i])
  {
    if s == [] {
    } else {
      var f := s[..|s| - 1];
      NarrowerCountsLess(f, p, q);
      assert forall i :: 0 <= i < |f| ==> s[i] == f[i];
    }
  }

  /** The windowed count in two parts, lost and kept; if a targeted request inside the
      window was lost, everything kept is inside the window. */
  lemma WindowedSplits(log: seq<RrmObs>, pair: Pair, now: int, w: int) returns (lost: nat)
    requires Ordered(log)
    ensures Windowed(log, pair, now, w) == lost + Count(History(log, pair), TargetedIn(now, w))
    ensures lost == 0 <==> Remembered(log, pair, now, w)
    ensures lost > 0 ==> Fresh(log, pair, now, w)
  {
    hide Run, Since, Filter;
    var (all, kept) := (OfKey(log, pair), History(log, pair));
    var dropped := Forgotten<Pair, Tally, What>(MAX_PAIRS, Record, log, pair);
    var p := TargetedIn(now, w);
    FilterConcat(dropped, kept, p);
    OfKeyOrdered(log, pair);
    lost := Count(dropped, p);
    if i :| 0 <= i < |dropped| && p(all[i]) {
      FilterMember(dropped, p, dropped[i]);
      forall j | 0 <= j < |kept| ensures now - kept[j].ts <= w {
        assert kept[j] == all[|dropped| + j];
      }
    } else {
      forall i | 0 <= i < |dropped| ensures !p(dropped[i]) { assert dropped[i] == all[i]; }
      FilterNone(dropped, p);
    }
  }

  /** Against the documented windowed count, the lifetime count used instead never
      falls short exactly while no targeted request of the pair inside the window
      was lost with an evicted row; it is equal exactly if, besides, none it still
      counts precedes the window. In the log, under stamps that tell pairs apart: it
      never falls short exactly while the table was not crowded since any targeted
      request inside the window, and is equal exactly if it was since the others. */
  lemma LifetimeIsWindowedIff(log: seq<RrmObs>, pair: Pair, now: int, w: int)
    requires Ordered(log)
    ensures Windowed(log, pair, now, w) <= Lifetime(log, pair) <==> Remembered(log, pair, now, w)
    ensures Lifetime(log, pair) == Windowed(log, pair, now, w) <==>
            Remembered(log, pair, now, w) && Fresh(log, pair, now, w)
    ensures Unshared(log) ==>
              (Windowed(log, pair, now, w) <= Lifetime(log, pair) <==> Uncrowded(log, pair, now, w))
    ensures Unshared(log) ==>
              (Lifetime(log, pair) == Windowed(log, pair, now, w) <==>
               Uncrowded(log, pair, now, w) && Cleared(log, pair, now, w))
  {
    hide Run, Since, Filter, Remembered, Uncrowded, Cleared, Unshared;
    RememberedInLog(log, pair, now, w);
    var lost := WindowedSplits(log, pair, now, w);
    NarrowerCountsLess(History(log, pair), TargetedIn(now, w), IsTargeted());
  }

  /** A remembered pair with `thresh` targeted requests in the window is never missed:
      it is eligible, at no less than its windowed count. */
  lemma NeverMisses(log: seq<RrmObs>, pair: Pair, now: int, w: int, thresh: nat)
    requires Ordered(log) && Remembered(log, pair, now, w)
    requires forall o :: o in log ==> 0 < o.ts <= now
    requires 0 < thresh <= Windowed(log, pair, now, w)
    ensures Eligible(log, pair, now, w, thresh)
    ensures Windowed(log, pair, now, w) <= Lifetime(log, pair)
  {
    hide Run, Since, Filter, Remembered;
    var h := History(log, pair);
    LifetimeIsWindowedIff(log, pair, now, w);
    var lost := WindowedSplits(log, pair, now, w);
    var f := Filter(h, TargetedIn(now, w));
    FilterMember(h, TargetedIn(now, w), f[0]);
    var i :| 0 <= i < |h| && h[i] == f[0];
    SinceInLog<Pair, Tally, What>(MAX_PAIRS, Record, log, pair);
    assert h[|h| - 1] in log;
  }

  /** The count of a row younger than the window, which its `first_seen` tells, is
      never too large: exact while the pair is remembered, short otherwise. */
  lemma YoungRowIsExact(log: seq<RrmObs>, pair: Pair, now: int, w: int)
    requires Ordered(log)
    requires History(log, pair) != [] && now - History(log, pair)[0].ts <= w
    ensures Lifetime(log, pair) <= Windowed(log, pair, now, w)
    ensures Lifetime(log, pair) == Windowed(log, pair, now, w) <==> Remembered(log, pair, now, w)
  {
    hide Run, Since, Filter, Remembered;
    SinceInLog<Pair, Tally, What>(MAX_PAIRS, Record, log, pair);
    LifetimeIsWindowedIff(log, pair, now, w);
  }

  /** What the header promises of the detector: the largest windowed count that
      reaches the threshold, else 0. */
  ghost predicate Promised(log: seq<RrmObs>, now: int, w: int, thresh: int, best: nat) {
    && (forall p :: Windowed(log, p, now, w) >= thresh ==> Windowed(log, p, now, w) <= best)
    && (best != 0 ==> best >= thresh && exists p :: Windowed(log, p, now, w) == best)
  }

  /** An eligible pair of the greatest lifetime count. */
  ghost predicate Tops(log: seq<RrmObs>, pair: Pair, now: int, w: int, thresh: int) {
    && Eligible(log, pair, now, w, thresh)
    && forall q :: Eligible(log, q, now, w, thresh) ==> Lifetime(log, q) <= Lifetime(log, pair)
  }

  /** Some eligible pair's lifetime count makes up for the pair's windowed one. */
  ghost predicate Covered(log: seq<RrmObs>, pair: Pair, now: int, w: int, thresh: int) {
    exists q :: Eligible(log, q, now, w, thresh) && Windowed(log, pair, now, w) <= Lifetime(log, q)
  }

  /** A pair on top whose count is some pair's windowed one: its own, if that pair is
      remembered; by chance, if it is forgotten. */
  ghost predicate Matched(log: seq<RrmObs>, top: Pair, pair: Pair, now: int, w: int, thresh: int) {
    && Tops(log, top, now, w, thresh)
    && if Remembered(log, pair, now, w) then pair == top && Fresh(log, top, now, w)
       else Windowed(log, pair, now, w) == Lifetime(log, top)
  }

  /** The promise is kept exactly when the forgotten pairs that reach the threshold are
      all covered, and either no pair is eligible or one on top is matched. Where all
      are remembered: when no pair is eligible, or one on top has no targeted request
      older than the window. */
  lemma PromiseIsKeptIff(log: seq<RrmObs>, now: int, w: int, thresh: int, best: nat, who: Option<Pair>)
    requires Ordered(log) && forall o :: o in log ==> 0 < o.ts <= now
    requires 0 < thresh && Busiest(log, now, w, thresh, best, who)
    ensures Promised(log, now, w, thresh, best) <==>
            && (forall p :: !Remembered(log, p, now, w) && Windowed(log, p, now, w) >= thresh ==> Covered(log, p, now, w, thresh))
            && ((forall p :: !Eligible(log, p, now, w, thresh)) || exists top, p :: Matched(log, top, p, now, w, thresh))
    ensures (forall p :: Remembered(log, p, now, w)) ==>
              (Promised(log, now, w, thresh, best) <==>
               (forall p :: !Eligible(log, p, now, w, thresh))
               || exists top :: Tops(log, top, now, w, thresh) && Fresh(log, top, now, w))
  {
    hide Windowed, Lifetime, Eligible, Remembered, Fresh;
    CountsCompare(log, now, w, thresh, best);
    if who.Some? {
      EligibleReaches(log, who.value, now, w, thresh);
      assert Tops(log, who.value, now, w, thresh);
    }
    forall p | Eligible(log, p, now, w, thresh) ensures who.Some? {
      EligibleReaches(log, p, now, w, thresh);
    }
    forall top | Tops(log, top, now, w, thresh) ensures Lifetime(log, top) == best {
      assert Eligible(log, who.value, now, w, thresh);
    }
    if Promised(log, now, w, thresh, best) && who.Some? {
      var p :| Windowed(log, p, now, w) == best;
      assert Matched(log, if Remembered(log, p, now, w) then p else who.value, p, now, w, thresh);
    }
    if top :| Tops(log, top, now, w, thresh) && Fresh(log, top, now, w) && Remembered(log, top, now, w) {
      assert Matched(log, top, top, now, w, thresh);
    }
  }

  lemma CountsCompare(log: seq<RrmObs>, now: int, w: int, thresh: int, best: nat)
    requires Ordered(log) && forall o :: o in log ==> 0 < o.ts <= now
    requires 0 < thresh && forall p :: Eligible(log, p, now, w, thresh) ==> Lifetime(log, p) <= best
    ensures forall p :: Remembered(log, p, now, w) ==>
                          (Lifetime(log, p) == Windowed(log, p, now, w) <==> Fresh(log, p, now, w))
    ensures forall p :: Remembered(log, p, now, w) && Windowed(log, p, now, w) >= thresh ==>
                          Eligible(log, p, now, w, thresh) && Windowed(log, p, now, w) <= Lifetime(log, p) <= best
  {
    hide Windowed, Lifetime, Eligible, Remembered, Fresh, Uncrowded, Cleared, Unshared;
    forall p | Remembered(log, p, now, w)
      ensures Lifetime(log, p) == Windowed(log, p, now, w) <==> Fresh(log, p, now, w)
      ensures Windowed(log, p, now, w) >= thresh ==>
                Eligible(log, p, now, w, thresh) && Windowed(log, p, now, w) <= Lifetime(log, p) <= best
    {
      LifetimeIsWindowedIff(log, p, now, w);
      if Windowed(log, p, now, w) >= thresh { NeverMisses(log, p, now, w, thresh); }
    }
  }

  lemma EligibleReaches(log: seq<RrmObs>, pair: Pair, now: int, w: int, thresh: int)
    requires Eligible(log, pair, now, w, thresh)
    ensures Lifetime(log, pair) >= thresh
  {
  }

  /** Every pair measured inside the window has a row if and only if there are no more
      than 64 of them. */
  lemma ActiveAreListed(log: seq<RrmObs>, w: int)
    requires Ordered(log) && log != []
    ensures (forall p :: p in Active(log, w) ==> Has(Rows(log), p)) <==> |Active(log, w)| <= 64
  {
    ActiveAreResident<Pair, Tally, What>(MAX_PAIRS, Record, log, w);
  }

  // ----- Where it breaks its promise -----------------------------------------

  function Ask(pair: Pair, ts: int): RrmObs { Obs(pair, ts, Targeted([104], 6, 0)) }

  function AskTimes(pair: Pair, ts: int, n: nat): (s: seq<RrmObs>)
    ensures |s| == n && forall i :: 0 <= i < n ==> s[i] == Ask(pair, ts)
  {
    seq(n, _ => Ask(pair, ts))
  }

  lemma {:induction false} OnlyPair(log: seq<RrmObs>, pair: Pair)
    requires forall i :: 0 <= i < |log| ==> log[i].key == pair
    ensures History(log, pair) == log && OfKey(log, pair) == log
  {
    hide Run;
    if log == [] {
    } else {
      var (p, o) := (log[..|log| - 1], log[|log| - 1]);
      assert p + [o] == log;
      OnlyPair(p, pair);
      SinceStep<Pair, Tally, What>(MAX_PAIRS, Record, p, o, pair);
    }
  }

  /** It can report too much: six requests long ago, as many as the alert asks for, and
      a fresh report. Nothing targeted is in the window, and the pair is reported. */
  lemma OverReports(pair: Pair)
    ensures var log := AskTimes(pair, 1, 6) + [Obs(pair, 1000, Report)];
            && Eligible(log, pair, 1000, 300, 6)
            && Lifetime(log, pair) == 6 && Windowed(log, pair, 1000, 300) == 0
  {
    hide Run, Since, Filter;
    var asked := AskTimes(pair, 1, 6);
    var o: RrmObs := Obs(pair, 1000, Report);
    OnlyPair(asked + [o], pair);
    FilterAll(asked, IsTargeted());
    FilterPush(asked, o, IsTargeted());
    FilterNone(asked + [o], TargetedIn(1000, 300));
  }

  /** The n-th of many distinct stations of one BSS. */
  function PairNo(n: nat): Pair
    requires n <= 64
  {
    Pair([2, 0, 0, 0, 0, 1], [2, 0, 0, 0, 0, n])
  }

  /** One request to each of 64 stations. */
  function Crowd(): (s: seq<RrmObs>)
    ensures |s| == 64 && forall i :: 0 <= i < 64 ==> s[i] == Ask(PairNo(i), 2)
  {
    seq(64, i requires 0 <= i < 64 => Ask(PairNo(i), 2))
  }

  /** Five requests to one station, one to each of 64 others, and a sixth. */
  function Survey(): seq<RrmObs> { AskTimes(PairNo(64), 1, 5) + Crowd() + [Ask(PairNo(64), 3)] }

  lemma CrowdEvicts()
    ensures !Has(Rows(AskTimes(PairNo(64), 1, 5) + Crowd()), PairNo(64))
  {
    hide Run, Find;
    var log := AskTimes(PairNo(64), 1, 5) + Crowd();
    var rows := Map(Crowd(), (o: RrmObs) => Row(o.key, o.ts, Record(None, o)));
    assert Distinct(rows);
    KeysSize(rows);
    forall k | k in Keys(rows) ensures k != PairNo(64) && exists x :: x in log && x.key == k && 1 < x.ts {
      var i :| 0 <= i < |rows| && rows[i].key == k;
      assert log[5 + i].key == k && log[5 + i] in log;
    }
    CrowdedOut<Pair, Tally, What>(MAX_PAIRS, Record, log, PairNo(64), 1, Keys(rows));
  }

  lemma SurveyOfKey()
    ensures OfKey(Survey(), PairNo(64)) == AskTimes(PairNo(64), 1, 5) + [Ask(PairNo(64), 3)]
  {
    hide Filter;
    var (a, head) := (PairNo(64), AskTimes(PairNo(64), 1, 5));
    FilterAll(head, ByKey(a));
    FilterNone(Crowd(), ByKey(a));
    FilterConcat(head, Crowd(), ByKey(a));
    FilterPush(head + Crowd(), Ask(a, 3), ByKey(a));
    assert head + [] == head;
  }

  lemma SurveyHistory()
    ensures History(Survey(), PairNo(64)) == [Ask(PairNo(64), 3)]
  {
    hide Run, Find, Since, OfKey, Crowd;
    var (a, p) := (PairNo(64), AskTimes(PairNo(64), 1, 5) + Crowd());
    CrowdEvicts();
    SinceEmpty<Pair, Tally, What>(MAX_PAIRS, Record, p, a);
    SinceStep<Pair, Tally, What>(MAX_PAIRS, Record, p, Ask(a, 3), a);
    assert [] + [Ask(a, 3)] == [Ask(a, 3)];
  }

  lemma SurveyIsOrdered()
    ensures Ordered(Survey())
  {
    var s := Survey();
    forall i | 0 <= i < |s| ensures s[i].ts == if i < 5 then 1 else if i < 69 then 2 else 3 {}
  }

  /** And, with more than 64 pairs active, too little: the six requests are all in the
      window, the row remembers only the last of them, and the pair is not reported. */
  lemma UnderReports()
    ensures Ordered(Survey()) && !Remembered(Survey(), PairNo(64), 3, 300)
    ensures Windowed(Survey(), PairNo(64), 3, 300) == 6
    ensures Lifetime(Survey(), PairNo(64)) == 1 && !Eligible(Survey(), PairNo(64), 3, 300, 6)
  {
    hide Survey, History, OfKey, Filter, Remembered, Ordered;
    var (a, head) := (PairNo(64), AskTimes(PairNo(64), 1, 5));
    SurveyIsOrdered();
    SurveyHistory();
    SurveyOfKey();
    FilterAll(head + [Ask(a, 3)], TargetedIn(3, 300));
    FilterAll([Ask(a, 3)], IsTargeted());
    LifetimeIsWindowedIff(Survey(), a, 3, 300);
  }

  // ----- Snapshot ---------------------------------------------------------

  /** Busiest first. */
  function ByTargeted(): (RrmRow, RrmRow) -> bool {
    (x: RrmRow, y: RrmRow) => y.data.targeted < x.data.targeted
  }

  method Snapshot(t: RrmTable) returns (out: array<RrmRow>)
    requires IsRrm(t)
    ensures IsRrm(t) && fresh(out) && out[..] == Sort(Rows(t.log), ByTargeted())
  {
    out := new RrmRow[t.n](i requires 0 <= i < t.n && t.n <= t.rows.Length reads t, t.rows => t.rows[i]);
    assert out[..t.n] == t.rows[..t.n];
    InsertionSort(out, t.n, ByTargeted());
    assert out[..] == out[..t.n];
  }

  /** The snapshot is the table, busiest first, with ties in table order. */
  lemma SnapshotIsStableOrder(log: seq<RrmObs>, n: nat)
    ensures var s := Sort(Rows(log), ByTargeted());
            && multiset(s) == multiset(Rows(log))
            && (forall i, j :: 0 <= i < j < |s| ==> s[i].data.targeted >= s[j].data.targeted)
            && Filter(s, (r: RrmRow) => r.data.targeted == n) == Filter(Rows(log), (r: RrmRow) => r.data.targeted == n)
  {
    SortMultiset(Rows(log), ByTargeted());
    SortSorted(Rows(log), ByTargeted());
    SortStable(Rows(log), ByTargeted(), (r: RrmRow) => r.data.targeted == n);
  }
}
