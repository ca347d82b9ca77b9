/** SA Query storms: a table of (BSSID, station) pairs, each with a ring of the
    latest 48 stamps, standing in for the log of every SA Query frame. */
module SaQuery {
  import opened Wrappers
  import opened Seqs
  import opened Rings
  import opened Lru
  import opened Dot11

  const MAX_PAIRS: nat := 64
  const RING: nat := 48

  /** One SA Query frame: when, and the evidence ID it was retained under. */
  datatype Stamp = Stamp(ts: int, ev: nat)

  datatype RawRing = RawRing(slots: seq<Stamp>, head: nat, n: nat)

  type StampRing = r: RawRing | |r.slots| == RING && r.head < RING && r.n <= RING
    witness RawRing(seq(RING, _ => Stamp(0, 0)), 0, 0)

  type SaqObs = Obs<Pair, nat>
  type SaqTable = Table<Pair, StampRing, nat>

  function ZeroRing(): StampRing { RawRing(seq(RING, _ => Stamp(0, 0)), 0, 0) }

  /** The row written by one SA Query frame. */
  function Push(was: Option<StampRing>, o: SaqObs): StampRing {
    var r := if was.Some? then was.value else ZeroRing();
    RawRing(r.slots[r.head := Stamp(o.ts, o.what)], (r.head + 1) % RING,
            if r.n < RING then r.n + 1 else r.n)
  }

  ghost predicate IsSaq(t: SaqTable)
    reads t, t.rows
  {
    t.Valid() && t.cap == MAX_PAIRS && t.upd == Push
  }

  method NewTable() returns (t: SaqTable)
    ensures IsSaq(t) && t.log == [] && fresh(t) && fresh(t.rows)
  {
    var zero := [0, 0, 0, 0, 0, 0];
    t := new Table(MAX_PAIRS, Push, Row(Pair(zero, zero), 0, ZeroRing()));
  }

  function StampOf(): SaqObs -> Stamp { (o: SaqObs) => Stamp(o.ts, o.what) }

  /** The window test of both queries. */
  function InWindow(now: int, w: int): Stamp -> bool {
    (s: Stamp) => now - s.ts <= w && now >= s.ts
  }

  /** The table after a log, and a pair's observations since its row was created. */
  function Rows(log: seq<SaqObs>): seq<Row<Pair, StampRing>> {
    Run<Pair, StampRing, nat>(MAX_PAIRS, Push, log)
  }

  function History(log: seq<SaqObs>, pair: Pair): seq<SaqObs> {
    Since<Pair, StampRing, nat>(MAX_PAIRS, Push, log, pair)
  }

  /** Every stamp of a pair, in the unbounded log. */
  function Stamps(log: seq<SaqObs>, pair: Pair): seq<Stamp> { Map(OfKey(log, pair), StampOf()) }

  /** The stamps the table still holds for a pair. */
  function Retained(log: seq<SaqObs>, pair: Pair): seq<Stamp> {
    Last(Map(History(log, pair), StampOf()), RING)
  }

  /** What the table counts, and what the whole log counts. */
  function Held(log: seq<SaqObs>, pair: Pair, now: int, w: int): nat {
    Count(Retained(log, pair), InWindow(now, w))
  }

  function Naive(log: seq<SaqObs>, pair: Pair, now: int, w: int): nat {
    Count(Stamps(log, pair), InWindow(now, w))
  }

  /** A row's ring holds the newest 48 stamps of its history. */
  lemma {:induction false} RingIsHistory(h: seq<SaqObs>)
    requires h != []
    ensures var r := Replay<Pair, StampRing, nat>(Push, h); Holds(r.slots, r.head, r.n, Map(h, StampOf()))
  {
    var (p, o) := (h[..|h| - 1], h[|h| - 1]);
    assert Map(h, StampOf()) == Map(p, StampOf()) + [Stamp(o.ts, o.what)];
    if |h| == 1 {
      var z := ZeroRing();
      assert Holds(z.slots, z.head, z.n, []);
      assert Map(p, StampOf()) == [];
      Rings.Push(z.slots, z.head, z.n, [], Stamp(o.ts, o.what));
    } else {
      RingIsHistory(p);
      var r := Replay<Pair, StampRing, nat>(Push, p);
      Rings.Push(r.slots, r.head, r.n, Map(p, StampOf()), Stamp(o.ts, o.what));
    }
  }

  /** Row i of a reachable table holds exactly the retained stamps of its pair. */
  lemma RowHolds(log: seq<SaqObs>, i: nat)
    requires i < |Rows(log)|
    ensures var row := Rows(log)[i];
            var h := History(log, row.key);
            var r := row.data;
            && Holds(r.slots, r.head, r.n, Map(h, StampOf()))
            && Last(Map(h, StampOf()), RING) == Retained(log, row.key)
  {
    TableIsFaithful<Pair, StampRing, nat>(MAX_PAIRS, Push, log);
    RingIsHistory(History(log, Rows(log)[i].key));
  }

  lemma AbsentHoldsNothing(log: seq<SaqObs>, pair: Pair, now: int, w: int)
    requires !Has(Rows(log), pair)
    ensures Retained(log, pair) == [] && Held(log, pair, now, w) == 0
  {
    SinceEmpty<Pair, StampRing, nat>(MAX_PAIRS, Push, log, pair);
  }

  // ----- Detection --------------------------------------------------------

  /** What `saq_flood_pair` owes: the busiest pair by retained in-window stamps. */
  ghost predicate Busiest(log: seq<SaqObs>, now: int, w: int, best: nat, who: Option<Pair>) {
    && (forall p :: Held(log, p, now, w) <= best)
    && (best == 0 <==> who.None?)
    && (who.Some? ==> Held(log, who.value, now, w) == best)
  }

  method FloodPair(t: SaqTable, now: int, w: int, thresh: int)
    returns (r: nat, best: nat, who: Option<Pair>)
    requires IsSaq(t)
    ensures Busiest(t.log, now, w, best, who)
    ensures r == if best >= thresh then best else 0
  {
    hide Held, Run;
    best, who := 0, None;
    ghost var rows := t.rows[..t.n];
    for i := 0 to t.n
      invariant forall j :: 0 <= j < i ==> Held(t.log, rows[j].key, now, w) <= best
      invariant best == 0 <==> who.None?
      invariant who.Some? ==> Held(t.log, who.value, now, w) == best
    {
      assert rows[i] == t.rows[i];
      RowCounts(t.log, i, now, w);
      var inWin := CountRing(t.rows[i].data, now, w);
      if inWin > best {
        best, who := inWin, Some(t.rows[i].key);
      }
    }
    forall p ensures Held(t.log, p, now, w) <= best {
      HasMeans(rows, p);
      if !Has(rows, p) { AbsentHoldsNothing(t.log, p, now, w); }
    }
    r := if best >= thresh then best else 0;
  }

  lemma RowCounts(log: seq<SaqObs>, i: nat, now: int, w: int)
    requires i < |Rows(log)|
    ensures var row := Rows(log)[i];
            Count(row.data.slots[..row.data.n], InWindow(now, w)) == Held(log, row.key, now, w)
  {
    RowHolds(log, i);
    var row := Rows(log)[i];
    CountSlots(row.data.slots, row.data.head, row.data.n,
               Map(History(log, row.key), StampOf()), InWindow(now, w));
  }

  method CountRing(ring: StampRing, now: int, w: int) returns (inWin: nat)
    ensures inWin == Count(ring.slots[..ring.n], InWindow(now, w))
  {
    inWin := 0;
    for k := 0 to ring.n
      invariant inWin == Count(ring.slots[..k], InWindow(now, w))
    {
      FilterNext(ring.slots, k, InWindow(now, w));
      var s := ring.slots[k];
      if now - s.ts <= w && now >= s.ts { inWin := inWin + 1; }
    }
  }

  /** The query never reports more than the log contains, whatever the clock did. */
  lemma HeldNeverExceeds(log: seq<SaqObs>, pair: Pair, now: int, w: int)
    ensures Held(log, pair, now, w) <= Naive(log, pair, now, w)
  {
    var (kept, all) := (History(log, pair), OfKey(log, pair));
    SinceIsSuffix<Pair, StampRing, nat>(MAX_PAIRS, Push, log, pair);
    LastCountsLess(Map(kept, StampOf()), RING, InWindow(now, w));
    assert Map(kept, StampOf()) == Last(Map(all, StampOf()), |kept|);
    LastCountsLess(Map(all, StampOf()), |kept|, InWindow(now, w));
  }

  /** What the table owes a pair to answer for the log: nothing of it forgotten
      inside the window, or a row already at saturation. */
  ghost predicate Suffices(log: seq<SaqObs>, pair: Pair, now: int, w: int) {
    Remembers<Pair, StampRing, nat>(MAX_PAIRS, Push, log, pair, now, w) || |History(log, pair)| >= RING
  }

  /** It does for every pair when no more than 64 were ever active together. */
  lemma ActiveFitSuffices(log: seq<SaqObs>, now: int, w: nat)
    requires Ordered(log) && ActiveFit(log, w, 64)
    requires log != [] ==> log[|log| - 1].ts <= now
    ensures forall p :: Suffices(log, p, now, w)
  {
    hide ActiveFit, Remembers;
    forall p ensures Suffices(log, p, now, w) {
      ActiveFitRemembers<Pair, StampRing, nat>(MAX_PAIRS, Push, log, p, now, w);
    }
  }

  /** Then eviction and ring overwrite cost nothing but saturation at 48: under a
      non-decreasing clock the retained in-window stamps of the pair are the newest
      48 of the log's. */
  lemma RetainedIsExact(log: seq<SaqObs>, pair: Pair, now: int, w: int)
    requires Ordered(log) && Suffices(log, pair, now, w)
    requires log != [] ==> log[|log| - 1].ts <= now
    ensures Filter(Retained(log, pair), InWindow(now, w)) == Last(Filter(Stamps(log, pair), InWindow(now, w)), 48)
  {
    hide Run, Since, Filter, Remembers;
    var (kept, all) := (History(log, pair), OfKey(log, pair));
    if Remembers<Pair, StampRing, nat>(MAX_PAIRS, Push, log, pair, now, w) {
      WindowIsExact<Pair, StampRing, nat>(MAX_PAIRS, Push, log, pair, now, w, ObsInWindow(now, w));
      FilterMap(kept, StampOf(), InWindow(now, w), ObsInWindow(now, w));
      FilterMap(all, StampOf(), InWindow(now, w), ObsInWindow(now, w));
      WindowRises(log, pair, now, w);
      LastRising(Map(kept, StampOf()), RING, InWindow(now, w));
    } else {
      var lost := LossFillsWindow(log, pair, now, w);
      FilterAll(Last(Map(kept, StampOf()), RING), InWindow(now, w));
    }
  }

  /** If something of a pair inside the window is lost, all that is kept of it is
      inside the window. */
  lemma LossFillsWindow(log: seq<SaqObs>, pair: Pair, now: int, w: int) returns (lost: seq<Stamp>)
    requires Ordered(log) && !Remembers<Pair, StampRing, nat>(MAX_PAIRS, Push, log, pair, now, w)
    requires log != [] ==> log[|log| - 1].ts <= now
    ensures forall i :: 0 <= i < |History(log, pair)| ==> InWindow(now, w)(Map(History(log, pair), StampOf())[i])
    ensures lost != [] && Filter(Stamps(log, pair), InWindow(now, w)) == lost + Map(History(log, pair), StampOf())
  {
    hide Run, Since, Filter;
    var (kept, all) := (History(log, pair), OfKey(log, pair));
    var dropped := Forgotten<Pair, StampRing, nat>(MAX_PAIRS, Push, log, pair);
    OfKeyOrdered(log, pair);
    SinceInLog<Pair, StampRing, nat>(MAX_PAIRS, Push, log, pair);
    var k :| 0 <= k < |dropped| && now - all[k].ts <= w;
    var (u, v) := (Map(dropped, StampOf()), Map(kept, StampOf()));
    forall i | 0 <= i < |kept| ensures InWindow(now, w)(v[i]) {
      assert kept[i] == all[|dropped| + i] && kept[i] in log;
    }
    assert Stamps(log, pair) == u + v;
    FilterConcat(u, v, InWindow(now, w));
    FilterAll(v, InWindow(now, w));
    FilterMember(log, ByKey(pair), all[k]);
    FilterMember(u, InWindow(now, w), u[k]);
    lost := Filter(u, InWindow(now, w));
  }

  /** So a pair's count is the log's, capped at the ring size, if and only if the
      table kept enough of it. */
  lemma HeldIsExactIff(log: seq<SaqObs>, pair: Pair, now: int, w: int)
    requires Ordered(log)
    requires log != [] ==> log[|log| - 1].ts <= now
    ensures Held(log, pair, now, w) == Min(48, Naive(log, pair, now, w)) <==> Suffices(log, pair, now, w)
  {
    hide Run, Since, Filter, Remembers;
    if Suffices(log, pair, now, w) {
      RetainedIsExact(log, pair, now, w);
    } else {
      var lost := LossFillsWindow(log, pair, now, w);
      FilterAll(Map(History(log, pair), StampOf()), InWindow(now, w));
    }
  }

  /** Enough is the newest in-window stamps of the pair, up to the 48 a row can hold. In
      the log it is kept if the table was not crowded since any of them, and under stamps
      that tell pairs apart only then. */
  lemma SufficesInLog(log: seq<SaqObs>, pair: Pair, now: int, w: int)
    requires Ordered(log)
    requires log != [] ==> log[|log| - 1].ts <= now
    ensures Suffices(log, pair, now, w) <==> |History(log, pair)| >= Min(RING, Naive(log, pair, now, w))
    ensures NewestUncrowded(log, pair, Min(RING, Naive(log, pair, now, w))) ==> Suffices(log, pair, now, w)
    ensures Unshared(log) ==>
              (Suffices(log, pair, now, w) <==> NewestUncrowded(log, pair, Min(RING, Naive(log, pair, now, w))))
  {
    hide Run, Since, Filter, Remembers, NewestUncrowded, Unshared;
    HeldIsExactIff(log, pair, now, w);
    if !Suffices(log, pair, now, w) {
      var lost := LossFillsWindow(log, pair, now, w);
    }
    NewestInLog(log, pair, Min(RING, Naive(log, pair, now, w)));
  }

  /** The table was not crowded since any of the pair's newest k frames. */
  ghost predicate NewestUncrowded(log: seq<SaqObs>, pair: Pair, k: nat) {
    forall i :: 0 <= i < |OfKey(log, pair)| && |OfKey(log, pair)| - k <= i ==> !CrowdedSince(log, pair, MAX_PAIRS, i)
  }

  lemma NewestInLog(log: seq<SaqObs>, pair: Pair, k: nat)
    requires Ordered(log) && k <= |OfKey(log, pair)|
    ensures NewestUncrowded(log, pair, k) ==> |History(log, pair)| >= k
    ensures Unshared(log) ==> (|History(log, pair)| >= k <==> NewestUncrowded(log, pair, k))
  {
    hide Run, Since, OfKey, CrowdedSince, OverrunSince, Unshared, Ordered;
    var (all, h) := (OfKey(log, pair), History(log, pair));
    forall i | 0 <= i < |all|
      ensures !CrowdedSince(log, pair, MAX_PAIRS, i) ==> |all| - |h| <= i
      ensures Unshared(log) ==> (|all| - |h| <= i <==> !CrowdedSince(log, pair, MAX_PAIRS, i))
    {
      KeptIffNotCrowded<Pair, StampRing, nat>(MAX_PAIRS, Push, log, pair, i);
    }
    if k > 0 {
      var oldest := |all| - k;
      assert NewestUncrowded(log, pair, k) ==> !CrowdedSince(log, pair, MAX_PAIRS, oldest);
    }
  }

  function ObsInWindow(now: int, w: int): SaqObs -> bool {
    (o: SaqObs) => now - o.ts <= w && now >= o.ts
  }

  lemma WindowRises(log: seq<SaqObs>, pair: Pair, now: int, w: int)
    requires Ordered(log)
    requires log != [] ==> log[|log| - 1].ts <= now
    ensures Rises(Map(History(log, pair), StampOf()), InWindow(now, w))
  {
    hide Run, Since, Filter;
    SinceInLog<Pair, StampRing, nat>(MAX_PAIRS, Push, log, pair);
    var h := History(log, pair);
    forall i, j | 0 <= i < j < |h| ensures h[i].ts <= h[j].ts <= now {
      assert h[j] in log;
    }
  }

  /** The condition is exact: the counts agree for every pair at every observation
      if and only if no more than 64 pairs are ever active together. */
  lemma ExactIffActiveFit(log: seq<SaqObs>, w: nat)
    requires Ordered(log)
    ensures ActiveFit(log, w, 64) <==>
            forall i, p :: 0 < i <= |log| ==> AgreesAt(log[..i], p, w)
  {
    if ActiveFit(log, w, MAX_PAIRS) {
      forall i, p | 0 < i <= |log| ensures AgreesAt(log[..i], p, w) {
        forall j | 0 < j <= i ensures |Active(log[..i][..j], w)| <= MAX_PAIRS {
          assert log[..i][..j] == log[..j];
        }
        ActiveFitSuffices(log[..i], log[i - 1].ts, w);
        HeldIsExactIff(log[..i], p, log[i - 1].ts, w);
      }
    }
    if forall i, p :: 0 < i <= |log| ==> AgreesAt(log[..i], p, w) {
      forall i | 0 < i <= |log| ensures |Active(log[..i], w)| <= MAX_PAIRS {
        forall p ensures AgreesAt(log[..i], p, w) {}
        AgreementNeedsRoom(log[..i], w);
      }
    }
  }

  ghost predicate AgreesAt(log: seq<SaqObs>, pair: Pair, w: nat)
    requires log != []
  {
    var now := log[|log| - 1].ts;
    Held(log, pair, now, w) == Min(RING, Naive(log, pair, now, w))
  }

  lemma AgreementNeedsRoom(log: seq<SaqObs>, w: nat)
    requires log != [] && Ordered(log)
    requires forall p :: AgreesAt(log, p, w)
    ensures |Active(log, w)| <= MAX_PAIRS
  {
    var now := log[|log| - 1].ts;
    ActiveAreResident<Pair, StampRing, nat>(MAX_PAIRS, Push, log, w);
    forall k | k in Active(log, w) ensures Has(Rows(log), k) {
      var o :| o in log && now - o.ts <= w && o.key == k;
      var i :| 0 <= i < |log| && log[i] == o;
      assert AgreesAt(log, k, w);
      if !Has(Rows(log), k) {
        AbsentHoldsNothing(log, k, now, w);
        OneInWindow(log, o, now, w);
        assert false;
      }
    }
  }

  lemma OneInWindow(log: seq<SaqObs>, o: SaqObs, now: int, w: int)
    requires o in log && now - o.ts <= w && o.ts <= now
    ensures Naive(log, o.key, now, w) > 0
  {
    FilterMember(log, ByKey(o.key), o);
    var all := OfKey(log, o.key);
    var i :| 0 <= i < |all| && all[i] == o;
    assert Map(all, StampOf())[i] == Stamp(o.ts, o.what);
    FilterMember(Stamps(log, o.key), InWindow(now, w), Stamp(o.ts, o.what));
  }

  /** So the detector fires, for any threshold the ring can reach, exactly when
      the log holds a pair with that many frames in the window. */
  lemma FloodFiresExactly(log: seq<SaqObs>, now: int, w: int, thresh: int, best: nat, who: Option<Pair>)
    requires Ordered(log) && forall p :: Suffices(log, p, now, w)
    requires log != [] ==> log[|log| - 1].ts <= now
    requires 0 < thresh <= 48
    requires Busiest(log, now, w, best, who)
    ensures best >= thresh <==> exists p :: Naive(log, p, now, w) >= thresh
    ensures who.Some? ==> best == Min(48, Naive(log, who.value, now, w))
    ensures forall p :: Naive(log, p, now, w) <= 48 ==> Naive(log, p, now, w) <= best
  {
    hide Held, Naive, Suffices;
    forall p ensures Held(log, p, now, w) == Min(RING, Naive(log, p, now, w)) {
      HeldIsExactIff(log, p, now, w);
    }
    if best >= thresh {
      assert Naive(log, who.value, now, w) >= thresh;
    }
  }

  // ----- Evidence ---------------------------------------------------------

  function EventId(): Stamp -> nat { (s: Stamp) => s.ev }

  /** `saq_flood_evidence`: the newest `max` non-zero IDs among the very stamps
      the flood query counts for the pair, oldest first. */
  method FloodEvidence(t: SaqTable, pair: Pair, now: int, w: int, out: array<nat>, max: int)
    returns (k: nat)
    requires IsSaq(t) && max <= out.Length
    modifies out
    ensures IsSaq(t) && t.log == old(t.log)
    ensures max > 0 ==> k <= max && out[..k] == Last(Ids(Retained(t.log, pair), InWindow(now, w), EventId()), max)
    ensures max <= 0 ==> k == 0
    ensures forall j :: 0 <= j < out.Length && max <= j ==> out[j] == old(out[j])
  {
    var i := t.Lookup(pair);
    ghost var rows := t.rows[..t.n];
    if i == t.n {
      AbsentHoldsNothing(t.log, pair, now, w);
      return 0;
    }
    assert rows[i] == t.rows[i];
    RowHolds(t.log, i);
    var ring := t.rows[i].data;
    k := CiteNewest(ring.slots, ring.head, ring.n, Map(History(t.log, pair), StampOf()),
                    InWindow(now, w), EventId(), out, max);
    assert t.rows[..t.n] == rows;
  }

  /** No citation without a counted frame: every cited ID is that of a logged
      frame of the pair inside the window, and there are no more than were counted. */
  lemma CitedWereCounted(log: seq<SaqObs>, pair: Pair, now: int, w: int, max: nat)
    ensures var ids := Last(Ids(Retained(log, pair), InWindow(now, w), EventId()), max);
            && |ids| <= Held(log, pair, now, w)
            && forall id :: id in ids ==> id != 0 && exists o :: o in log && o.key == pair && o.what == id && ObsInWindow(now, w)(o)
  {
    hide Run, Since, Filter, Ids;
    IdsWereSelected(Retained(log, pair), InWindow(now, w), EventId(), max);
    var ids := Last(Ids(Retained(log, pair), InWindow(now, w), EventId()), max);
    forall id | id in ids
      ensures exists o :: o in log && o.key == pair && o.what == id && ObsInWindow(now, w)(o)
    {
      var s :| s in Retained(log, pair) && InWindow(now, w)(s) && EventId()(s) == id;
      var o := RetainedInLog(log, pair, s);
    }
  }

  /** And where the table kept enough of the pair nothing newer was left out: the
      citation is the one the whole log gives, over its newest 48 counted frames. */
  lemma EvidenceIsExact(log: seq<SaqObs>, pair: Pair, now: int, w: int)
    requires Ordered(log) && Suffices(log, pair, now, w)
    requires log != [] ==> log[|log| - 1].ts <= now
    ensures Ids(Retained(log, pair), InWindow(now, w), EventId()) ==
            Filter(Map(Last(Filter(Stamps(log, pair), InWindow(now, w)), RING), EventId()), NonZero())
  {
    hide Run, Since, Filter;
    RetainedIsExact(log, pair, now, w);
  }

  lemma RetainedInLog(log: seq<SaqObs>, pair: Pair, s: Stamp) returns (o: SaqObs)
    requires s in Retained(log, pair)
    ensures o in log && o.key == pair && Stamp(o.ts, o.what) == s
  {
    hide Run, Since, Filter;
    SinceInLog<Pair, StampRing, nat>(MAX_PAIRS, Push, log, pair);
    var h := History(log, pair);
    var stamps := Map(h, StampOf());
    assert s in stamps;
    var i :| 0 <= i < |stamps| && stamps[i] == s;
    o := h[i];
    assert o in h;
  }
}
