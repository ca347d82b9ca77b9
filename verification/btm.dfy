/** BTM steering: a ring of the latest 256 accepted requests, read by the rate
    query, beside a durable table of 128 (BSSID, station) rows. */
module Btm {
  import opened Wrappers
  import opened Seqs
  import opened Rings
  import opened Lru
  import opened Sorting
  import opened Dot11
  import opened BtmRequest

  const RING: nat := 256
  const MAX_PAIRS: nat := 128

  datatype Evt = Evt(pair: Pair, imminent: bool, ts: int, eventId: nat)

  datatype Steer = Steer(reqCount: nat, imminentCount: nat, mode: Byte, timer: nat, validity: Byte,
                         candidates: seq<Mac>, truncated: bool, firstSeen: int)

  type BtmObs = Obs<Pair, Request>
  type SteerRow = Row<Pair, Steer>

  /** `btm_observe`'s guard: neither address may be zero or a group. */
  function Accept(r: Request, now: int): seq<BtmObs> {
    if Usable(r.bssid) && Usable(r.sta) then [Obs(Pair(r.bssid, r.sta), now, r)] else []
  }

  function Observations(f: Frame, now: int): seq<BtmObs> {
    match Parse(f)
    case Some(r) => Accept(r, now)
    case None => []
  }

  function EvtOf(): BtmObs -> Evt {
    (o: BtmObs) => Evt(o.key, IsImminent(o.what.mode), o.ts, o.what.eventId)
  }

  /** The candidate list is replaced, not merged. */
  function Fold(was: Option<Steer>, o: BtmObs): Steer {
    var s := if was.Some? then was.value else Steer(0, 0, 0, 0, 0, [], false, o.ts);
    Steer(s.reqCount + 1, if IsImminent(o.what.mode) then s.imminentCount + 1 else s.imminentCount,
          o.what.mode, o.what.timer, o.what.validity, o.what.candidates, o.what.truncated, s.firstSeen)
  }

  // ----- Queries, over any sequence of events ------------------------------

  /** A stamp of zero marks a slot never written; a future stamp counts. */
  function Live(now: int, w: int): Evt -> bool { (e: Evt) => e.ts != 0 && now - e.ts <= w }

  function Steers(pair: Pair, now: int, w: int): Evt -> bool {
    (e: Evt) => e.ts != 0 && now - e.ts <= w && e.pair == pair
  }

  function Forces(pair: Pair, now: int, w: int): Evt -> bool {
    (e: Evt) => e.ts != 0 && now - e.ts <= w && e.pair == pair && e.imminent
  }

  function Forced(events: seq<Evt>, pair: Pair, now: int, w: int): nat { Count(events, Forces(pair, now, w)) }

  function Total(events: seq<Evt>, pair: Pair, now: int, w: int): nat { Count(events, Steers(pair, now, w)) }

  /** What `btm_forcing_pair` owes over the events it can see: a pair with the
      largest imminent count, if that reaches the threshold, and that same pair's
      total. */
  ghost predicate Answer(events: seq<Evt>, now: int, w: int, thresh: int, best: nat, total: nat, who: Option<Pair>) {
    && (best == 0 <==> who.None?) && (who.None? ==> total == 0)
    && (who.Some? ==> Forced(events, who.value, now, w) == best >= thresh && Total(events, who.value, now, w) == total)
    && forall p :: Forced(events, p, now, w) >= thresh ==> Forced(events, p, now, w) <= best
  }

  // ----- The ring as slots -------------------------------------------------

  function Blank(): Evt { Evt(Pair([0, 0, 0, 0, 0, 0], [0, 0, 0, 0, 0, 0]), false, 0, 0) }

  function Blanks(): (s: seq<Evt>)
    ensures |s| == RING && forall i :: 0 <= i < RING ==> s[i] == Blank()
  {
    seq(RING, _ => Blank())
  }

  /** 256 zeroed slots overwritten in turn: always full, counting the blanks. */
  ghost predicate RingOf(slots: seq<Evt>, cursor: nat, events: seq<Evt>) {
    |slots| == RING && Holds(slots, cursor, RING, Blanks() + events)
  }

  lemma BlankSuffix(events: seq<Evt>) returns (blanks: seq<Evt>)
    ensures Last(Blanks() + events, RING) == blanks + Last(events, RING)
    ensures forall i :: 0 <= i < |blanks| ==> blanks[i] == Blank()
  {
    blanks := Blanks()[..if |events| >= RING then 0 else RING - |events|];
  }

  lemma SlotsCount(slots: seq<Evt>, cursor: nat, events: seq<Evt>, p: Evt -> bool)
    requires RingOf(slots, cursor, events) && !p(Blank())
    ensures Count(slots, p) == Count(Last(events, RING), p)
  {
    hide Filter, Unrolled;
    CountSlots(slots, cursor, RING, Blanks() + events, p);
    assert slots[..RING] == slots;
    var blanks := BlankSuffix(events);
    FilterConcat(blanks, Last(events, RING), p);
    FilterNone(blanks, p);
  }

  lemma SlotsIds(events: seq<Evt>, p: Evt -> bool, id: Evt -> nat)
    requires !p(Blank())
    ensures Ids(Last(Blanks() + events, RING), p, id) == Ids(Last(events, RING), p, id)
  {
    var blanks := BlankSuffix(events);
    IdsConcat(blanks, Last(events, RING), p, id);
    FilterNone(blanks, p);
  }

  class Steering {
    const ring: array<Evt>
    var cursor: nat
    const table: Table<Pair, Steer, Request>
    ghost var ringLog: seq<BtmObs>

    ghost predicate Valid()
      reads this, ring, table, table.rows
    {
      && ring.Length == RING && RingOf(ring[..], cursor, Map(ringLog, EvtOf()))
      && table.Valid() && table.cap == MAX_PAIRS && table.upd == Fold
    }

    constructor ()
      ensures Valid() && fresh(ring) && fresh(table) && fresh(table.rows)
      ensures ringLog == [] && table.log == []
    {
      var zero := Blank().pair;
      ring := new Evt[RING](_ => Blank());
      table := new Table(MAX_PAIRS, Fold, Row(zero, 0, Steer(0, 0, 0, 0, 0, [], false, 0)));
      cursor, ringLog := 0, [];
      new;
      assert ring[..] == Blanks();
      assert Blanks() + Map([], EvtOf()) == Blanks();
      assert Blanks() == Blanks()[0..] + Blanks()[..0];
    }

    /** First atomic step: `ring_record`. */
    method RecordRing(o: BtmObs)
      requires Valid()
      modifies this, ring
      ensures Valid() && ringLog == old(ringLog) + [o] && table.log == old(table.log)
      ensures old(ringLog) == old(table.log) ==> Step(Logs(old(ringLog), old(table.log)), Logs(ringLog, table.log))
    {
      var e := EvtOf()(o);
      ghost var events := Map(ringLog, EvtOf());
      Push(ring[..], cursor, RING, Blanks() + events, e);
      assert Blanks() + events + [e] == Blanks() + Map(ringLog + [o], EvtOf());
      ring[cursor] := e;
      cursor := (cursor + 1) % RING;
      ringLog := ringLog + [o];
      assert Logs(ringLog, table.log) == Logs(old(ringLog), table.log).(ring := old(ringLog) + [o]);
    }

    /** Second atomic step: the table row. */
    method RecordRow(o: BtmObs)
      requires Valid()
      modifies table, table.rows
      ensures Valid() && table.log == old(table.log) + [o] && ringLog == old(ringLog)
      ensures old(ringLog) == old(table.log) + [o] ==>
                Step(Logs(old(ringLog), old(table.log)), Logs(ringLog, table.log))
    {
      table.Observe(o);
    }

    method Observe(r: Request, now: int)
      requires Valid()
      modifies this, ring, table, table.rows
      ensures Valid()
      ensures ringLog == old(ringLog) + Accept(r, now)
      ensures table.log == old(table.log) + Accept(r, now)
    {
      if !Usable(r.bssid) || !Usable(r.sta) { return; }
      var o := Obs(Pair(r.bssid, r.sta), now, r);
      RecordRing(o);
      RecordRow(o);
    }

    method ObserveFrame(f: Frame, now: int)
      requires Valid()
      modifies this, ring, table, table.rows
      ensures Valid()
      ensures ringLog == old(ringLog) + Observations(f, now)
      ensures table.log == old(table.log) + Observations(f, now)
    {
      var r := ParseFrame(f);
      if r.Some? { Observe(r.value, now); }
    }

    ghost function Retained(): seq<Evt>
      reads this
    {
      Last(Map(ringLog, EvtOf()), RING)
    }

    method SeenEarlier(i: nat, now: int, w: int) returns (seen: bool)
      requires Valid() && i < RING
      ensures seen <==> exists j :: 0 <= j < i && Steers(ring[i].pair, now, w)(ring[j])
    {
      for j := 0 to i
        invariant forall k :: 0 <= k < j ==> !Steers(ring[i].pair, now, w)(ring[k])
      {
        if ring[j].ts != 0 && now - ring[j].ts <= w && ring[j].pair == ring[i].pair {
          assert Steers(ring[i].pair, now, w)(ring[j]);
          return true;
        }
      }
      seen := false;
    }

    method CountPair(pair: Pair, now: int, w: int) returns (imminent: nat, total: nat)
      requires Valid()
      ensures imminent == Forced(Retained(), pair, now, w) && total == Total(Retained(), pair, now, w)
    {
      hide Unrolled, RingOf, Holds;
      ghost var slots := ring[..];
      imminent, total := 0, 0;
      for j := 0 to RING
        invariant imminent == Count(slots[..j], Forces(pair, now, w))
        invariant total == Count(slots[..j], Steers(pair, now, w))
      {
        FilterNext(slots, j, Forces(pair, now, w));
        FilterNext(slots, j, Steers(pair, now, w));
        var e := ring[j];
        if e.ts == 0 || now - e.ts > w { continue; }
        if e.pair != pair { continue; }
        total := total + 1;
        if e.imminent { imminent := imminent + 1; }
      }
      assert slots[..RING] == slots;
      SlotsCount(slots, cursor, Map(ringLog, EvtOf()), Forces(pair, now, w));
      SlotsCount(slots, cursor, Map(ringLog, EvtOf()), Steers(pair, now, w));
    }

    /** Scores each pair at its first live slot only. */
    method ForcingPair(now: int, w: int, thresh: int) returns (best: nat, total: nat, who: Option<Pair>)
      requires Valid()
      ensures Answer(Retained(), now, w, thresh, best, total, who)
    {
      hide Forced, Total, Unrolled, Filter;
      best, total, who := 0, 0, None;
      ghost var events := Retained();
      for i := 0 to RING
        invariant (best == 0 <==> who.None?) && (who.None? ==> total == 0)
        invariant who.Some? ==> Forced(events, who.value, now, w) == best >= thresh && Total(events, who.value, now, w) == total
        invariant forall j :: 0 <= j < i && Live(now, w)(ring[j]) && Forced(events, ring[j].pair, now, w) >= thresh
                    ==> Forced(events, ring[j].pair, now, w) <= best
      {
        if ring[i].ts == 0 || now - ring[i].ts > w { continue; }
        var seen := SeenEarlier(i, now, w);
        if seen {
          var j :| 0 <= j < i && Steers(ring[i].pair, now, w)(ring[j]);
          assert Live(now, w)(ring[j]);
          continue;
        }
        var imminent, all := CountPair(ring[i].pair, now, w);
        if imminent >= thresh && imminent > best {
          best, total, who := imminent, all, Some(ring[i].pair);
        }
      }
      forall p | Forced(events, p, now, w) >= thresh ensures Forced(events, p, now, w) <= best {
        if Forced(events, p, now, w) > 0 {
          var j := ForcingSlot(ring[..], cursor, Map(ringLog, EvtOf()), p, now, w);
          assert Live(now, w)(ring[j]);
        }
      }
    }

    /** `btm_forcing_evidence`. */
    method ForcingEvidence(pair: Pair, now: int, w: int, out: array<nat>, max: int) returns (k: nat)
      requires Valid() && max <= out.Length
      modifies out
      ensures Valid() && ringLog == old(ringLog)
      ensures max > 0 ==> k <= max && out[..k] == Last(Ids(Retained(), Forces(pair, now, w), EventId()), max)
      ensures max <= 0 ==> k == 0
      ensures forall j :: 0 <= j < out.Length && max <= j ==> out[j] == old(out[j])
    {
      ghost var events := Map(ringLog, EvtOf());
      SlotsIds(events, Forces(pair, now, w), EventId());
      k := CiteNewest(ring[..], cursor, RING, Blanks() + events, Forces(pair, now, w), EventId(), out, max);
    }

    /** Most recently steered first. */
    method Snapshot() returns (out: array<SteerRow>)
      requires Valid()
      ensures Valid() && fresh(out) && out[..] == Sort(Rows(table.log), BySeen())
    {
      out := new SteerRow[table.n](i requires 0 <= i < table.n && table.n <= table.rows.Length
                                     reads table, table.rows => table.rows[i]);
      assert out[..table.n] == table.rows[..table.n];
      InsertionSort(out, table.n, BySeen());
      assert out[..] == out[..table.n];
    }

    method Clear()
      requires Valid()
      modifies this, ring, table
      ensures Valid() && ringLog == [] && table.log == []
    {
      table.Clear();
      forall i | 0 <= i < ring.Length { ring[i] := Blank(); }
      cursor, ringLog := 0, [];
      assert ring[..] == Blanks();
      assert Blanks() + Map([], EvtOf()) == Blanks();
      assert Blanks() == Blanks()[0..] + Blanks()[..0];
    }
  }

  function EventId(): Evt -> nat { (e: Evt) => e.eventId }

  function BySeen(): (SteerRow, SteerRow) -> bool { (x: SteerRow, y: SteerRow) => y.seen < x.seen }

  lemma ForcingSlot(slots: seq<Evt>, cursor: nat, events: seq<Evt>, pair: Pair, now: int, w: int) returns (j: nat)
    requires RingOf(slots, cursor, events) && Forced(Last(events, RING), pair, now, w) > 0
    ensures j < RING && Forces(pair, now, w)(slots[j])
  {
    hide Filter, Unrolled, Holds, RingOf;
    SlotsCount(slots, cursor, events, Forces(pair, now, w));
    var f := Filter(slots, Forces(pair, now, w));
    FilterMember(slots, Forces(pair, now, w), f[0]);
    j :| 0 <= j < |slots| && slots[j] == f[0];
    SlotsLength(slots, cursor, events);
  }

  lemma SlotsLength(slots: seq<Evt>, cursor: nat, events: seq<Evt>)
    requires RingOf(slots, cursor, events)
    ensures |slots| == RING
  {
  }

  // ----- What the ring answers for the log --------------------------------

  ghost predicate Chronological(events: seq<Evt>) {
    && (forall i :: 0 <= i < |events| ==> events[i].ts > 0)
    && (forall i, j :: 0 <= i < j < |events| ==> events[i].ts <= events[j].ts)
  }

  /** With no more than 256 requests in the window the ring answers as the whole
      log: same verdict, same counts, for every pair. */
  lemma ForcingIsExact(events: seq<Evt>, now: int, w: int, thresh: int, best: nat, total: nat, who: Option<Pair>)
    requires Chronological(events) && Count(events, Live(now, w)) <= 256
    requires Answer(Last(events, RING), now, w, thresh, best, total, who)
    ensures Answer(events, now, w, thresh, best, total, who)
  {
    hide Filter;
    forall p
      ensures Forced(Last(events, RING), p, now, w) == Forced(events, p, now, w)
      ensures Total(Last(events, RING), p, now, w) == Total(events, p, now, w)
    {
      LastCovers(events, RING, Live(now, w), Forces(p, now, w));
      LastCovers(events, RING, Live(now, w), Steers(p, now, w));
    }
  }

  /** Whatever the clock and the rate, it never counts more than the log holds. */
  lemma ForcedNeverExceeds(events: seq<Evt>, pair: Pair, now: int, w: int)
    ensures Forced(Last(events, RING), pair, now, w) <= Forced(events, pair, now, w)
    ensures Total(Last(events, RING), pair, now, w) <= Total(events, pair, now, w)
  {
    LastCountsLess(events, RING, Forces(pair, now, w));
    LastCountsLess(events, RING, Steers(pair, now, w));
  }

  /** Every cited ID is that of an imminent request the verdict counted. */
  lemma CitedWereCounted(events: seq<Evt>, pair: Pair, now: int, w: int, max: nat)
    ensures var ids := Last(Ids(Last(events, RING), Forces(pair, now, w), EventId()), max);
            && |ids| <= Forced(Last(events, RING), pair, now, w)
            && forall id :: id in ids ==> id != 0 && exists e :: e in events && e.eventId == id && Forces(pair, now, w)(e)
  {
    hide Filter, Ids;
    IdsWereSelected(Last(events, RING), Forces(pair, now, w), EventId(), max);
    var ids := Last(Ids(Last(events, RING), Forces(pair, now, w), EventId()), max);
    forall id | id in ids ensures exists e :: e in events && e.eventId == id && Forces(pair, now, w)(e) {
      var e :| e in Last(events, RING) && Forces(pair, now, w)(e) && EventId()(e) == id;
      assert e in events;
    }
  }

  /** With no more than 256 requests in the window the citation is the whole log's. */
  lemma EvidenceIsExact(events: seq<Evt>, pair: Pair, now: int, w: int)
    requires Chronological(events) && Count(events, Live(now, w)) <= RING
    ensures Ids(Last(events, RING), Forces(pair, now, w), EventId()) == Ids(events, Forces(pair, now, w), EventId())
  {
    hide Filter;
    LastCovers(events, RING, Live(now, w), Forces(pair, now, w));
  }

  /** The bound is exact: every pair's total agrees with the log if and only if the
      window holds at most 256 requests. */
  lemma RingExactIff(events: seq<Evt>, now: int, w: int)
    requires Chronological(events)
    ensures (forall p :: Total(Last(events, RING), p, now, w) == Total(events, p, now, w))
            <==> Count(events, Live(now, w)) <= 256
  {
    hide Filter;
    if Count(events, Live(now, w)) <= RING {
      forall p ensures Total(Last(events, RING), p, now, w) == Total(events, p, now, w) {
        LastCovers(events, RING, Live(now, w), Steers(p, now, w));
      }
    } else {
      var older := LastSplit(events, RING);
      var newer := Last(events, RING);
      FilterConcat(older, newer, Live(now, w));
      var f := Filter(older, Live(now, w));
      var p := f[0].pair;
      FilterMember(older, Live(now, w), f[0]);
      FilterMember(older, Steers(p, now, w), f[0]);
      FilterConcat(older, newer, Steers(p, now, w));
      assert Total(newer, p, now, w) < Total(events, p, now, w);
    }
  }

  /** Every imminent request in the window is among the newest 256. */
  ghost predicate ImminentAreNewest(events: seq<Evt>, now: int, w: int) {
    forall i :: 0 <= i < |events| - 256 && events[i].imminent ==> !(events[i].ts != 0 && now - events[i].ts <= w)
  }

  /** The counts compared with the threshold are the log's for every pair if and only
      if every imminent request in the window is among the newest 256. */
  lemma ForcedExactIff(events: seq<Evt>, now: int, w: int)
    ensures (forall p :: Forced(Last(events, RING), p, now, w) == Forced(events, p, now, w))
            <==> ImminentAreNewest(events, now, w)
  {
    hide Filter;
    var older := LastSplit(events, RING);
    var newer := Last(events, RING);
    if i :| 0 <= i < |older| && events[i].imminent && Live(now, w)(events[i]) {
      var p := events[i].pair;
      FilterMember(older, Forces(p, now, w), older[i]);
      FilterConcat(older, newer, Forces(p, now, w));
      assert Forced(newer, p, now, w) < Forced(events, p, now, w);
    } else {
      forall p ensures Forced(newer, p, now, w) == Forced(events, p, now, w) {
        forall i | 0 <= i < |older| ensures !Forces(p, now, w)(older[i]) { assert older[i] == events[i]; }
        FilterNone(older, Forces(p, now, w));
        FilterConcat(older, newer, Forces(p, now, w));
      }
    }
  }

  /** Then the very requests counted are the log's. */
  lemma ForcesAreNewest(events: seq<Evt>, pair: Pair, now: int, w: int)
    requires ImminentAreNewest(events, now, w)
    ensures Filter(Last(events, RING), Forces(pair, now, w)) == Filter(events, Forces(pair, now, w))
  {
    hide Filter;
    var older := LastSplit(events, RING);
    forall i | 0 <= i < |older| ensures !Forces(pair, now, w)(older[i]) { assert older[i] == events[i]; }
    FilterNone(older, Forces(pair, now, w));
    FilterConcat(older, Last(events, RING), Forces(pair, now, w));
  }

  /** The n-th of many distinct stations of one BSS. */
  function PairNo(n: nat): Pair
    requires n < 128
  {
    Pair([2, 0, 0, 0, 0, 1], [2, 0, 0, 0, 0, n])
  }

  function Storm(): seq<Evt> { seq(512, i requires 0 <= i < 512 => Evt(PairNo(i / 4), true, 1, 0)) }

  /** 256 slots do not hold a threshold-rate window for every tracked pair: with
      four forcing requests to each of 128 stations in one second, the first
      station's four are gone. */
  lemma RingTooSmallForEveryPair()
    ensures Chronological(Storm())
    ensures Forced(Last(Storm(), RING), PairNo(0), 1, 60) == 0
    ensures Forced(Storm(), PairNo(0), 1, 60) == 4
  {
    var p := Forces(PairNo(0), 1, 60);
    FilterAll(Storm()[..4], p);
    FilterNone(Storm()[4..], p);
    assert Storm() == Storm()[..4] + Storm()[4..];
    FilterConcat(Storm()[..4], Storm()[4..], p);
    FilterNone(Last(Storm(), RING), p);
  }

  // ----- Rows --------------------------------------------------------------

  function Rows(log: seq<BtmObs>): seq<SteerRow> { Run<Pair, Steer, Request>(MAX_PAIRS, Fold, log) }

  function History(log: seq<BtmObs>, pair: Pair): seq<BtmObs> {
    Since<Pair, Steer, Request>(MAX_PAIRS, Fold, log, pair)
  }

  function ImminentObs(): BtmObs -> bool { (o: BtmObs) => IsImminent(o.what.mode) }

  /** A row counts the pair's accepted requests since it was created, and shows
      the latest one. */
  ghost predicate Describes(s: Steer, h: seq<BtmObs>)
    requires h != []
  {
    var last := h[|h| - 1].what;
    && s.reqCount == |h| && s.imminentCount == Count(h, ImminentObs()) && s.firstSeen == h[0].ts
    && s.mode == last.mode && s.timer == last.timer && s.validity == last.validity
    && s.candidates == last.candidates && s.truncated == last.truncated
  }

  lemma {:induction false} SteerIsHistory(h: seq<BtmObs>)
    requires h != []
    ensures Describes(Replay<Pair, Steer, Request>(Fold, h), h)
  {
    if |h| == 1 {
    } else {
      SteerIsHistory(h[..|h| - 1]);
    }
  }

  lemma RowIsHistory(log: seq<BtmObs>, i: nat)
    requires i < |Rows(log)|
    ensures var row := Rows(log)[i];
            var h := History(log, row.key);
            h != [] && Describes(row.data, h) && row.seen == h[|h| - 1].ts
  {
    TableIsFaithful<Pair, Steer, Request>(MAX_PAIRS, Fold, log);
    SteerIsHistory(History(log, Rows(log)[i].key));
  }

  /** Every pair steered inside the window has a row if and only if there are no more
      than 128 of them. */
  lemma ActiveAreListed(log: seq<BtmObs>, w: int)
    requires Ordered(log) && log != []
    ensures (forall p :: p in Active(log, w) ==> Has(Rows(log), p)) <==> |Active(log, w)| <= 128
  {
    ActiveAreResident<Pair, Steer, Request>(MAX_PAIRS, Fold, log, w);
  }

  /** The snapshot is the table, latest first, with ties in table order. */
  lemma SnapshotIsStableOrder(log: seq<BtmObs>, t: int)
    ensures var s := Sort(Rows(log), BySeen());
            && multiset(s) == multiset(Rows(log))
            && (forall i, j :: 0 <= i < j < |s| ==> s[i].seen >= s[j].seen)
            && Filter(s, (r: SteerRow) => r.seen == t) == Filter(Rows(log), (r: SteerRow) => r.seen == t)
  {
    SortMultiset(Rows(log), BySeen());
    SortSorted(Rows(log), BySeen());
    SortStable(Rows(log), BySeen(), (r: SteerRow) => r.seen == t);
  }

  /** Requests in the window, and those with bit B2 of the Request Mode. */
  function RequestIn(now: int, w: int): BtmObs -> bool { (o: BtmObs) => o.ts != 0 && now - o.ts <= w }

  function ImminentIn(now: int, w: int): BtmObs -> bool {
    (o: BtmObs) => o.ts != 0 && now - o.ts <= w && o.what.mode / 4 % 2 == 1
  }

  /** What the ring's events count of a pair are the pair's requests, as logged. */
  lemma EventsCountRequests(log: seq<BtmObs>, pair: Pair, now: int, w: int)
    ensures Forced(Map(log, EvtOf()), pair, now, w) == Count(OfKey(log, pair), ImminentIn(now, w))
    ensures Total(Map(log, EvtOf()), pair, now, w) == Count(OfKey(log, pair), RequestIn(now, w))
  {
    hide Filter;
    var forces := (o: BtmObs) => o.ts != 0 && now - o.ts <= w && o.key == pair && o.what.mode / 4 % 2 == 1;
    var steers := (o: BtmObs) => o.ts != 0 && now - o.ts <= w && o.key == pair;
    FilterMap(log, EvtOf(), Forces(pair, now, w), forces);
    FilterMap(log, EvtOf(), Steers(pair, now, w), steers);
    FilterTwice(log, ByKey(pair), ImminentIn(now, w), forces);
    FilterTwice(log, ByKey(pair), RequestIn(now, w), steers);
  }

  /** So with all of the log in the window, ring and row count alike. */
  lemma RingAndRowAgree(log: seq<BtmObs>, pair: Pair, now: int, w: int)
    requires forall i :: 0 <= i < |log| ==> log[i].ts != 0 && now - log[i].ts <= w
    ensures Forced(Map(log, EvtOf()), pair, now, w) == Count(OfKey(log, pair), ImminentObs())
    ensures Total(Map(log, EvtOf()), pair, now, w) == |OfKey(log, pair)|
  {
    hide Filter;
    EventsCountRequests(log, pair, now, w);
    var all := OfKey(log, pair);
    forall i | 0 <= i < |all| ensures all[i].ts != 0 && now - all[i].ts <= w {
      FilterMember(log, ByKey(pair), all[i]);
    }
    FilterAll(all, RequestIn(now, w));
    SameFilter(all, ImminentIn(now, w), ImminentObs());
  }

  lemma {:induction false} SameFilter<T>(s: seq<T>, p: T -> bool, q: T -> bool)
    requires forall i :: 0 <= i < |s| ==> p(s[i]) == q(s[i])
    ensures Filter(s, p) == Filter(s, q)
  {
    if s == [] {
    } else {
      SameFilter(s[..|s| - 1], p, q);
    }
  }

  // ----- The writer and its readers -----------------------------------------

  /** The two logs between atomic steps of the one writer. */
  datatype Logs = Logs(ring: seq<BtmObs>, rows: seq<BtmObs>)

  /** The writer records an accepted request in the ring, then in its row. */
  ghost predicate Step(a: Logs, b: Logs) {
    || (a.ring == a.rows && exists o :: b == a.(ring := a.ring + [o]))
    || (a.ring != a.rows && a.ring != [] && b == a.(rows := a.rows + [a.ring[|a.ring| - 1]]))
  }

  ghost predicate IsRun(trace: seq<Logs>) {
    && trace != [] && trace[0] == Logs([], [])
    && forall i :: 0 <= i < |trace| - 1 ==> Step(trace[i], trace[i + 1])
  }

  /** In every state a reader can observe, the ring's history of a pair is the
      table's, or leads it by exactly the one request in flight. */
  lemma {:induction false} RingLeadsByAtMostOne(trace: seq<Logs>, pair: Pair)
    requires IsRun(trace)
    ensures var s := trace[|trace| - 1];
            && (s.ring == s.rows || exists o :: s.ring == s.rows + [o])
            && OfKey(s.rows, pair) <= OfKey(s.ring, pair)
            && |OfKey(s.ring, pair)| - |OfKey(s.rows, pair)| <= 1
  {
    var s := trace[|trace| - 1];
    if |trace| > 1 {
      var f := trace[..|trace| - 1];
      forall i | 0 <= i < |f| - 1 ensures Step(f[i], f[i + 1]) {
        assert Step(trace[i], trace[i + 1]);
      }
      RingLeadsByAtMostOne(f, pair);
      assert Step(trace[|trace| - 2], trace[|trace| - 1]);
    }
    if s.ring != s.rows {
      var o :| s.ring == s.rows + [o];
      FilterPush(s.rows, o, ByKey(pair));
    }
  }

  /** So a live row's counts, of requests and of imminent ones, are those of the ring's
      history of the pair since the row was created, or short of the one in flight. */
  lemma RowLagsByAtMostOne(trace: seq<Logs>, i: nat)
    requires IsRun(trace) && i < |Rows(trace[|trace| - 1].rows)|
    ensures var s := trace[|trace| - 1];
            var row := Rows(s.rows)[i];
            var lost := |OfKey(s.rows, row.key)| - row.data.reqCount;
            && 0 <= lost <= |OfKey(s.ring, row.key)|
            && OfKey(s.rows, row.key)[lost..] == History(s.rows, row.key)
            && var seen := OfKey(s.ring, row.key)[lost..];
            && row.data.reqCount <= |seen| <= row.data.reqCount + 1
            && row.data.imminentCount <= Count(seen, ImminentObs()) <= row.data.imminentCount + 1
            && (row.data.reqCount == |seen| ==> row.data.imminentCount == Count(seen, ImminentObs()))
  {
    hide Filter, Run, Since;
    var s := trace[|trace| - 1];
    var row := Rows(s.rows)[i];
    RingLeadsByAtMostOne(trace, row.key);
    RowIsHistory(s.rows, i);
    SinceIsSuffix<Pair, Steer, Request>(MAX_PAIRS, Fold, s.rows, row.key);
    OneInFlight(OfKey(s.rows, row.key), OfKey(s.ring, row.key), |OfKey(s.rows, row.key)| - row.data.reqCount);
  }

  lemma OneInFlight(rows: seq<BtmObs>, ring: seq<BtmObs>, lost: nat)
    requires rows <= ring && |ring| <= |rows| + 1 && lost <= |rows|
    ensures Count(rows[lost..], ImminentObs()) <= Count(ring[lost..], ImminentObs()) <= Count(rows[lost..], ImminentObs()) + 1
    ensures |ring| == |rows| ==> ring == rows
  {
    hide Filter;
    if |ring| > |rows| {
      var o := ring[|rows|];
      assert ring[lost..] == rows[lost..] + [o];
      FilterPush(rows[lost..], o, ImminentObs());
    } else {
      assert ring == rows;
    }
  }
}
