/** Channel Switch Announcements: one ring of the latest 128, from every carrier. */
module Csa {
  import opened Wrappers
  import opened Seqs
  import opened Rings
  import opened Dot11

  const MAX_EVENTS: nat := 128

  datatype Event = Event(bssid: Mac, ta: Mac, opClass: Byte, channel: Byte, mode: Byte,
                         count: Byte, source: Byte, fromChannel: Byte, ts: int)

  /** `csa_observe`: channels outside 1..233 are refused, the other arguments are
      narrowed to an octet; without a transmitter the BSSID stands for it. */
  function Accept(bssid: Mac, ta: Option<Mac>, channel: int, opClass: int, mode: int, count: int,
                  source: int, fromChannel: int, now: int): seq<Event> {
    if channel <= 0 || channel > 233 then []
    else [Event(bssid, if ta.Some? then ta.value else bssid, if opClass > 0 then opClass % 256 else 0, channel, if mode != 0 then 1 else 0,
                count % 256, source % 256, if fromChannel > 0 then fromChannel % 256 else 0, now)]
  }

  // ----- The frame walk ---------------------------------------------------

  const ACT_CHANNEL_SWITCH: Byte := 4
  const SRC_ACTION: int := 2

  datatype Announced = Announced(found: bool, mode: Byte, channel: Byte, count: Byte, opClass: Byte)

  /** The last announcement wins, but an operating class once read stays. */
  function Read(a: Announced, e: Elem): Announced {
    var b := e.body;
    if e.tag == 37 && |b| >= 3 then Announced(true, b[0], b[1], b[2], a.opClass)
    else if e.tag == 60 && |b| >= 4 then Announced(true, b[0], b[2], b[3], b[1])
    else a
  }

  function ReadAll(es: seq<Elem>): Announced {
    if es == [] then Announced(false, 0, 0, 0, 0) else Read(ReadAll(es[..|es| - 1]), es[|es| - 1])
  }

  predicate IsAnnouncement(e: Elem) { (e.tag == 37 && |e.body| >= 3) || (e.tag == 60 && |e.body| >= 4) }

  /** Whatever precedes it, the last announcing element decides the channel, mode and
      count; the operating class is its own if it carries one, else what earlier
      elements left. */
  lemma {:induction false} LastAnnouncementWins(pre: seq<Elem>, e: Elem, post: seq<Elem>)
    requires IsAnnouncement(e) && forall i :: 0 <= i < |post| ==> !IsAnnouncement(post[i])
    ensures var (a, b) := (ReadAll(pre + [e] + post), e.body);
            a == if e.tag == 37 then Announced(true, b[0], b[1], b[2], ReadAll(pre).opClass)
                 else Announced(true, b[0], b[2], b[3], b[1])
  {
    if post == [] {
      assert pre + [e] + post == pre + [e] && (pre + [e])[..|pre|] == pre;
    } else {
      var f := post[..|post| - 1];
      LastAnnouncementWins(pre, e, f);
      var all := pre + [e] + post;
      assert all[..|all| - 1] == pre + [e] + f && all[|all| - 1] == post[|post| - 1];
    }
  }

  /** Whether `csa_frame` answers 1, and what it records. */
  function Announcement(f: Frame): Option<Announced> {
    match CategoryOf(f)
    case Readable(cat, action) =>
      if cat != CAT_SPECTRUM || action != ACT_CHANNEL_SWITCH then None
      else
        var a := ReadAll(Elements(f.p[f.HdrLen() + 2..]));
        if a.found then Some(a) else None
    case _ => None
  }

  function Observations(f: Frame, now: int): seq<Event> {
    match Announcement(f)
    case Some(a) => Accept(f.Bssid(), Some(f.Ta()), a.channel, a.opClass, a.mode, a.count, SRC_ACTION, 0, now)
    case None => []
  }

  method WalkAnnouncements(region: seq<Byte>) returns (a: Announced)
    ensures a == ReadAll(Elements(region))
  {
    hide Elements, Leftover, Fits;
    a := Announced(false, 0, 0, 0, 0);
    var it := new TlvIter(region);
    ghost var done: seq<Elem> := [];
    assert it.p[0..] == it.p;
    while it.status.Walking?
      invariant it.Valid() && fresh(it) && it.p == region
      invariant Elements(region) == done + Elements(it.p[it.off..])
      invariant it.status != Walking ==> Elements(it.p[it.off..]) == []
      invariant a == ReadAll(done)
      decreases |it.p| - it.off, it.status.Walking?
    {
      var next := it.Next();
      if next.Got? {
        assert (done + [next.e])[..|done|] == done;
        a := Read(a, next.e);
        done := done + [next.e];
      }
    }
    assert done == Elements(region);
  }

  // ----- Queries, over any sequence of events ------------------------------

  /** Live events of a BSS: stamped, and no older than the window. A stamp in the
      future counts. */
  function Live(bssid: Mac, now: int, w: int): Event -> bool {
    (e: Event) => e.ts != 0 && now - e.ts <= w && e.bssid == bssid
  }

  function NotOld(now: int, w: int): Event -> bool { (e: Event) => now - e.ts <= w }

  function Targets(events: seq<Event>, bssid: Mac, now: int, w: int): set<Byte> {
    set e | e in events && Live(bssid, now, w)(e) :: e.channel
  }

  /** A live event, not stamped before the epoch, of the greatest stamp. */
  predicate Newest(events: seq<Event>, bssid: Mac, now: int, w: int, e: Event) {
    && e in events && Live(bssid, now, w)(e) && e.ts > 0
    && forall x :: x in events && Live(bssid, now, w)(x) ==> x.ts <= e.ts
  }

  ghost predicate Ordered(log: seq<Event>) {
    forall i, j :: 0 <= i < j < |log| ==> log[i].ts <= log[j].ts
  }

  function OfBss(bssid: Mac): Event -> bool { (e: Event) => e.bssid == bssid }

  /** The targets of a BSS are the channels its own stamped announcements in the window
      name, and no other BSS adds to them. */
  lemma TargetsAre(s: seq<Event>, bssid: Mac, now: int, w: int)
    ensures Targets(s, bssid, now, w) == Targets(Filter(s, OfBss(bssid)), bssid, now, w)
    ensures forall c: Byte :: c in Targets(s, bssid, now, w) <==>
                       exists e :: e in s && e.channel == c && e.bssid == bssid && e.ts != 0 && now - e.ts <= w
  {
    hide Filter;
    forall e ensures e in Filter(s, OfBss(bssid)) <==> e in s && e.bssid == bssid {
      FilterMember(s, OfBss(bssid), e);
    }
    forall c: Byte | exists e :: e in s && e.channel == c && e.bssid == bssid && e.ts != 0 && now - e.ts <= w
      ensures c in Targets(s, bssid, now, w)
    {
      var e :| e in s && e.channel == c && e.bssid == bssid && e.ts != 0 && now - e.ts <= w;
      assert Live(bssid, now, w)(e);
    }
  }

  lemma NoTargets(bssid: Mac, now: int, w: int)
    ensures Targets([], bssid, now, w) == {}
  {
  }

  lemma TargetsPush(s: seq<Event>, e: Event, bssid: Mac, now: int, w: int)
    ensures Targets(s + [e], bssid, now, w) ==
            Targets(s, bssid, now, w) + if Live(bssid, now, w)(e) then {e.channel} else {}
  {
    forall x ensures x in s + [e] <==> x in s || x == e {}
  }

  lemma TargetsOfSlots(slots: seq<Event>, next: nat, n: nat, log: seq<Event>, bssid: Mac, now: int, w: int)
    requires Holds(slots, next, n, log)
    ensures Targets(slots[..n], bssid, now, w) == Targets(Last(log, |slots|), bssid, now, w)
  {
    forall x ensures x in slots[..n] <==> x in Last(log, |slots|) {
      SlotMembers(slots, next, n, log, x);
    }
  }

  /** The snapshot's modular walk meets the slots the way the cursor left them. */
  lemma SnapshotSlot(next: nat, k: nat)
    requires next < MAX_EVENTS && k < MAX_EVENTS
    ensures (next - 1 - k + MAX_EVENTS * 2) % MAX_EVENTS == Behind(next, k + 1, MAX_EVENTS)
  {
  }

  class EventRing {
    const slots: array<Event>
    var next: nat
    var n: nat
    ghost var log: seq<Event>

    ghost predicate Valid()
      reads this, slots
    {
      slots.Length == MAX_EVENTS && Holds(slots[..], next, n, log)
    }

    constructor ()
      ensures Valid() && fresh(slots) && log == []
    {
      var zero := [0, 0, 0, 0, 0, 0];
      slots := new Event[MAX_EVENTS](_ => Event(zero, zero, 0, 0, 0, 0, 0, 0, 0));
      next, n, log := 0, 0, [];
    }

    method Observe(bssid: Mac, ta: Option<Mac>, channel: int, opClass: int, mode: int, count: int,
                   source: int, fromChannel: int, now: int)
      requires Valid()
      modifies this, slots
      ensures Valid()
      ensures log == old(log) + Accept(bssid, ta, channel, opClass, mode, count, source, fromChannel, now)
    {
      if channel <= 0 || channel > 233 { return; }
      var e := Event(bssid, if ta.Some? then ta.value else bssid, if opClass > 0 then opClass % 256 else 0, channel, if mode != 0 then 1 else 0,
                     count % 256, source % 256, if fromChannel > 0 then fromChannel % 256 else 0, now);
      Push(slots[..], next, n, log, e);
      slots[next] := e;
      next := (next + 1) % MAX_EVENTS;
      if n < MAX_EVENTS { n := n + 1; }
      log := log + [e];
    }

    method ObserveFrame(f: Frame, now: int) returns (found: bool)
      requires Valid()
      modifies this, slots
      ensures Valid() && log == old(log) + Observations(f, now)
      ensures found == Announcement(f).Some?
    {
      var c := CategoryOf(f);
      if !c.Readable? || c.cat != CAT_SPECTRUM || c.action != ACT_CHANNEL_SWITCH { return false; }
      var a := WalkAnnouncements(f.p[f.HdrLen() + 2..]);
      if !a.found { return false; }
      Observe(f.Bssid(), Some(f.Ta()), a.channel, a.opClass, a.mode, a.count, SRC_ACTION, 0, now);
      found := true;
    }

    /** Distinct target channels of a BSS among the retained live events. */
    method DistinctTargets(bssid: Mac, now: int, w: int) returns (k: nat)
      requires Valid()
      ensures k == |Targets(Last(log, 128), bssid, now, w)|
    {
      hide Unrolled, Targets;
      var seen := new bool[256](_ => false);
      ghost var found: set<Byte> := {};
      k := 0;
      NoTargets(bssid, now, w);
      assert slots[..0] == [];
      for i := 0 to n
        invariant n <= slots.Length
        invariant k == |found| && found == Targets(slots[..i], bssid, now, w)
        invariant forall c: Byte :: seen[c] <==> c in found
      {
        var e := slots[i];
        assert slots[..i + 1] == slots[..i] + [e];
        TargetsPush(slots[..i], e, bssid, now, w);
        if e.ts == 0 || now - e.ts > w { continue; }
        if e.bssid != bssid { continue; }
        if !seen[e.channel] {
          seen[e.channel] := true;
          k := k + 1;
        }
        found := found + {e.channel};
      }
      assert slots[..][..n] == slots[..n];
      TargetsOfSlots(slots[..], next, n, log, bssid, now, w);
    }

    /** `csa_latest`: scans the slots upwards keeping the greatest stamp, so among
        equal stamps the highest slot wins. */
    method Latest(bssid: Mac, now: int, w: int) returns (slot: Option<nat>)
      requires Valid()
      ensures slot == LatestSlot(slots[..n], bssid, now, w)
    {
      slot := None;
      var best := 0;
      for i := 0 to n
        invariant slot == LatestSlot(slots[..i], bssid, now, w)
        invariant best == match slot { case Some(s) => slots[s].ts case None => 0 }
      {
        var e := slots[i];
        assert slots[..i + 1][..i] == slots[..i];
        if e.ts == 0 || now - e.ts > w { continue; }
        if e.bssid != bssid { continue; }
        if e.ts < best { continue; }
        best, slot := e.ts, Some(i);
      }
    }

    /** The ring newest first. */
    method Snapshot() returns (out: seq<Event>)
      requires Valid()
      ensures out == Reverse(Last(log, 128))
    {
      out := [];
      for k := 0 to n
        invariant |out| == k && n <= MAX_EVENTS && |Last(log, MAX_EVENTS)| == n
        invariant forall j :: 0 <= j < k ==> out[j] == Last(log, MAX_EVENTS)[n - 1 - j]
      {
        SnapshotSlot(next, k);
        NewestAt(slots[..], next, n, log, k + 1);
        out := out + [slots[(next - 1 - k + MAX_EVENTS * 2) % MAX_EVENTS]];
      }
    }

    method Clear()
      requires Valid()
      modifies this
      ensures Valid() && log == []
    {
      next, n, log := 0, 0, [];
      assert Last(log, MAX_EVENTS) == slots[..][..0];
    }
  }

  // ----- What the ring answers for the log --------------------------------

  /** With at most 128 announcements inside the window, under a non-decreasing
      clock, the ring and the unbounded log give the same set of channels. */
  lemma TargetsAreExact(log: seq<Event>, bssid: Mac, now: int, w: int)
    requires Ordered(log) && Count(log, NotOld(now, w)) <= 128
    ensures Targets(Last(log, 128), bssid, now, w) == Targets(log, bssid, now, w)
  {
    hide Filter;
    LastCovers(log, MAX_EVENTS, NotOld(now, w), Live(bssid, now, w));
    forall e | e in log && Live(bssid, now, w)(e) ensures e in Last(log, MAX_EVENTS) {
      FilterMember(log, Live(bssid, now, w), e);
      FilterMember(Last(log, MAX_EVENTS), Live(bssid, now, w), e);
    }
  }

  /** And in every case the ring reports no channel the log does not contain. */
  lemma TargetsAreLogged(log: seq<Event>, bssid: Mac, now: int, w: int)
    ensures Targets(Last(log, MAX_EVENTS), bssid, now, w) <= Targets(log, bssid, now, w)
  {
    forall e | e in Last(log, MAX_EVENTS) ensures e in log {}
  }

  /** The slot `csa_latest` copies out. */
  function LatestSlot(slots: seq<Event>, bssid: Mac, now: int, w: int): (r: Option<nat>)
    ensures r.Some? ==> r.value < |slots| && slots[r.value].ts > 0
  {
    if slots == [] then None
    else
      var (e, r) := (slots[|slots| - 1], LatestSlot(slots[..|slots| - 1], bssid, now, w));
      var best := match r { case Some(s) => slots[s].ts case None => 0 };
      if Live(bssid, now, w)(e) && e.ts >= best then Some(|slots| - 1) else r
  }

  lemma {:induction false} LatestSlotLive(slots: seq<Event>, bssid: Mac, now: int, w: int)
    ensures var r := LatestSlot(slots, bssid, now, w);
            && (r.None? <==> forall e :: e in slots && Live(bssid, now, w)(e) ==> e.ts <= 0)
            && (r.Some? ==> Newest(slots, bssid, now, w, slots[r.value]))
            && (r.Some? ==> forall s :: r.value < s < |slots| && Live(bssid, now, w)(slots[s]) ==> slots[s].ts < slots[r.value].ts)
  {
    if slots == [] {
    } else {
      var f := slots[..|slots| - 1];
      LatestSlotLive(f, bssid, now, w);
      assert slots == f + [slots[|slots| - 1]];
    }
  }

  /** It is an event of the BSS in the window, of the greatest stamp, in the highest slot
      holding one; there is none exactly if no event of the BSS in the window is stamped
      after the epoch. */
  lemma LatestSlotIs(slots: seq<Event>, bssid: Mac, now: int, w: int)
    ensures var r := LatestSlot(slots, bssid, now, w);
            && (r.None? <==> forall e :: e in slots && e.bssid == bssid && now - e.ts <= w ==> e.ts <= 0)
            && (r.Some? ==> slots[r.value].bssid == bssid && slots[r.value].ts > 0 && now - slots[r.value].ts <= w)
            && (r.None? <==> forall e :: e in slots && Live(bssid, now, w)(e) ==> e.ts <= 0)
            && (r.Some? ==> Newest(slots, bssid, now, w, slots[r.value]))
            && (r.Some? ==> forall s :: r.value < s < |slots| && Live(bssid, now, w)(slots[s]) ==> slots[s].ts < slots[r.value].ts)
  {
    hide LatestSlot;
    LatestSlotLive(slots, bssid, now, w);
    assert forall e :: e in slots && e.bssid == bssid && now - e.ts <= w && e.ts > 0 ==> Live(bssid, now, w)(e);
  }

  /** The event returned is a retained one of the greatest stamp. */
  lemma LatestIsNewest(slots: seq<Event>, next: nat, n: nat, log: seq<Event>, bssid: Mac, now: int, w: int)
    requires Holds(slots, next, n, log)
    ensures var r := LatestSlot(slots[..n], bssid, now, w);
            && (r.None? <==> forall e :: e in Last(log, |slots|) && Live(bssid, now, w)(e) ==> e.ts <= 0)
            && (r.Some? ==> Newest(Last(log, |slots|), bssid, now, w, slots[r.value]))
  {
    LatestSlotIs(slots[..n], bssid, now, w);
    forall x ensures x in slots[..n] <==> x in Last(log, |slots|) {
      SlotMembers(slots, next, n, log, x);
    }
  }

  /** Entry j is the last stamped announcement of the BSS inside the window, whoever
      announced since. */
  ghost predicate LastLive(log: seq<Event>, bssid: Mac, now: int, w: int, j: nat) {
    && j < |log| && log[j].bssid == bssid && log[j].ts != 0 && now - log[j].ts <= w
    && forall i :: j < i < |log| && log[i].bssid == bssid && log[i].ts != 0 ==> now - log[i].ts > w
  }

  /** Entry i is a live announcement, still retained, of the same second as entry j but
      from the lap before: the scan prefers its slot. */
  ghost predicate Outranks(log: seq<Event>, m: nat, bssid: Mac, now: int, w: int, i: nat, j: nat)
    requires 0 < m && j < |log|
  {
    && |log| - m <= i < LapStart(j, m)
    && log[i].bssid == bssid && log[i].ts == log[j].ts != 0 && now - log[i].ts <= w
  }

  /** The entry in the slot the scan chooses is of the last live announcement's second,
      and no live one of that second sits higher. */
  lemma LatestEntry(slots: seq<Event>, next: nat, n: nat, log: seq<Event>, bssid: Mac, now: int, w: int, j: nat)
    returns (i: nat)
    requires Holds(slots, next, n, log) && Ordered(log) && LastLive(log, bssid, now, w, j)
    requires log[j].ts > 0 && |log| - n <= j
    ensures |log| - n <= i <= j && Live(bssid, now, w)(log[i]) && log[i].ts == log[j].ts
    ensures LatestSlot(slots[..n], bssid, now, w) == Some(SlotOf(i, |slots|))
    ensures forall k: nat :: |log| - n <= k < |log| && SlotOf(k, |slots|) > SlotOf(i, |slots|) && Live(bssid, now, w)(log[k])
                        ==> log[k].ts < log[i].ts
  {
    hide Unrolled, Last, LatestSlot, SlotOf;
    LatestSlotIs(slots[..n], bssid, now, w);
    var r := LatestSlot(slots[..n], bssid, now, w);
    SlotOfEntry(slots, next, n, log, j);
    assert slots[..n][SlotOf(j, |slots|)] == log[j];
    i := EntryOfSlot(slots, next, n, log, r.value);
    forall k: nat | |log| - n <= k < |log| && SlotOf(k, |slots|) > SlotOf(i, |slots|) && Live(bssid, now, w)(log[k])
      ensures log[k].ts < log[i].ts
    {
      SlotOfEntry(slots, next, n, log, k);
      assert slots[..n][SlotOf(k, |slots|)] == log[k];
    }
  }

  lemma LostIsNotFound(slots: seq<Event>, next: nat, n: nat, log: seq<Event>, bssid: Mac, now: int, w: int, j: nat)
    requires Holds(slots, next, n, log) && Ordered(log) && LastLive(log, bssid, now, w, j)
    requires log[j].ts <= 0 || j < |log| - n
    ensures LatestSlot(slots[..n], bssid, now, w) == None
  {
    hide Unrolled, Last, LatestSlot, SlotOf;
    LatestSlotIs(slots[..n], bssid, now, w);
    forall e | e in slots[..n] && Live(bssid, now, w)(e) ensures e.ts <= 0 {
      var s :| 0 <= s < n && slots[s] == e;
      var i := EntryOfSlot(slots, next, n, log, s);
    }
  }

  /** `csa_latest` finds the BSS's last live announcement if and only if the ring still
      retains it and no live one of its second outranks it; before the ring wraps none
      can. */
  lemma LatestIsLastIff(slots: seq<Event>, next: nat, n: nat, log: seq<Event>, bssid: Mac, now: int, w: int, j: nat)
    requires Holds(slots, next, n, log) && Ordered(log) && LastLive(log, bssid, now, w, j)
    ensures |log| - |slots| <= j ==> Sits(slots, n, log, j, SlotOf(j, |slots|))
    ensures LatestSlot(slots[..n], bssid, now, w) == Some(SlotOf(j, |slots|)) <==>
            && log[j].ts > 0 && |log| - |slots| <= j
            && forall i: nat :: !Outranks(log, |slots|, bssid, now, w, i, j)
    ensures |log| <= |slots| && log[j].ts > 0 ==> LatestSlot(slots[..n], bssid, now, w) == Some(j)
  {
    hide Holds, LatestSlot, SlotOf, LapStart, Ordered, LastLive;
    var m := |slots|;
    HoldsSize(slots, next, n, log);
    LapBefore(j, m);
    LastLiveIs(log, bssid, now, w, j);
    if |log| - m <= j { SlotOfEntry(slots, next, n, log, j); }
    if log[j].ts <= 0 || j < |log| - m {
      LostIsNotFound(slots, next, n, log, bssid, now, w, j);
    } else {
      var i := LatestEntry(slots, next, n, log, bssid, now, w, j);
      if i < j {
        SlotAbove(i, j, m);
        assert Outranks(log, m, bssid, now, w, i, j);
      } else {
        forall k: nat ensures !Outranks(log, m, bssid, now, w, k, j) {
          if |log| - m <= k < LapStart(j, m) { SlotAbove(k, j, m); }
        }
      }
    }
  }

  /** When one does, the newest such is what it gives instead. */
  lemma LatestOtherwise(slots: seq<Event>, next: nat, n: nat, log: seq<Event>, bssid: Mac, now: int, w: int,
                        i: nat, j: nat)
    requires Holds(slots, next, n, log) && Ordered(log) && LastLive(log, bssid, now, w, j) && log[j].ts > 0
    requires Outranks(log, |slots|, bssid, now, w, i, j)
    requires forall k: nat :: i < k < |log| ==> !Outranks(log, |slots|, bssid, now, w, k, j)
    ensures LatestSlot(slots[..n], bssid, now, w) == Some(SlotOf(i, |slots|))
  {
    hide Holds, LatestSlot, SlotOf, LapStart, Ordered, LastLive;
    var m := |slots|;
    HoldsSize(slots, next, n, log);
    LapBefore(j, m);
    LastLiveIs(log, bssid, now, w, j);
    SlotAbove(i, j, m);
    var k := LatestEntry(slots, next, n, log, bssid, now, w, j);
    if k < j { SlotAbove(k, j, m); }
    assert i < k ==> !Outranks(log, m, bssid, now, w, k, j);
    if k < i { SameLap(k, i, j, m); }
  }

  lemma LastLiveIs(log: seq<Event>, bssid: Mac, now: int, w: int, j: nat)
    requires LastLive(log, bssid, now, w, j)
    ensures j < |log| && Live(bssid, now, w)(log[j])
  {
  }

  lemma LapBefore(j: nat, m: nat)
    requires 0 < m
    ensures LapStart(j, m) <= j
  {
  }

  /** After a wrap the highest-slot rule can return an older announcement: 129 in
      one second, the last to a new channel, and the answer is the old channel. */
  lemma LatestNeedNotBeLast(bssid: Mac)
    ensures var (a, b) := (Event(bssid, bssid, 0, 6, 0, 0, 0, 0, 1), Event(bssid, bssid, 0, 11, 0, 0, 0, 0, 1));
            var slots := Full(a)[0 := b];
            && Holds(slots, 1, MAX_EVENTS, Full(a) + [b]) && Ordered(Full(a) + [b])
            && LatestSlot(slots, bssid, 1, 60) == Some(127) && slots[127] == a != b
  {
    hide Unrolled, Holds, LatestSlot;
    var (a, b) := (Event(bssid, bssid, 0, 6, 0, 0, 0, 0, 1), Event(bssid, bssid, 0, 11, 0, 0, 0, 0, 1));
    WrappedRing(a, b);
    HighestSlotWins(Full(a)[0 := b], bssid, 1, 60);
  }

  function Full(a: Event): (s: seq<Event>)
    ensures |s| == MAX_EVENTS && forall i :: 0 <= i < MAX_EVENTS ==> s[i] == a
  {
    seq(MAX_EVENTS, _ => a)
  }

  /** Among live events of one stamp the top slot is the answer. */
  lemma HighestSlotWins(slots: seq<Event>, bssid: Mac, now: int, w: int)
    requires slots != [] && Live(bssid, now, w)(slots[|slots| - 1]) && slots[|slots| - 1].ts > 0
    requires forall e :: e in slots ==> e.ts <= slots[|slots| - 1].ts
    ensures LatestSlot(slots, bssid, now, w) == Some(|slots| - 1)
  {
    LatestSlotIs(slots[..|slots| - 1], bssid, now, w);
  }

  lemma WrappedRing(a: Event, b: Event)
    ensures Holds(Full(a)[0 := b], 1, MAX_EVENTS, Full(a) + [b])
  {
    assert Full(a) == Full(a)[0..] + Full(a)[..0];
    Push(Full(a), 0, MAX_EVENTS, Full(a), b);
  }
}
