/** Fixed-size ring buffers with a write cursor, and what they retain of the
    unbounded log written through them. */
module Rings {
  import opened Seqs

  /** The retained entries of a ring, oldest first. */
  function Unrolled<T>(slots: seq<T>, head: nat, n: nat): seq<T>
    requires head < |slots| && n <= |slots|
  {
    if n < |slots| then slots[..n] else slots[head..] + slots[..head]
  }

  /** The ring holds exactly the newest |slots| entries of `log`, in order. */
  ghost predicate Holds<T>(slots: seq<T>, head: nat, n: nat, log: seq<T>) {
    && 0 < |slots|
    && n == Min(|log|, |slots|)
    && head == |log| % |slots|
    && Unrolled(slots, head, n) == Last(log, |slots|)
  }

  lemma DivMod(x: nat, m: nat) returns (q: nat, r: nat)
    requires 0 < m
    ensures x == m * q + r && r < m && x % m == r
  {
    q, r := x / m, x % m;
  }

  lemma ModNext(x: nat, m: nat)
    requires 0 < m
    ensures (x + 1) % m == (x % m + 1) % m == if x % m + 1 == m then 0 else x % m + 1
  {
    var q, r := DivMod(x, m);
    ModAfter(x, m, q, r);
    ModAfter(r, m, 0, r);
  }

  lemma ModAfter(x: nat, m: nat, q: nat, r: nat)
    requires 0 < m && r < m && x == m * q + r
    ensures (x + 1) % m == if r + 1 == m then 0 else r + 1
  {
    if r + 1 == m {
      assert m * (q + 1) == m * q + m;
      ModUnique(x + 1, m, q + 1, 0);
    } else {
      ModUnique(x + 1, m, q, r + 1);
    }
  }

  lemma ModUnique(x: nat, m: nat, q: nat, r: nat)
    requires 0 < m && r < m && x == m * q + r
    ensures x % m == r && x / m == q
  {
    var d := x / m - q;
    assert m * d == r - x % m;
    MulSign(m, d);
  }

  lemma MulSign(m: nat, d: int)
    ensures d >= 1 ==> m * d >= m
    ensures d <= -1 ==> m * d + m <= 0
  {
    assert m * d == m * (d - 1) + m == m * (d + 1) - m;
    if d >= 1 {
      assert 0 <= m * (d - 1);
    } else if d <= -1 {
      assert m * (d + 1) <= 0;
    }
  }

  lemma ModWithin(x: nat, m: nat)
    requires 0 < m
    ensures x % m < m && (x < m ==> x % m == x)
  {
    if x < m { ModUnique(x, m, 0, x); }
  }

  lemma PushFull<T>(slots: seq<T>, head: nat, x: T)
    requires head < |slots|
    ensures var next := if head + 1 == |slots| then 0 else head + 1;
            Unrolled(slots[head := x], next, |slots|) == Unrolled(slots, head, |slots|)[1..] + [x]
  {
    var (after, a, b) := (slots[head := x], slots[..head], slots[head + 1..]);
    assert slots[head..] == [slots[head]] + b;
    assert Unrolled(slots, head, |slots|)[1..] == b + a;
    assert after[..head + 1] == a + [x];
    if head + 1 == |slots| {
      assert after[0..] + after[..0] == after[..head + 1];
      assert b + a == a;
    } else {
      assert after[head + 1..] == b;
      assert b + (a + [x]) == b + a + [x];
    }
  }

  lemma PushRoom<T>(slots: seq<T>, n: nat, x: T)
    requires n < |slots|
    ensures Unrolled(slots[n := x], if n + 1 == |slots| then 0 else n + 1, n + 1) == slots[..n] + [x]
  {
    var after := slots[n := x];
    assert after[..n + 1] == slots[..n] + [x];
    if n + 1 == |slots| { assert after[..n + 1] == after[0..] + after[..0]; }
  }

  /** Writing at the cursor and advancing it modulo the size appends to the log. */
  lemma Push<T>(slots: seq<T>, head: nat, n: nat, log: seq<T>, x: T)
    requires Holds(slots, head, n, log)
    ensures Holds(slots[head := x], (head + 1) % |slots|, if n < |slots| then n + 1 else n, log + [x])
  {
    var m := |slots|;
    ModNext(|log|, m);
    if n < m {
      ModWithin(|log|, m);
      PushRoom(slots, n, x);
      assert Last(log + [x], m) == slots[..n] + [x];
    } else {
      PushFull(slots, head, x);
      assert Last(log + [x], m) == Last(log, m)[1..] + [x];
    }
  }

  /** The slot `step` writes behind the cursor, as the C code computes it. */
  function Behind(head: nat, step: nat, m: nat): (slot: nat)
    requires head < m && step <= m
    ensures slot < m
  {
    (head - step + m) % m
  }

  /** It holds the step-th newest entry, across any wrap-around. */
  lemma NewestAt<T>(slots: seq<T>, head: nat, n: nat, log: seq<T>, step: nat)
    requires Holds(slots, head, n, log) && 1 <= step <= n
    ensures slots[Behind(head, step, |slots|)] == Last(log, |slots|)[n - step]
  {
    var m := |slots|;
    if n < m { ModUnique(|log|, m, 0, |log|); }
    if step <= head {
      ModUnique(head - step + m, m, 1, head - step);
    } else {
      ModUnique(head - step + m, m, 0, head - step + m);
    }
  }

  /** The slot entry i of the log is written to. */
  function SlotOf(i: nat, m: nat): (slot: nat)
    requires 0 < m
    ensures slot < m && (i < m ==> slot == i)
  {
    ModWithin(i, m);
    i % m
  }

  /** Where the cursor last passed slot 0 before writing entry i. */
  function LapStart(i: nat, m: nat): nat
    requires 0 < m
  {
    ModWithin(i, m);
    i - i % m
  }

  /** Entry i is retained, and sits in this slot. */
  ghost predicate Sits<T>(slots: seq<T>, n: nat, log: seq<T>, i: nat, slot: nat)
    requires 0 < |slots|
  {
    |log| - n <= i < |log| && slot == SlotOf(i, |slots|) && slot < n <= |slots| && slots[slot] == log[i]
  }

  lemma HoldsSize<T>(slots: seq<T>, head: nat, n: nat, log: seq<T>)
    requires Holds(slots, head, n, log)
    ensures 0 < |slots| && n == Min(|log|, |slots|)
  {
  }

  lemma SlotOfEntry<T>(slots: seq<T>, head: nat, n: nat, log: seq<T>, i: nat)
    requires Holds(slots, head, n, log) && |log| - n <= i < |log|
    ensures Sits(slots, n, log, i, SlotOf(i, |slots|))
  {
    hide Unrolled, Behind;
    var m := |slots|;
    NewestAt(slots, head, n, log, |log| - i);
    var q, h := DivMod(|log|, m);
    var p, slot := DivMod(i, m);
    BehindIs(|log|, i, m, q, h, p, slot);
  }

  lemma BehindIs(len: nat, i: nat, m: nat, q: nat, head: nat, p: nat, slot: nat)
    requires 0 < m && len == m * q + head && head < m && i == m * p + slot && slot < m
    requires len - m <= i < len
    ensures Behind(head, len - i, m) == slot
  {
    if p == q {
      ModUnique(head - (len - i) + m, m, 1, slot);
    } else {
      assert m * (q - p) == m * q - m * p;
      MulSign(m, q - p);
      MulSign(m, q - p - 1);
      MulSign(m, q - p - 2);
      assert q == p + 1;
      assert m * q == m * p + m;
      ModUnique(head - (len - i) + m, m, 0, slot);
    }
  }

  /** Every slot in use holds a retained entry. */
  lemma EntryOfSlot<T>(slots: seq<T>, head: nat, n: nat, log: seq<T>, slot: nat) returns (i: nat)
    requires Holds(slots, head, n, log) && slot < n
    ensures Sits(slots, n, log, i, slot)
  {
    hide Unrolled;
    var m := |slots|;
    var q, h := DivMod(|log|, m);
    i := LapEntry(|log|, m, q, h, slot);
    SlotOfEntry(slots, head, n, log, i);
  }

  lemma LapEntry(len: nat, m: nat, q: nat, head: nat, slot: nat) returns (i: nat)
    requires 0 < m && len == m * q + head && head < m && slot < Min(len, m)
    ensures len - Min(len, m) <= i < len && SlotOf(i, m) == slot
  {
    if slot < head {
      i := m * q + slot;
      ModUnique(i, m, q, slot);
    } else {
      assert q > 0;
      assert m * (q - 1) == m * q - m;
      i := m * (q - 1) + slot;
      ModUnique(i, m, q - 1, slot);
    }
  }

  /** Of two entries less than a lap apart the older sits in the higher slot exactly
      when the cursor has passed slot 0 in between. */
  lemma SlotAbove(i: nat, j: nat, m: nat)
    requires i < j < i + m
    ensures SlotOf(i, m) > SlotOf(j, m) <==> i < LapStart(j, m)
    ensures SlotOf(i, m) != SlotOf(j, m)
  {
    var q, b := DivMod(j, m);
    SlotInLap(i, j, m, q, b);
  }

  lemma SlotInLap(i: nat, j: nat, m: nat, q: nat, b: nat)
    requires 0 < m && j == m * q + b && b < m && i < j < i + m
    ensures SlotOf(i, m) == if i >= j - b then i - (j - b) else i - (j - b - m)
  {
    if i >= j - b {
      ModUnique(i, m, q, i - (j - b));
    } else {
      assert m * (q - 1) == m * q - m;
      ModUnique(i, m, q - 1, i - (j - b - m));
    }
  }

  /** Two entries of one lap sit in log order. */
  lemma SameLap(k: nat, i: nat, j: nat, m: nat)
    requires 0 < m && k < i < LapStart(j, m) && j < k + m
    ensures SlotOf(k, m) < SlotOf(i, m)
  {
    var q, b := DivMod(j, m);
    SlotInLap(k, j, m, q, b);
    SlotInLap(i, j, m, q, b);
  }

  /** Counting slot by slot counts the retained log. */
  lemma CountSlots<T>(slots: seq<T>, head: nat, n: nat, log: seq<T>, p: T -> bool)
    requires Holds(slots, head, n, log)
    ensures Count(slots[..n], p) == Count(Last(log, |slots|), p)
  {
    if n == |slots| {
      FilterConcat(slots[head..], slots[..head], p);
      FilterConcat(slots[..head], slots[head..], p);
      assert slots[..n] == slots[..head] + slots[head..];
    }
  }

  /** Membership, likewise. */
  lemma SlotMembers<T>(slots: seq<T>, head: nat, n: nat, log: seq<T>, x: T)
    requires Holds(slots, head, n, log)
    ensures x in slots[..n] <==> x in Last(log, |slots|)
  {
    if n == |slots| {
      assert slots[..n] == slots[..head] + slots[head..];
    }
  }

  /** Reverses out[..k] in place (`ev_cite_reverse`). */
  method CiteReverse(out: array<nat>, k: nat)
    requires k <= out.Length
    modifies out
    ensures out[..k] == Reverse(old(out[..k]))
    ensures forall j :: k <= j < out.Length ==> out[j] == old(out[j])
  {
    for i := 0 to k / 2
      invariant forall j :: 0 <= j < k ==> out[j] == if j < i || j >= k - i then old(out[k - 1 - j]) else old(out[j])
      invariant forall j :: k <= j < out.Length ==> out[j] == old(out[j])
    {
      out[i], out[k - 1 - i] := out[k - 1 - i], out[i];
    }
  }

  function NonZero(): nat -> bool { x => x != 0 }

  /** The non-zero event IDs of the entries `sel` selects, oldest first. */
  function Ids<T>(entries: seq<T>, sel: T -> bool, id: T -> nat): seq<nat> {
    Filter(Map(Filter(entries, sel), id), NonZero())
  }

  lemma IdsConcat<T>(a: seq<T>, b: seq<T>, sel: T -> bool, id: T -> nat)
    ensures Ids(a + b, sel, id) == Ids(a, sel, id) + Ids(b, sel, id)
  {
    FilterConcat(a, b, sel);
    var (fa, fb) := (Filter(a, sel), Filter(b, sel));
    assert Map(fa + fb, id) == Map(fa, id) + Map(fb, id);
    FilterConcat(Map(fa, id), Map(fb, id), NonZero());
  }

  /** No citation without a selected entry. */
  lemma IdsWereSelected<T(!new)>(entries: seq<T>, sel: T -> bool, id: T -> nat, max: nat)
    ensures var ids := Last(Ids(entries, sel, id), max);
            && |ids| <= Count(entries, sel)
            && forall x :: x in ids ==> x != 0 && exists e :: e in entries && sel(e) && id(e) == x
  {
    hide Filter;
    var chosen := Filter(entries, sel);
    var ids := Last(Ids(entries, sel, id), max);
    forall x | x in ids ensures x != 0 && exists e :: e in entries && sel(e) && id(e) == x {
      assert x in Ids(entries, sel, id);
      FilterMember(Map(chosen, id), NonZero(), x);
      var c :| 0 <= c < |chosen| && id(chosen[c]) == x;
      FilterMember(entries, sel, chosen[c]);
    }
  }

  /** And none is missing but for room: every non-zero ID of a selected entry is there. */
  lemma SelectedAreCited<T(!new)>(entries: seq<T>, sel: T -> bool, id: T -> nat, e: T)
    requires e in entries && sel(e) && id(e) != 0
    ensures id(e) in Ids(entries, sel, id)
  {
    hide Filter;
    var chosen := Filter(entries, sel);
    FilterMember(entries, sel, e);
    var i :| 0 <= i < |chosen| && chosen[i] == e;
    assert Map(chosen, id)[i] == id(e);
    FilterMember(Map(chosen, id), NonZero(), id(e));
  }

  /** The IDs of the entries fewer than `step` writes behind the cursor. */
  ghost function IdsFrom<T>(slots: seq<T>, head: nat, n: nat, log: seq<T>, step: nat, sel: T -> bool, id: T -> nat): seq<nat>
    requires Holds(slots, head, n, log) && 1 <= step <= n + 1
  {
    Ids(Last(log, |slots|)[n - step + 1..], sel, id)
  }

  lemma CiteStart<T>(slots: seq<T>, head: nat, n: nat, log: seq<T>, sel: T -> bool, id: T -> nat)
    requires Holds(slots, head, n, log)
    ensures head < |slots| && n <= |slots| && IdsFrom(slots, head, n, log, 1, sel, id) == []
  {
    assert Last(log, |slots|)[n..] == [];
  }

  lemma CiteStep<T>(slots: seq<T>, head: nat, n: nat, log: seq<T>, step: nat, sel: T -> bool, id: T -> nat)
    requires Holds(slots, head, n, log) && 1 <= step <= n
    ensures var e := slots[Behind(head, step, |slots|)];
            IdsFrom(slots, head, n, log, step + 1, sel, id)
            == (if sel(e) && id(e) != 0 then [id(e)] else []) + IdsFrom(slots, head, n, log, step, sel, id)
  {
    hide Behind, Unrolled, Ids;
    NewestAt(slots, head, n, log, step);
    IdsCons(Last(log, |slots|), n - step, sel, id);
  }

  lemma IdsCons<T>(s: seq<T>, i: nat, sel: T -> bool, id: T -> nat)
    requires i < |s|
    ensures Ids(s[i..], sel, id) == (if sel(s[i]) && id(s[i]) != 0 then [id(s[i])] else []) + Ids(s[i + 1..], sel, id)
  {
    hide Ids;
    assert s[i..] == [s[i]] + s[i + 1..];
    IdsConcat([s[i]], s[i + 1..], sel, id);
    OneId(s[i], sel, id);
  }

  lemma OneId<T>(e: T, sel: T -> bool, id: T -> nat)
    ensures Ids([e], sel, id) == if sel(e) && id(e) != 0 then [id(e)] else []
  {
    assert [e] == [] + [e];
    FilterPush([], e, sel);
    if sel(e) {
      assert Map(Filter([e], sel), id) == [] + [id(e)];
      FilterPush([], id(e), NonZero());
    }
  }

  /** Stopping once `max` are found loses nothing the answer needs. */
  lemma CiteDone<T>(slots: seq<T>, head: nat, n: nat, log: seq<T>, step: nat, sel: T -> bool, id: T -> nat, max: nat)
    requires Holds(slots, head, n, log) && 1 <= step <= n + 1
    requires var found := IdsFrom(slots, head, n, log, step, sel, id);
             |found| <= max && (step == n + 1 || |found| == max)
    ensures IdsFrom(slots, head, n, log, step, sel, id) == Last(Ids(Last(log, |slots|), sel, id), max)
  {
    hide Unrolled, Ids;
    var kept := Last(log, |slots|);
    var cut := n - step + 1;
    assert kept == kept[..cut] + kept[cut..];
    IdsConcat(kept[..cut], kept[cut..], sel, id);
    if cut == 0 { assert kept[cut..] == kept; }
  }

  lemma ReversePush<T>(s: seq<T>, x: T)
    ensures Reverse(s + [x]) == [x] + Reverse(s)
  {
  }

  /** Walks backwards from the write cursor collecting the IDs of the selected
      entries, until the ring or the room runs out. */
  method CollectNewest<T>(slots: seq<T>, head: nat, n: nat, ghost log: seq<T>,
                          sel: T -> bool, id: T -> nat, out: array<nat>, max: nat)
    returns (k: nat)
    requires Holds(slots, head, n, log)
    requires max <= out.Length
    modifies out
    ensures k <= max && Reverse(out[..k]) == Last(Ids(Last(log, |slots|), sel, id), max)
    ensures forall j :: max <= j < out.Length ==> out[j] == old(out[j])
  {
    hide Ids, Unrolled, Behind, Holds, Last, Reverse;
    k := 0;
    ghost var found: seq<nat> := [];
    var step := 1;
    CiteStart(slots, head, n, log, sel, id);
    while step <= n && k < max
      invariant 1 <= step <= n + 1 && k == |found| <= max
      invariant Reverse(out[..k]) == found
      invariant found == IdsFrom(slots, head, n, log, step, sel, id)
      invariant forall j :: max <= j < out.Length ==> out[j] == old(out[j])
    {
      var e := slots[Behind(head, step, |slots|)];
      CiteStep(slots, head, n, log, step, sel, id);
      if sel(e) && id(e) != 0 {
        ReversePush(out[..k], id(e));
        ghost var was := out[..k];
        out[k] := id(e);
        assert out[..k + 1] == was + [id(e)];
        k, found := k + 1, [id(e)] + found;
      }
      step := step + 1;
    }
    CiteDone(slots, head, n, log, step, sel, id, max);
  }

  /** What `saq_flood_evidence` and `btm_forcing_evidence` both do: collect
      newest first, then turn the result round. */
  method CiteNewest<T>(slots: seq<T>, head: nat, n: nat, ghost log: seq<T>,
                       sel: T -> bool, id: T -> nat, out: array<nat>, max: int)
    returns (k: nat)
    requires Holds(slots, head, n, log)
    requires max <= out.Length
    modifies out
    ensures max <= 0 ==> k == 0 && out[..] == old(out[..])
    ensures max > 0 ==> k <= max && out[..k] == Last(Ids(Last(log, |slots|), sel, id), max)
    ensures forall j :: 0 <= j < out.Length && max <= j ==> out[j] == old(out[j])
  {
    if max <= 0 { return 0; }
    k := CollectNewest(slots, head, n, log, sel, id, out, max);
    CiteReverse(out, k);
  }
}
