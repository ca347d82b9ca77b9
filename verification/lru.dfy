/** The bounded, least-recently-seen-evicted table that every detector keeps.
    Its contents are a function of the whole observation log; the theorems say
    when the bounded table answers as the unbounded log would. */
module Lru {
  import opened Wrappers
  import opened Seqs

  /** One observation of `key` at time `ts`. */
  datatype Obs<+K, +E> = Obs(key: K, ts: int, what: E)

  datatype Row<+K, +V> = Row(key: K, seen: int, data: V)

  /** How an observation changes a row; None is a row just zeroed. */
  type Update<!K, !V, !E> = (Option<V>, Obs<K, E>) -> V

  /** First row of `key`, or |rows|. */
  function Find<K(==), V>(rows: seq<Row<K, V>>, key: K): (i: nat)
    ensures i <= |rows|
    ensures i < |rows| ==> rows[i].key == key
    ensures forall j :: 0 <= j < i ==> rows[j].key != key
    decreases |rows|
  {
    if rows == [] then 0
    else if rows[0].key == key then 0
    else 1 + Find(rows[1..], key)
  }

  predicate Has<K(==), V>(rows: seq<Row<K, V>>, key: K) { Find(rows, key) < |rows| }

  /** First row with the least `seen`: the one evicted. */
  function Stalest<K, V>(rows: seq<Row<K, V>>): (i: nat)
    requires rows != []
    ensures i < |rows|
    ensures forall j :: 0 <= j < |rows| ==> rows[i].seen <= rows[j].seen
    ensures forall j :: 0 <= j < i ==> rows[i].seen < rows[j].seen
  {
    if |rows| == 1 then 0
    else
      var s := Stalest(rows[..|rows| - 1]);
      if rows[|rows| - 1].seen < rows[s].seen then |rows| - 1 else s
  }

  /** The slot an observation of `key` lands in. */
  function Slot<K(==), V>(rows: seq<Row<K, V>>, cap: nat, key: K): (i: nat)
    requires 0 < cap && |rows| <= cap
    ensures i <= |rows| && i < cap
  {
    if Has(rows, key) then Find(rows, key)
    else if |rows| < cap then |rows|
    else Stalest(rows)
  }

  function Touch<K(==), V, E>(rows: seq<Row<K, V>>, cap: nat, upd: Update<K, V, E>, o: Obs<K, E>): (r: seq<Row<K, V>>)
    requires 0 < cap && |rows| <= cap
    ensures |rows| <= |r| <= cap
  {
    var i := Slot(rows, cap, o.key);
    var was := if Has(rows, o.key) then Some(rows[i].data) else None;
    var row := Row(o.key, o.ts, upd(was, o));
    if i < |rows| then rows[i := row] else rows + [row]
  }

  /** The table after a whole log. */
  function Run<K(==), V, E>(cap: nat, upd: Update<K, V, E>, log: seq<Obs<K, E>>): (r: seq<Row<K, V>>)
    requires 0 < cap
    ensures |r| <= cap
  {
    if log == [] then []
    else Touch(Run(cap, upd, log[..|log| - 1]), cap, upd, log[|log| - 1])
  }

  ghost predicate Distinct<K, V>(rows: seq<Row<K, V>>) {
    forall i, j :: 0 <= i < j < |rows| ==> rows[i].key != rows[j].key
  }

  function ByKey<K(==), E>(key: K): Obs<K, E> -> bool { (o: Obs<K, E>) => o.key == key }

  /** Every observation of `key` in the unbounded log. */
  function OfKey<K(==), E>(log: seq<Obs<K, E>>, key: K): seq<Obs<K, E>> { Filter(log, ByKey(key)) }

  ghost predicate Ordered<K, E>(log: seq<Obs<K, E>>) {
    forall i, j :: 0 <= i < j < |log| ==> log[i].ts <= log[j].ts
  }

  /** The observations of `key` since its live row was created; [] when it has none. */
  function Since<K(==), V, E>(cap: nat, upd: Update<K, V, E>, log: seq<Obs<K, E>>, key: K): seq<Obs<K, E>>
    requires 0 < cap
  {
    if log == [] then []
    else
      var p := log[..|log| - 1];
      var o := log[|log| - 1];
      if o.key == key then (if Has(Run(cap, upd, p), key) then Since(cap, upd, p, key) else []) + [o]
      else if Has(Run(cap, upd, log), key) then Since(cap, upd, p, key)
      else []
  }

  /** A row's data, replayed from the observations it has seen. */
  function Replay<K, V, E>(upd: Update<K, V, E>, h: seq<Obs<K, E>>): V
    requires h != []
  {
    if |h| == 1 then upd(None, h[0]) else upd(Some(Replay(upd, h[..|h| - 1])), h[|h| - 1])
  }

  // ----- One step ---------------------------------------------------------

  lemma HasMeans<K, V>(rows: seq<Row<K, V>>, key: K)
    ensures Has(rows, key) <==> exists i :: 0 <= i < |rows| && rows[i].key == key
  {
  }

  /** Which rows a step leaves alone, which one it writes, which one it drops. */
  lemma TouchRows<K, V, E>(rows: seq<Row<K, V>>, cap: nat, upd: Update<K, V, E>, o: Obs<K, E>)
    requires 0 < cap && |rows| <= cap && Distinct(rows)
    ensures var r := Touch(rows, cap, upd, o);
            var i := Slot(rows, cap, o.key);
            && Distinct(r)
            && i < |r| && r[i].key == o.key && r[i].seen == o.ts
            && (forall j :: 0 <= j < |r| && j != i ==> j < |rows| && r[j] == rows[j])
            && (forall k :: Has(r, k) <==> (k == o.key
                || (Has(rows, k) && (Has(rows, o.key) || |rows| < cap || k != rows[i].key))))
  {
    var r := Touch(rows, cap, upd, o);
    var i := Slot(rows, cap, o.key);
    forall k
      ensures Has(r, k) <==> (k == o.key
              || (Has(rows, k) && (Has(rows, o.key) || |rows| < cap || k != rows[i].key)))
    {
      HasMeans(rows, k);
      HasMeans(r, k);
      assert r[i].key == o.key;
      if Has(rows, k) {
        var j := Find(rows, k);
        assert j != i ==> r[j].key == k;
      }
    }
  }

  /** In a table of distinct keys the first row of a key is its only one. */
  lemma FindOnly<K, V>(rows: seq<Row<K, V>>, i: nat)
    requires Distinct(rows) && i < |rows|
    ensures Find(rows, rows[i].key) == i
  {
  }

  // ----- What every reachable table satisfies -----------------------------

  /** A row is exactly the replay of the observations its key has had since the
      row was created, stamped with the latest of them. */
  ghost predicate RowFaithful<K, V, E>(cap: nat, upd: Update<K, V, E>, log: seq<Obs<K, E>>, row: Row<K, V>)
    requires 0 < cap
  {
    var h := Since(cap, upd, log, row.key);
    h != [] && row.data == Replay(upd, h) && row.seen == h[|h| - 1].ts
  }

  ghost predicate Faithful<K, V, E>(cap: nat, upd: Update<K, V, E>, log: seq<Obs<K, E>>)
    requires 0 < cap
  {
    var rows := Run(cap, upd, log);
    Distinct(rows) && forall i :: 0 <= i < |rows| ==> RowFaithful(cap, upd, log, rows[i])
  }

  lemma RunPush<K, V, E>(cap: nat, upd: Update<K, V, E>, p: seq<Obs<K, E>>, o: Obs<K, E>)
    requires 0 < cap
    ensures Run(cap, upd, p + [o]) == Touch(Run(cap, upd, p), cap, upd, o)
  {
    assert (p + [o])[..|p|] == p;
  }

  lemma RowStep<K, V, E>(cap: nat, upd: Update<K, V, E>, p: seq<Obs<K, E>>, o: Obs<K, E>, i: nat)
    requires 0 < cap && Faithful(cap, upd, p) && i < |Run(cap, upd, p + [o])|
    ensures RowFaithful(cap, upd, p + [o], Run(cap, upd, p + [o])[i])
  {
    hide Run, Find, Stalest;
    var (was, rows) := (Run(cap, upd, p), Run(cap, upd, p + [o]));
    RunPush(cap, upd, p, o);
    TouchRows(was, cap, upd, o);
    FindOnly(rows, i);
    assert (p + [o])[..|p|] == p;
    var h := Since(cap, upd, p + [o], rows[i].key);
    if i != Slot(was, cap, o.key) {
      assert rows[i] == was[i] && rows[i].key != o.key;
    } else if Has(was, o.key) {
      assert h[..|h| - 1] == Since(cap, upd, p, o.key);
    }
  }

  lemma {:induction false} TableIsFaithful<K, V, E>(cap: nat, upd: Update<K, V, E>, log: seq<Obs<K, E>>)
    requires 0 < cap
    ensures Faithful(cap, upd, log)
  {
    hide Since, Touch, RowFaithful, Find;
    if log == [] {
    } else {
      var (p, o) := (log[..|log| - 1], log[|log| - 1]);
      assert p + [o] == log;
      TableIsFaithful(cap, upd, p);
      RunPush(cap, upd, p, o);
      TouchRows(Run(cap, upd, p), cap, upd, o);
      forall i | 0 <= i < |Run(cap, upd, log)| ensures RowFaithful(cap, upd, log, Run(cap, upd, log)[i]) {
        RowStep(cap, upd, p, o, i);
      }
    }
  }

  lemma {:induction false} SinceEmpty<K, V, E>(cap: nat, upd: Update<K, V, E>, log: seq<Obs<K, E>>, key: K)
    requires 0 < cap
    ensures Since(cap, upd, log, key) == [] <==> !Has(Run(cap, upd, log), key)
  {
    TableIsFaithful(cap, upd, log);
    if log == [] {
    } else {
      var (p, o) := (log[..|log| - 1], log[|log| - 1]);
      TableIsFaithful(cap, upd, p);
      TouchRows(Run(cap, upd, p), cap, upd, o);
      SinceEmpty(cap, upd, p, key);
    }
  }

  lemma SinceStep<K, V, E>(cap: nat, upd: Update<K, V, E>, p: seq<Obs<K, E>>, o: Obs<K, E>, key: K)
    requires 0 < cap
    ensures OfKey(p + [o], key) == OfKey(p, key) + if o.key == key then [o] else []
    ensures Since(cap, upd, p + [o], key) ==
            if o.key == key then Since(cap, upd, p, key) + [o]
            else if Has(Run(cap, upd, p + [o]), key) then Since(cap, upd, p, key)
            else []
  {
    FilterPush(p, o, ByKey(key));
    SinceEmpty(cap, upd, p, key);
    assert (p + [o])[..|p|] == p;
  }

  lemma LastPush<T>(all: seq<T>, kept: seq<T>, x: T)
    requires |kept| <= |all| && kept == Last(all, |kept|)
    ensures kept + [x] == Last(all + [x], |kept| + 1)
  {
  }

  lemma SuffixStep<K, V, E>(cap: nat, upd: Update<K, V, E>, p: seq<Obs<K, E>>, o: Obs<K, E>, key: K)
    requires 0 < cap && |Since(cap, upd, p, key)| <= |OfKey(p, key)|
    requires Since(cap, upd, p, key) == Last(OfKey(p, key), |Since(cap, upd, p, key)|)
    ensures |Since(cap, upd, p + [o], key)| <= |OfKey(p + [o], key)|
    ensures Since(cap, upd, p + [o], key) == Last(OfKey(p + [o], key), |Since(cap, upd, p + [o], key)|)
  {
    hide Run, Find, Touch, Has, Since, OfKey;
    LastPush(OfKey(p, key), Since(cap, upd, p, key), o);
    SinceStep(cap, upd, p, o, key);
  }

  /** A row's history is the newest part of the key's whole history. */
  lemma {:induction false} SinceIsSuffix<K, V, E>(cap: nat, upd: Update<K, V, E>, log: seq<Obs<K, E>>, key: K)
    requires 0 < cap
    ensures |Since(cap, upd, log, key)| <= |OfKey(log, key)|
    ensures Since(cap, upd, log, key) == Last(OfKey(log, key), |Since(cap, upd, log, key)|)
  {
    hide Run, Find, Touch, Has;
    if log == [] {
      assert Since(cap, upd, log, key) == [];
    } else {
      var (p, o) := (log[..|log| - 1], log[|log| - 1]);
      assert p + [o] == log;
      SinceIsSuffix(cap, upd, p, key);
      SuffixStep(cap, upd, p, o, key);
    }
  }

  lemma {:induction false} OfKeyOrdered<K(!new), E(!new)>(log: seq<Obs<K, E>>, key: K)
    requires Ordered(log)
    ensures Ordered(OfKey(log, key))
  {
    if log == [] {
    } else {
      var (p, o) := (log[..|log| - 1], log[|log| - 1]);
      OfKeyOrdered(p, key);
      forall e | e in OfKey(p, key) ensures e.ts <= o.ts {
        FilterMember(p, ByKey(key), e);
      }
    }
  }

  /** A history lists logged observations of its key, in log order. */
  lemma SinceInLog<K(!new), V, E(!new)>(cap: nat, upd: Update<K, V, E>, log: seq<Obs<K, E>>, key: K)
    requires 0 < cap
    ensures forall o :: o in Since(cap, upd, log, key) ==> o in log && o.key == key
    ensures Ordered(log) ==> Ordered(Since(cap, upd, log, key))
  {
    hide Run, Since, Filter;
    var (all, h) := (OfKey(log, key), Since(cap, upd, log, key));
    SinceIsSuffix(cap, upd, log, key);
    forall o | o in h ensures o in log && o.key == key {
      assert o in all;
      FilterMember(log, ByKey(key), o);
    }
    if Ordered(log) {
      OfKeyOrdered(log, key);
      var d := |all| - |h|;
      forall i, j | 0 <= i < j < |h| ensures h[i].ts <= h[j].ts {
        assert h[i] == all[d + i] && h[j] == all[d + j];
      }
    }
  }

  // ----- Residency --------------------------------------------------------

  /** The keys observed within `w` of the latest observation. */
  ghost function Active<K(!new), E(!new)>(log: seq<Obs<K, E>>, w: int): set<K>
    requires log != []
  {
    set o | o in log && log[|log| - 1].ts - o.ts <= w :: o.key
  }

  /** At no observation were more than `cap` keys active within the trailing window. */
  ghost predicate ActiveFit<K(!new), E(!new)>(log: seq<Obs<K, E>>, w: int, cap: nat) {
    forall i :: 0 < i <= |log| ==> |Active(log[..i], w)| <= cap
  }

  /** Under a non-decreasing clock, a key once observed and now absent implies a
      full table whose every row was seen no earlier than that key. */
  lemma {:induction false} AbsentIsStale<K(!new), V, E(!new)>(cap: nat, upd: Update<K, V, E>, log: seq<Obs<K, E>>, o: Obs<K, E>)
    requires 0 < cap && Ordered(log)
    requires o in log && !Has(Run(cap, upd, log), o.key)
    ensures var rows := Run(cap, upd, log);
            |rows| == cap && forall i :: 0 <= i < |rows| ==> o.ts <= rows[i].seen
  {
    var (p, l) := (log[..|log| - 1], log[|log| - 1]);
    assert log == p + [l];
    TableIsFaithful(cap, upd, p);
    var (was, rows) := (Run(cap, upd, p), Run(cap, upd, log));
    TouchRows(was, cap, upd, l);
    assert o in p;
    if !Has(was, o.key) {
      AbsentIsStale(cap, upd, p, o);
    } else {
      var s := Stalest(was);
      assert was[s].key == o.key;
      SeenIsLatest(cap, upd, p, o, s);
    }
    var i :| 0 <= i < |log| && log[i] == o;
  }

  /** A resident row was stamped no earlier than any observation of its key. */
  lemma SeenIsLatest<K(!new), V, E(!new)>(cap: nat, upd: Update<K, V, E>, log: seq<Obs<K, E>>, o: Obs<K, E>, i: nat)
    requires 0 < cap && Ordered(log) && o in log
    requires i < |Run(cap, upd, log)| && Run(cap, upd, log)[i].key == o.key
    ensures o.ts <= Run(cap, upd, log)[i].seen
  {
    hide Run, Since, Touch, Find, Filter;
    TableIsFaithful(cap, upd, log);
    SinceIsSuffix(cap, upd, log, o.key);
    var all := OfKey(log, o.key);
    FilterMember(log, ByKey(o.key), o);
    OfKeyOrdered(log, o.key);
    var j :| 0 <= j < |all| && all[j] == o;
    var h := Since(cap, upd, log, o.key);
    assert h[|h| - 1] == all[|all| - 1];
  }

  /** Each row's stamp is an observation of its key in the log. */
  lemma SeenInLog<K(!new), V, E(!new)>(cap: nat, upd: Update<K, V, E>, log: seq<Obs<K, E>>, i: nat)
    returns (o: Obs<K, E>)
    requires 0 < cap && i < |Run(cap, upd, log)|
    ensures o in log && o.key == Run(cap, upd, log)[i].key && o.ts == Run(cap, upd, log)[i].seen
  {
    TableIsFaithful(cap, upd, log);
    var key := Run(cap, upd, log)[i].key;
    SinceInLog(cap, upd, log, key);
    var h := Since(cap, upd, log, key);
    o := h[|h| - 1];
  }

  ghost function Keys<K(!new), V(!new)>(rows: seq<Row<K, V>>): set<K> { set r | r in rows :: r.key }

  lemma {:induction false} KeysSize<K(!new), V(!new)>(rows: seq<Row<K, V>>)
    requires Distinct(rows)
    ensures |Keys(rows)| == |rows|
  {
    if rows == [] {
    } else {
      var (f, r) := (rows[..|rows| - 1], rows[|rows| - 1]);
      KeysSize(f);
      assert rows == f + [r];
      assert Keys(rows) == Keys(f) + {r.key};
    }
  }

  /** A full table of distinct keys and one more key cannot all have been active. */
  lemma TooMany<K(!new), V(!new), E(!new)>(cap: nat, upd: Update<K, V, E>, p: seq<Obs<K, E>>, now: Obs<K, E>, since: int, w: int)
    requires 0 < cap && |Run(cap, upd, p)| == cap && !Has(Run(cap, upd, p), now.key)
    requires forall i :: 0 <= i < cap ==> since <= Run(cap, upd, p)[i].seen
    requires now.ts - since <= w && 0 <= w
    ensures |Active(p + [now], w)| > cap
  {
    var rows := Run(cap, upd, p);
    TableIsFaithful(cap, upd, p);
    KeysSize(rows);
    forall k | k in Keys(rows) + {now.key} ensures k in Active(p + [now], w) {
      if k == now.key {
        assert (p + [now])[|p|] == now;
      } else {
        var i :| 0 <= i < |rows| && rows[i].key == k;
        var o := SeenInLog(cap, upd, p, i);
        assert o in p + [now];
      }
    }
    HasMeans(rows, now.key);
    Subset(Keys(rows) + {now.key}, Active(p + [now], w));
  }

  lemma {:induction false} Subset<T>(a: set<T>, b: set<T>)
    requires a <= b
    ensures |a| <= |b|
  {
    if x :| x in a {
      Subset(a - {x}, b - {x});
    }
  }

  lemma EvictedIsOld<K(!new), V(!new), E(!new)>(
      cap: nat, upd: Update<K, V, E>, p: seq<Obs<K, E>>, now: Obs<K, E>, e: Obs<K, E>, w: nat)
    requires 0 < cap && Ordered(p) && e in p && e.key != now.key
    requires |Active(p + [now], w)| <= cap
    requires Has(Run(cap, upd, p), e.key) && !Has(Run(cap, upd, p + [now]), e.key)
    ensures now.ts - e.ts > w
  {
    var was := Run(cap, upd, p);
    TableIsFaithful(cap, upd, p);
    assert (p + [now])[..|p|] == p;
    TouchRows(was, cap, upd, now);
    SeenIsLatest(cap, upd, p, e, Stalest(was));
    if now.ts - e.ts <= w {
      TooMany(cap, upd, p, now, e.ts, w);
      assert false;
    }
  }

  /** Whatever a row has forgotten of its key lies outside the window, provided
      no more keys than the table holds are ever active together. */
  lemma {:induction false} DroppedIsOld<K(!new), V(!new), E(!new)>(
      cap: nat, upd: Update<K, V, E>, log: seq<Obs<K, E>>, key: K, w: nat, i: nat)
    requires 0 < cap && log != [] && Ordered(log) && ActiveFit(log, w, cap)
    requires i < |OfKey(log, key)| - |Since(cap, upd, log, key)|
    ensures log[|log| - 1].ts - OfKey(log, key)[i].ts > w
  {
    hide Run, Since, Filter, Find, Has, ActiveFit, Active;
    var (p, o) := (log[..|log| - 1], log[|log| - 1]);
    assert log == p + [o];
    SinceStep(cap, upd, p, o, key);
    ActiveFitPrefix(p, o, w, cap);
    if i < |OfKey(p, key)| - |Since(cap, upd, p, key)| {
      NonEmptyFilter(p, ByKey(key));
      DroppedIsOld(cap, upd, p, key, w, i);
      assert p[|p| - 1] == log[|p| - 1];
    } else {
      var e := OfKey(p, key)[i];
      FilterMember(p, ByKey(key), e);
      SinceEmpty(cap, upd, p, key);
      EvictedIsOld(cap, upd, p, o, e, w);
    }
  }

  lemma NonEmptyFilter<T>(s: seq<T>, p: T -> bool)
    ensures |Filter(s, p)| > 0 ==> s != []
  {
  }

  lemma ActiveFitPrefix<K(!new), E(!new)>(p: seq<Obs<K, E>>, o: Obs<K, E>, w: int, cap: nat)
    requires ActiveFit(p + [o], w, cap)
    ensures ActiveFit(p, w, cap) && |Active(p + [o], w)| <= cap
  {
    assert (p + [o])[..|p| + 1] == p + [o];
    forall j | 0 < j <= |p| ensures |Active(p[..j], w)| <= cap {
      assert p[..j] == (p + [o])[..j];
    }
  }

  /** Nothing the table has forgotten of `key` lies inside the window. */
  ghost predicate Remembers<K, V, E>(
      cap: nat, upd: Update<K, V, E>, log: seq<Obs<K, E>>, key: K, now: int, w: int)
    requires 0 < cap
  {
    forall i :: 0 <= i < |OfKey(log, key)| - |Since(cap, upd, log, key)| ==> now - OfKey(log, key)[i].ts > w
  }

  /** Every key is remembered, provided no more keys than the table holds are ever
      active together. */
  lemma ActiveFitRemembers<K(!new), V(!new), E(!new)>(
      cap: nat, upd: Update<K, V, E>, log: seq<Obs<K, E>>, key: K, now: int, w: nat)
    requires 0 < cap && Ordered(log) && ActiveFit(log, w, cap)
    requires log != [] ==> log[|log| - 1].ts <= now
    ensures Remembers(cap, upd, log, key, now, w)
  {
    hide Run, Since, Filter, ActiveFit;
    NonEmptyFilter(log, ByKey(key));
    forall i | 0 <= i < |OfKey(log, key)| - |Since(cap, upd, log, key)| ensures now - OfKey(log, key)[i].ts > w {
      DroppedIsOld(cap, upd, log, key, w, i);
    }
  }

  /** However many keys are active, a key whose row is older than the window is
      remembered. */
  lemma OldRowRemembers<K(!new), V, E(!new)>(
      cap: nat, upd: Update<K, V, E>, log: seq<Obs<K, E>>, key: K, now: int, w: int)
    requires 0 < cap && Ordered(log) && Since(cap, upd, log, key) != []
    requires now - Since(cap, upd, log, key)[0].ts > w
    ensures Remembers(cap, upd, log, key, now, w)
  {
    hide Run, Since, Filter;
    var (all, kept) := (OfKey(log, key), Since(cap, upd, log, key));
    SinceIsSuffix(cap, upd, log, key);
    OfKeyOrdered(log, key);
    var d := |all| - |kept|;
    assert kept[0] == all[d];
  }

  /** A key's history splits into what the table forgot and what it kept. */
  lemma Forgotten<K, V, E>(cap: nat, upd: Update<K, V, E>, log: seq<Obs<K, E>>, key: K) returns (lost: seq<Obs<K, E>>)
    requires 0 < cap
    ensures OfKey(log, key) == lost + Since(cap, upd, log, key)
  {
    hide Run, Since, Filter;
    SinceIsSuffix(cap, upd, log, key);
    lost := LastSplit(OfKey(log, key), |Since(cap, upd, log, key)|);
  }

  /** The table answers a window question about a key it remembers, resident or
      not, exactly as the unbounded log does. */
  lemma WindowIsExact<K, V, E>(
      cap: nat, upd: Update<K, V, E>, log: seq<Obs<K, E>>, key: K, now: int, w: int, p: Obs<K, E> -> bool)
    requires 0 < cap && Remembers(cap, upd, log, key, now, w)
    requires forall o :: o in OfKey(log, key) && p(o) ==> now - o.ts <= w
    ensures Filter(Since(cap, upd, log, key), p) == Filter(OfKey(log, key), p)
  {
    hide Run, Since, Filter;
    var (all, kept) := (OfKey(log, key), Since(cap, upd, log, key));
    var dropped := Forgotten(cap, upd, log, key);
    forall i | 0 <= i < |dropped| ensures !p(dropped[i]) {
      assert dropped[i] == all[i];
    }
    FilterNone(dropped, p);
    FilterConcat(dropped, kept, p);
  }

  /** Without any assumption the table only ever under-counts. */
  lemma NeverOvercounts<K, V, E>(cap: nat, upd: Update<K, V, E>, log: seq<Obs<K, E>>, key: K, p: Obs<K, E> -> bool)
    requires 0 < cap
    ensures Count(Since(cap, upd, log, key), p) <= Count(OfKey(log, key), p)
  {
    SinceIsSuffix(cap, upd, log, key);
    LastCountsLess(OfKey(log, key), |Since(cap, upd, log, key)|, p);
  }

  /** The keys observed at or after `t`. */
  ghost function KeysFrom<K(!new), E(!new)>(log: seq<Obs<K, E>>, t: int): set<K> {
    set o | o in log && t <= o.ts :: o.key
  }

  /** A key stays resident until more than `cap` distinct keys, itself included,
      have been observed from its last time on. */
  lemma StillResident<K(!new), V(!new), E(!new)>(cap: nat, upd: Update<K, V, E>, log: seq<Obs<K, E>>, o: Obs<K, E>)
    requires 0 < cap && Ordered(log) && o in log
    requires |KeysFrom(log, o.ts)| <= cap
    ensures Has(Run(cap, upd, log), o.key)
  {
    var rows := Run(cap, upd, log);
    if !Has(rows, o.key) {
      AbsentIsStale(cap, upd, log, o);
      TableIsFaithful(cap, upd, log);
      KeysSize(rows);
      HasMeans(rows, o.key);
      forall k | k in Keys(rows) + {o.key} ensures k in KeysFrom(log, o.ts) {
        if k != o.key {
          var i :| 0 <= i < |rows| && rows[i].key == k;
          var s := SeenInLog(cap, upd, log, i);
        }
      }
      Subset(Keys(rows) + {o.key}, KeysFrom(log, o.ts));
      assert false;
    }
  }

  /** A key is gone once `cap` others have been observed after its last time. */
  lemma CrowdedOut<K(!new), V(!new), E(!new)>(
      cap: nat, upd: Update<K, V, E>, log: seq<Obs<K, E>>, key: K, t: int, others: set<K>)
    requires 0 < cap && Ordered(log) && forall x :: x in log && x.key == key ==> x.ts <= t
    requires key !in others && |others| >= cap
    requires forall k :: k in others ==> exists x :: x in log && x.key == k && t < x.ts
    ensures !Has(Run(cap, upd, log), key)
  {
    hide Run, Find;
    var rows := Run(cap, upd, log);
    if Has(rows, key) {
      TableIsFaithful(cap, upd, log);
      KeysSize(rows);
      HasMeans(rows, key);
      var i :| 0 <= i < |rows| && rows[i].key == key;
      var s := SeenInLog(cap, upd, log, i);
      forall k | k in others ensures k in Keys(rows) {
        var x :| x in log && x.key == k && t < x.ts;
        if !Has(rows, k) { AbsentIsStale(cap, upd, log, x); }
        HasMeans(rows, k);
      }
      assert rows[i].key in Keys(rows);
      Subset(others + {key}, Keys(rows));
      assert false;
    }
  }

  /** So residency is exact, but for ties of the clock: a key has a row if and only if
      no more than `cap` distinct keys were observed from its last time on. */
  lemma ResidentIff<K(!new), V(!new), E(!new)>(cap: nat, upd: Update<K, V, E>, log: seq<Obs<K, E>>, o: Obs<K, E>)
    requires 0 < cap && Ordered(log) && o in log
    requires forall x :: x in log && x.key == o.key ==> x.ts <= o.ts
    requires forall x :: x in log && x.ts == o.ts ==> x.key == o.key
    ensures Has(Run(cap, upd, log), o.key) <==> |KeysFrom(log, o.ts)| <= cap
  {
    hide Run, Find;
    if |KeysFrom(log, o.ts)| <= cap {
      StillResident(cap, upd, log, o);
    } else {
      CrowdedOut(cap, upd, log, o.key, o.ts, KeysFrom(log, o.ts) - {o.key});
    }
  }

  // ----- What the table has forgotten, read off the log ----------------------

  /** Stamps tell keys apart. */
  ghost predicate Unshared<K(!new), E(!new)>(log: seq<Obs<K, E>>) {
    forall x, y :: x in log && y in log && x.ts == y.ts ==> x.key == y.key
  }

  /** More than `cap` keys, this one included, were seen from its last time on. */
  ghost predicate Crowded<K(!new), E(!new)>(log: seq<Obs<K, E>>, key: K, cap: nat) {
    var all := OfKey(log, key);
    all != [] && |KeysFrom(log, all[|all| - 1].ts)| > cap
  }

  /** At least `cap` others were seen strictly after its last time. */
  ghost predicate Overrun<K(!new), E(!new)>(log: seq<Obs<K, E>>, key: K, cap: nat) {
    var all := OfKey(log, key);
    all != [] && |KeysFrom(log, all[|all| - 1].ts + 1)| >= cap
  }

  /** That was so at some time after the key's i-th observation. */
  ghost predicate CrowdedSince<K(!new), E(!new)>(log: seq<Obs<K, E>>, key: K, cap: nat, i: nat) {
    exists n :: 0 <= n <= |log| && i < |OfKey(log[..n], key)| && Crowded(log[..n], key, cap)
  }

  ghost predicate OverrunSince<K(!new), E(!new)>(log: seq<Obs<K, E>>, key: K, cap: nat, i: nat) {
    exists n :: 0 <= n <= |log| && i < |OfKey(log[..n], key)| && Overrun(log[..n], key, cap)
  }

  /** The last of a key's observations. */
  lemma LastOfKey<K(!new), E(!new)>(log: seq<Obs<K, E>>, key: K) returns (o: Obs<K, E>)
    requires Ordered(log) && OfKey(log, key) != []
    ensures o == OfKey(log, key)[|OfKey(log, key)| - 1] && o in log && o.key == key
    ensures forall x :: x in log && x.key == key ==> x.ts <= o.ts
  {
    hide Filter;
    var all := OfKey(log, key);
    OfKeyOrdered(log, key);
    o := all[|all| - 1];
    FilterMember(log, ByKey(key), o);
    forall x | x in log && x.key == key ensures x.ts <= o.ts {
      FilterMember(log, ByKey(key), x);
      var i :| 0 <= i < |all| && all[i] == x;
    }
  }

  /** A key has a row while it is not crowded, and none once it is overrun; under stamps
      that tell keys apart the two are opposites. */
  lemma ResidentInLog<K(!new), V(!new), E(!new)>(cap: nat, upd: Update<K, V, E>, log: seq<Obs<K, E>>, key: K)
    requires 0 < cap && Ordered(log) && OfKey(log, key) != []
    ensures !Crowded(log, key, cap) ==> Has(Run(cap, upd, log), key)
    ensures Overrun(log, key, cap) ==> !Has(Run(cap, upd, log), key)
    ensures Unshared(log) ==> (Has(Run(cap, upd, log), key) <==> !Crowded(log, key, cap))
  {
    hide Run, Find, OfKey, Ordered, Has;
    var o := LastOfKey(log, key);
    if !Crowded(log, key, cap) { StillResident(cap, upd, log, o); }
    if Overrun(log, key, cap) { CrowdedOut(cap, upd, log, key, o.ts, KeysFrom(log, o.ts + 1)); }
    if Unshared(log) { ResidentIff(cap, upd, log, o); }
  }

  /** The key had a row whenever its i-th observation was in the log. */
  ghost predicate ResidentSince<K, V, E>(cap: nat, upd: Update<K, V, E>, log: seq<Obs<K, E>>, key: K, i: nat)
    requires 0 < cap
  {
    forall n :: 0 <= n <= |log| && i < |OfKey(log[..n], key)| ==> Has(Run(cap, upd, log[..n]), key)
  }

  lemma ResidentSinceStep<K, V, E>(cap: nat, upd: Update<K, V, E>, p: seq<Obs<K, E>>, o: Obs<K, E>, key: K, i: nat)
    requires 0 < cap && i < |OfKey(p + [o], key)|
    ensures ResidentSince(cap, upd, p + [o], key, i) <==>
            ResidentSince(cap, upd, p, key, i) && Has(Run(cap, upd, p + [o]), key)
  {
    hide Run, OfKey, Has;
    var log := p + [o];
    assert log[..|log|] == log;
    assert forall n :: 0 <= n <= |p| ==> log[..n] == p[..n];
  }

  lemma OfKeyGrows<K, E>(log: seq<Obs<K, E>>, n: nat, key: K)
    requires n <= |log|
    ensures |OfKey(log[..n], key)| <= |OfKey(log, key)|
  {
    FilterConcat(log[..n], log[n..], ByKey(key));
    assert log == log[..n] + log[n..];
  }

  lemma NotYetThere<K, V, E>(cap: nat, upd: Update<K, V, E>, log: seq<Obs<K, E>>, key: K, i: nat)
    requires 0 < cap && |OfKey(log, key)| <= i
    ensures ResidentSince(cap, upd, log, key, i)
  {
    hide Run, OfKey, Has;
    forall n | 0 <= n <= |log| ensures |OfKey(log[..n], key)| <= i {
      OfKeyGrows(log, n, key);
    }
  }

  /** The table still counts an observation exactly if its key has had a row ever since. */
  lemma {:induction false} KeptIffResident<K, V, E>(cap: nat, upd: Update<K, V, E>, log: seq<Obs<K, E>>, key: K, i: nat)
    requires 0 < cap && i < |OfKey(log, key)|
    ensures |OfKey(log, key)| - |Since(cap, upd, log, key)| <= i <==> ResidentSince(cap, upd, log, key, i)
  {
    hide Run, Since, Filter, Find, Has, ResidentSince;
    NonEmptyFilter(log, ByKey(key));
    var (p, o) := (log[..|log| - 1], log[|log| - 1]);
    assert log == p + [o];
    SinceStep(cap, upd, p, o, key);
    SinceEmpty(cap, upd, log, key);
    ResidentSinceStep(cap, upd, p, o, key, i);
    if i < |OfKey(p, key)| {
      KeptIffResident(cap, upd, p, key, i);
    } else {
      SinceIsSuffix(cap, upd, p, key);
      NotYetThere(cap, upd, p, key, i);
    }
  }

  lemma PrefixesToo<K(!new), E(!new)>(log: seq<Obs<K, E>>, n: nat)
    requires n <= |log|
    ensures Ordered(log) ==> Ordered(log[..n])
    ensures Unshared(log) ==> Unshared(log[..n])
  {
    assert forall x :: x in log[..n] ==> x in log;
  }

  /** So in the log alone: an observation is still counted if its key was not crowded
      since, and is not once it was overrun; under stamps that tell keys apart it is
      exactly if the key was not crowded since. */
  lemma KeptIffNotCrowded<K(!new), V(!new), E(!new)>(cap: nat, upd: Update<K, V, E>, log: seq<Obs<K, E>>, key: K, i: nat)
    requires 0 < cap && Ordered(log) && i < |OfKey(log, key)|
    ensures !CrowdedSince(log, key, cap, i) ==> |OfKey(log, key)| - |Since(cap, upd, log, key)| <= i
    ensures OverrunSince(log, key, cap, i) ==> i < |OfKey(log, key)| - |Since(cap, upd, log, key)|
    ensures Unshared(log) ==>
              (|OfKey(log, key)| - |Since(cap, upd, log, key)| <= i <==> !CrowdedSince(log, key, cap, i))
  {
    hide Run, Since, OfKey, Has, Ordered, Unshared, Crowded, Overrun;
    KeptIffResident(cap, upd, log, key, i);
    forall n | 0 <= n <= |log| && i < |OfKey(log[..n], key)|
      ensures !Crowded(log[..n], key, cap) ==> Has(Run(cap, upd, log[..n]), key)
      ensures Overrun(log[..n], key, cap) ==> !Has(Run(cap, upd, log[..n]), key)
      ensures Unshared(log) ==> (Has(Run(cap, upd, log[..n]), key) <==> !Crowded(log[..n], key, cap))
    {
      PrefixesToo(log, n);
      ResidentInLog(cap, upd, log[..n], key);
    }
  }

  /** And a key is remembered, under such stamps, exactly if it was not crowded since any
      of its observations inside the window. */
  lemma RemembersIffNotCrowded<K(!new), V(!new), E(!new)>(
      cap: nat, upd: Update<K, V, E>, log: seq<Obs<K, E>>, key: K, now: int, w: int)
    requires 0 < cap && Ordered(log) && Unshared(log)
    ensures Remembers(cap, upd, log, key, now, w) <==>
            forall i :: 0 <= i < |OfKey(log, key)| && now - OfKey(log, key)[i].ts <= w ==> !CrowdedSince(log, key, cap, i)
  {
    hide Run, Since, OfKey, CrowdedSince, OverrunSince;
    forall i | 0 <= i < |OfKey(log, key)|
      ensures |OfKey(log, key)| - |Since(cap, upd, log, key)| <= i <==> !CrowdedSince(log, key, cap, i)
    {
      KeptIffNotCrowded(cap, upd, log, key, i);
    }
  }

  function Recent<K, E>(now: int, w: int): Obs<K, E> -> bool { (o: Obs<K, E>) => now - o.ts <= w }

  /** Window questions about a key are answered exactly if and only if it is remembered: in the log, under
      stamps that tell keys apart, if and only if it was not crowded since any of its
      observations inside the window. */
  lemma WindowIsExactIff<K(!new), V(!new), E(!new)>(
      cap: nat, upd: Update<K, V, E>, log: seq<Obs<K, E>>, key: K, now: int, w: int)
    requires 0 < cap
    ensures Filter(Since(cap, upd, log, key), Recent(now, w)) == Filter(OfKey(log, key), Recent(now, w))
            <==> Remembers(cap, upd, log, key, now, w)
    ensures Ordered(log) && Unshared(log) ==>
              (Filter(Since(cap, upd, log, key), Recent(now, w)) == Filter(OfKey(log, key), Recent(now, w)) <==>
               forall i :: 0 <= i < |OfKey(log, key)| && now - OfKey(log, key)[i].ts <= w ==> !CrowdedSince(log, key, cap, i))
  {
    hide Run, Since, Filter, CrowdedSince, Unshared;
    if Ordered(log) && Unshared(log) { RemembersIffNotCrowded(cap, upd, log, key, now, w); }
    var (all, kept) := (OfKey(log, key), Since(cap, upd, log, key));
    var dropped := Forgotten(cap, upd, log, key);
    FilterConcat(dropped, kept, Recent(now, w));
    if i :| 0 <= i < |dropped| && now - all[i].ts <= w {
      FilterMember(dropped, Recent(now, w), dropped[i]);
    } else {
      WindowIsExact(cap, upd, log, key, now, w, Recent(now, w));
    }
  }

  /** Exactly when every active key has a row: a pigeonhole one way, residency
      the other. */
  lemma ActiveAreResident<K(!new), V(!new), E(!new)>(cap: nat, upd: Update<K, V, E>, log: seq<Obs<K, E>>, w: int)
    requires 0 < cap && Ordered(log) && log != []
    ensures (forall k :: k in Active(log, w) ==> Has(Run(cap, upd, log), k)) <==> |Active(log, w)| <= cap
  {
    hide Run, Find;
    var rows := Run(cap, upd, log);
    if forall k :: k in Active(log, w) ==> Has(rows, k) {
      TableIsFaithful(cap, upd, log);
      KeysSize(rows);
      forall k | k in Active(log, w) ensures k in Keys(rows) {
        HasMeans(rows, k);
      }
      Subset(Active(log, w), Keys(rows));
    }
    if |Active(log, w)| <= cap {
      forall k | k in Active(log, w) ensures Has(rows, k) {
        var o :| o in log && log[|log| - 1].ts - o.ts <= w && o.key == k;
        Subset(KeysFrom(log, o.ts), Active(log, w));
        StillResident(cap, upd, log, o);
      }
    }
  }

  // ----- The table in place ----------------------------------------------

  /** A fixed array of rows and a count, as each of the four static tables is. */
  class Table<K(==), V(0), E> {
    const rows: array<Row<K, V>>
    const cap: nat
    const upd: Update<K, V, E>
    var n: nat
    ghost var log: seq<Obs<K, E>>

    ghost predicate Valid()
      reads this, rows
    {
      && 0 < cap == rows.Length && n <= cap
      && rows[..n] == Run(cap, upd, log)
    }

    constructor (cap: nat, upd: Update<K, V, E>, zero: Row<K, V>)
      requires 0 < cap
      ensures Valid() && fresh(rows) && log == [] && this.cap == cap && this.upd == upd
    {
      this.cap, this.upd := cap, upd;
      rows := new Row<K, V>[cap](_ => zero);
      n, log := 0, [];
    }

    /** The row of `key`, or n: the search loop every operation starts with. */
    method Lookup(key: K) returns (i: nat)
      requires Valid()
      ensures i == Find(rows[..n], key)
    {
      i := 0;
      while i < n && rows[i].key != key
        invariant i <= n
        invariant forall j :: 0 <= j < i ==> rows[j].key != key
      {
        i := i + 1;
      }
      HasMeans(rows[..n], key);
      assert i < n ==> rows[..n][i].key == key;
    }

    /** The first row least recently seen: the eviction loop. */
    method StalestRow() returns (i: nat)
      requires Valid() && n > 0
      ensures i == Stalest(rows[..n])
    {
      i := 0;
      for k := 1 to n
        invariant i < k
        invariant forall j :: 0 <= j < k ==> rows[i].seen <= rows[j].seen
        invariant forall j :: 0 <= j < i ==> rows[i].seen < rows[j].seen
      {
        if rows[k].seen < rows[i].seen { i := k; }
      }
      ghost var s := Stalest(rows[..n]);
      assert rows[..n][i].seen <= rows[..n][s].seen;
    }

    /** Finds the row of the key, else takes a free slot, else evicts the stalest
        row; zeroes a row that changes hands; then applies the update. */
    method Observe(o: Obs<K, E>)
      requires Valid()
      modifies this, rows
      ensures Valid() && log == old(log) + [o]
    {
      hide Find, Stalest;
      ghost var was := rows[..n];
      var i := Lookup(o.key);
      var data: Option<V> := None;
      if i < n {
        data := Some(rows[i].data);
      } else if n < cap {
        n := n + 1;
      } else {
        i := StalestRow();
      }
      rows[i] := Row(o.key, o.ts, upd(data, o));
      log := log + [o];
      assert log[..|log| - 1] == old(log);
      assert rows[..n] == Touch(was, cap, upd, o);
    }

    method Clear()
      requires Valid()
      modifies this
      ensures Valid() && log == [] && n == 0
    {
      n, log := 0, [];
    }
  }
}
