/** Research coverage: the alerts grouped by kind into a table of 32 rows, worst
    first. */
module Coverage {
  import opened Seqs
  import opened Sorting
  import Text

  const MAX_ROWS: nat := 32
  const KIND_SIZE: nat := 48
  const LABEL_SIZE: nat := 24
  const MAX_DOCS: nat := 8

  datatype Alert = Alert(kind: string, title: string, sev: nat, count: int)

  /** What the corpus and the type list say of a kind. */
  datatype Corpus = Corpus(hits: string -> nat, hasTechnique: string -> bool)

  datatype Row = Row(kind: string, shown: string, severity: nat, fired: nat,
                     docCount: nat, docsTruncated: bool, noBasis: bool)

  /** snprintf into a buffer of `size`: as much as leaves room for the terminator. */
  function Cut(s: string, size: nat): (r: string)
    requires 0 < size
    ensures r <= s && |r| == Min(|s|, size - 1)
  {
    if |s| < size then s else s[..size - 1]
  }

  /** An alert counts its occurrences, and at least once. */
  function Weight(a: Alert): (w: nat)
    ensures w >= 1 && w >= a.count && (w == 1 || w == a.count)
  {
    if a.count > 0 then a.count else 1
  }

  function Fresh(a: Alert, corpus: Corpus): Row {
    var n := corpus.hits(a.kind);
    Row(Cut(a.kind, KIND_SIZE), Cut(a.title, LABEL_SIZE), a.sev, Weight(a),
        Min(n, MAX_DOCS), n > MAX_DOCS, !corpus.hasTechnique(a.kind))
  }

  /** A worse alert of a known kind raises the row and relabels it. */
  function Again(r: Row, a: Alert): Row {
    var s := if a.sev > r.severity then r.(severity := a.sev, shown := Cut(a.title, LABEL_SIZE)) else r;
    s.(fired := s.fired + Weight(a))
  }

  function Find(rows: seq<Row>, kind: string): (i: nat)
    ensures i <= |rows|
    ensures i < |rows| ==> rows[i].kind == kind
    ensures forall j :: 0 <= j < i ==> rows[j].kind != kind
  {
    if rows == [] || rows[0].kind == kind then 0 else 1 + Find(rows[1..], kind)
  }

  function Add(rows: seq<Row>, a: Alert, corpus: Corpus): seq<Row> {
    if a.kind == "" then rows
    else
      var i := Find(rows, a.kind);
      if i < |rows| then rows[i := Again(rows[i], a)]
      else if |rows| >= MAX_ROWS then rows
      else rows + [Fresh(a, corpus)]
  }

  function Group(alerts: seq<Alert>, corpus: Corpus): (rows: seq<Row>)
    ensures |rows| <= MAX_ROWS
  {
    if alerts == [] then [] else Add(Group(alerts[..|alerts| - 1], corpus), alerts[|alerts| - 1], corpus)
  }

  // ----- The order -----------------------------------------------------------

  /** What `cov_worse` looks at. */
  datatype Rank = Rank(kind: string, severity: nat, fired: nat)

  predicate RankWorse(a: Rank, b: Rank) {
    if a.severity != b.severity then a.severity > b.severity
    else if a.fired != b.fired then a.fired > b.fired
    else Text.Less(a.kind, b.kind)
  }

  function RankOf(): Row -> Rank { (r: Row) => Rank(r.kind, r.severity, r.fired) }

  function Worse(): (Row, Row) -> bool { (a: Row, b: Row) => RankWorse(RankOf()(a), RankOf()(b)) }

  function WorseRank(): (Rank, Rank) -> bool { (a: Rank, b: Rank) => RankWorse(a, b) }

  /** The operator's reading order leaves nothing tied but equal ranks. */
  lemma WorseIsTotal()
    ensures StrictWeak(WorseRank()) && Trichotomous(WorseRank())
  {
    forall a: Rank, b: Rank | RankWorse(a, b) ensures !RankWorse(b, a) {
      if Text.Less(a.kind, b.kind) { Text.LessAsymmetric(a.kind, b.kind); }
    }
    forall a: Rank, b: Rank, c: Rank | !RankWorse(a, b) && !RankWorse(b, c) ensures !RankWorse(a, c) {
      if !Text.Less(a.kind, b.kind) && !Text.Less(b.kind, c.kind) { Text.NotLessTransitive(a.kind, b.kind, c.kind); }
    }
    forall a: Rank, b: Rank | !RankWorse(a, b) && !RankWorse(b, a) ensures a == b {
      Text.LessTotal(a.kind, b.kind);
    }
  }

  /** The table shown is a permutation of the rows, worst first. */
  lemma ShownWorstFirst(alerts: seq<Alert>, corpus: Corpus)
    ensures var s := Sort(Group(alerts, corpus), Worse());
            && multiset(s) == multiset(Group(alerts, corpus))
            && forall i, j :: 0 <= i < j < |s| ==> ReadsBefore(s[i], s[j])
  {
    hide RankWorse, ReadsBefore;
    var rows := Group(alerts, corpus);
    WorseIsTotal();
    SortMultiset(rows, Worse());
    SortMap(rows, RankOf(), Worse(), WorseRank());
    SortSorted(Map(rows, RankOf()), WorseRank());
    var (s, t) := (Sort(rows, Worse()), Sort(Map(rows, RankOf()), WorseRank()));
    forall i, j | 0 <= i < j < |s| ensures ReadsBefore(s[i], s[j]) {
      assert Map(s, RankOf())[i] == t[i] && Map(s, RankOf())[j] == t[j];
      assert !WorseRank()(t[j], t[i]);
      NotWorseReads(s[i], s[j]);
    }
  }

  /** Graver first, then the more frequent, then the kind's name. */
  ghost predicate ReadsBefore(a: Row, b: Row) {
    && a.severity >= b.severity
    && (a.severity == b.severity ==> a.fired >= b.fired)
    && (a.severity == b.severity && a.fired == b.fired ==> !Text.Less(b.kind, a.kind))
  }

  lemma NotWorseReads(a: Row, b: Row)
    requires !RankWorse(RankOf()(b), RankOf()(a))
    ensures ReadsBefore(a, b)
  {
  }

  class Table {
    const rows: array<Row>
    var n: nat
    var sel: int
    var open: bool

    ghost predicate Valid()
      reads this
    {
      rows.Length == MAX_ROWS && n <= MAX_ROWS
    }

    /** `research_coverage_snapshot`. */
    method Snapshot(alerts: seq<Alert>, corpus: Corpus, isOpen: bool)
      requires Valid()
      modifies this, rows
      ensures Valid() && open == isOpen
      ensures rows[..n] == Sort(Group(alerts, corpus), Worse())
      ensures if n == 0 then sel == 0 else 0 <= sel < n
      ensures 0 <= old(sel) < n ==> sel == old(sel)
      ensures n > 0 && old(sel) >= n ==> sel == n - 1
      ensures old(sel) < 0 ==> sel == 0
    {
      hide Group, Sort;
      n, open := 0, isOpen;
      GroupNone(corpus);
      for i := 0 to |alerts|
        invariant Valid() && open == isOpen && sel == old(sel)
        invariant rows[..n] == Group(alerts[..i], corpus)
      {
        GroupNext(alerts, i, corpus);
        if alerts[i].kind == "" { continue; }
        Count(alerts[i], corpus);
      }
      assert alerts[..|alerts|] == alerts;
      InsertionSort(rows, n, Worse());
      if sel >= n { sel := if n > 0 then n - 1 else 0; }
      if sel < 0 { sel := 0; }
    }

    method Locate(kind: string) returns (k: nat)
      requires Valid()
      ensures k == Find(rows[..n], kind)
    {
      k := 0;
      while k < n && rows[k].kind != kind
        invariant k <= n && forall j :: 0 <= j < k ==> rows[j].kind != kind
      {
        k := k + 1;
      }
      assert forall j :: 0 <= j < n ==> rows[..n][j] == rows[j];
    }

    /** One alert's turn: its row found, made or refused. */
    method Count(a: Alert, corpus: Corpus)
      requires Valid() && a.kind != ""
      modifies this`n, rows
      ensures Valid() && rows[..n] == Add(old(rows[..n]), a, corpus)
    {
      hide Find;
      ghost var was := rows[..n];
      var k := Locate(a.kind);
      if k == n {
        if n >= MAX_ROWS { return; }
        rows[n] := Fresh(a, corpus);
        n := n + 1;
        assert rows[..n] == was + [Fresh(a, corpus)];
      } else {
        rows[k] := Again(rows[k], a);
        assert rows[..n] == was[k := Again(was[k], a)];
      }
    }

    /** `research_coverage_ratio`: the rows with a basis, and those of them with a
        document. */
    method Ratio() returns (citable: nat, cited: nat)
      requires Valid()
      ensures citable == |WithBasis(rows[..n])| && cited == |WithDocument(rows[..n])|
    {
      hide WithBasis, WithDocument;
      citable, cited := 0, 0;
      ghost var all := rows[..n];
      NothingYet(all);
      for i := 0 to n
        invariant citable == |WithBasis(all[..i])| && cited == |WithDocument(all[..i])|
      {
        BasisNext(all, i);
        DocumentNext(all, i);
        if rows[i].noBasis { continue; }
        citable := citable + 1;
        if rows[i].docCount > 0 { cited := cited + 1; }
      }
      assert all[..n] == all;
    }
  }

  ghost function WithBasis(rows: seq<Row>): set<nat> { set i: nat | i < |rows| && !rows[i].noBasis }

  ghost function WithDocument(rows: seq<Row>): set<nat> {
    set i: nat | i < |rows| && !rows[i].noBasis && rows[i].docCount > 0
  }

  lemma NothingYet(all: seq<Row>)
    ensures |WithBasis(all[..0])| == 0 && |WithDocument(all[..0])| == 0
  {
    assert WithBasis(all[..0]) == {} && WithDocument(all[..0]) == {};
  }

  lemma BasisNext(all: seq<Row>, i: nat)
    requires i < |all|
    ensures |WithBasis(all[..i + 1])| == |WithBasis(all[..i])| + if all[i].noBasis then 0 else 1
  {
    assert WithBasis(all[..i + 1]) == WithBasis(all[..i]) + if all[i].noBasis then {} else {i};
  }

  lemma DocumentNext(all: seq<Row>, i: nat)
    requires i < |all|
    ensures |WithDocument(all[..i + 1])| == |WithDocument(all[..i])| + if !all[i].noBasis && all[i].docCount > 0 then 1 else 0
  {
    assert WithDocument(all[..i + 1]) ==
           WithDocument(all[..i]) + if !all[i].noBasis && all[i].docCount > 0 then {i} else {};
  }

  lemma GroupNone(corpus: Corpus)
    ensures Group([], corpus) == []
  {
  }

  lemma GroupNext(alerts: seq<Alert>, i: nat, corpus: Corpus)
    requires i < |alerts|
    ensures Group(alerts[..i + 1], corpus) == Add(Group(alerts[..i], corpus), alerts[i], corpus)
    ensures alerts[..0] == []
  {
    assert alerts[..i + 1][..i] == alerts[..i];
  }

  // ----- Conservation ----------------------------------------------------------

  /** The distinct named kinds, in the order the alerts bring them. */
  function Kinds(alerts: seq<Alert>): seq<string> {
    if alerts == [] then []
    else
      var (ks, k) := (Kinds(alerts[..|alerts| - 1]), alerts[|alerts| - 1].kind);
      if k == "" || k in ks then ks else ks + [k]
  }

  /** Total occurrences of a kind, and the worst severity it reached (-1: none). */
  function Fired(alerts: seq<Alert>, kind: string): nat {
    if alerts == [] then 0
    else
      var a := alerts[|alerts| - 1];
      Fired(alerts[..|alerts| - 1], kind) + if a.kind == kind then Weight(a) else 0
  }

  function Worst(alerts: seq<Alert>, kind: string): int {
    if alerts == [] then -1
    else
      var (w, a) := (Worst(alerts[..|alerts| - 1], kind), alerts[|alerts| - 1]);
      if a.kind == kind && a.sev > w then a.sev else w
  }

  ghost predicate ShortKinds(alerts: seq<Alert>) {
    forall i :: 0 <= i < |alerts| ==> |alerts[i].kind| < KIND_SIZE
  }

  function FirstRows(ks: seq<string>): seq<string> { if |ks| <= MAX_ROWS then ks else ks[..MAX_ROWS] }

  function KindOf(): Row -> string { (r: Row) => r.kind }

  lemma {:induction false} KindsAre(alerts: seq<Alert>, kind: string)
    ensures kind in Kinds(alerts) <==> kind != "" && exists i :: 0 <= i < |alerts| && alerts[i].kind == kind
    ensures kind !in Kinds(alerts) && kind != "" ==> Fired(alerts, kind) == 0 && Worst(alerts, kind) == -1
  {
    if alerts == [] {
    } else {
      var f := alerts[..|alerts| - 1];
      KindsAre(f, kind);
      assert alerts == f + [alerts[|alerts| - 1]];
    }
  }

  lemma {:induction false} KindsDistinct(alerts: seq<Alert>)
    ensures forall i, j :: 0 <= i < j < |Kinds(alerts)| ==> Kinds(alerts)[i] != Kinds(alerts)[j]
  {
    if alerts == [] {
    } else {
      KindsDistinct(alerts[..|alerts| - 1]);
    }
  }

  ghost predicate Tallied(r: Row, alerts: seq<Alert>) {
    r.fired == Fired(alerts, r.kind) && r.severity == Worst(alerts, r.kind)
  }

  lemma FindIs(rows: seq<Row>, kind: string)
    ensures Find(rows, kind) < |rows| <==> kind in Map(rows, KindOf())
  {
    var ks := Map(rows, KindOf());
    if kind in ks {
      var i :| 0 <= i < |ks| && ks[i] == kind;
      assert rows[i].kind == kind;
    }
    if Find(rows, kind) < |rows| {
      assert ks[Find(rows, kind)] == kind;
    }
  }

  /** Rows are the first 32 distinct named kinds in alert order, and each carries
      every occurrence of its kind, at its worst severity; a kind that missed the
      table appears in none. */
  lemma {:induction false} GroupConserves(alerts: seq<Alert>, corpus: Corpus)
    requires ShortKinds(alerts)
    ensures var rows := Group(alerts, corpus);
            && Map(rows, KindOf()) == FirstRows(Kinds(alerts))
            && forall i :: 0 <= i < |rows| ==> Tallied(rows[i], alerts)
  {
    if alerts == [] {
    } else {
      var (p, a) := (alerts[..|alerts| - 1], alerts[|alerts| - 1]);
      GroupConserves(p, corpus);
      AddConserves(p, a, Group(p, corpus), corpus);
      assert p + [a] == alerts;
    }
  }

  lemma AddConserves(p: seq<Alert>, a: Alert, rows: seq<Row>, corpus: Corpus)
    requires |a.kind| < KIND_SIZE
    requires Map(rows, KindOf()) == FirstRows(Kinds(p)) && forall i :: 0 <= i < |rows| ==> Tallied(rows[i], p)
    ensures var after := Add(rows, a, corpus);
            && Map(after, KindOf()) == FirstRows(Kinds(p + [a]))
            && forall i :: 0 <= i < |after| ==> Tallied(after[i], p + [a])
  {
    hide Find;
    var after := Add(rows, a, corpus);
    assert (p + [a])[..|p|] == p;
    KindsAre(p, a.kind);
    FindIs(rows, a.kind);
    RowKinds(rows, p);
    forall i | 0 <= i < |after| ensures Tallied(after[i], p + [a]) {
      if i < |rows| {
        assert rows[i].kind == Map(rows, KindOf())[i];
        assert after[i].kind == rows[i].kind;
      }
    }
    assert Map(after, KindOf()) == FirstRows(Kinds(p + [a]));
  }

  /** The first alert of the row's kind to reach its severity gives it its title; the
      corpus gives it at most 8 documents, and says whether there were more. */
  ghost predicate Labelled(r: Row, alerts: seq<Alert>, corpus: Corpus, i: nat) {
    && i < |alerts| && alerts[i].kind == r.kind && alerts[i].sev == r.severity
    && r.shown == Cut(alerts[i].title, 24)
    && (forall j :: 0 <= j < i && alerts[j].kind == r.kind ==> alerts[j].sev < r.severity)
    && r.docCount == Min(corpus.hits(r.kind), 8) && r.docsTruncated == (corpus.hits(r.kind) > 8)
    && r.noBasis == !corpus.hasTechnique(r.kind)
  }

  lemma {:induction false} WorstBounds(alerts: seq<Alert>, i: nat)
    requires i < |alerts|
    ensures alerts[i].sev <= Worst(alerts, alerts[i].kind)
  {
    if i < |alerts| - 1 { WorstBounds(alerts[..|alerts| - 1], i); }
  }

  lemma FreshIsLabelled(p: seq<Alert>, a: Alert, corpus: Corpus)
    requires |a.kind| < KIND_SIZE && a.kind != "" && a.kind !in Kinds(p)
    ensures Labelled(Fresh(a, corpus), p + [a], corpus, |p|)
  {
    KindsAre(p, a.kind);
    forall j | 0 <= j < |p| ensures (p + [a])[j].kind != a.kind {
      assert (p + [a])[j] == p[j];
    }
  }

  lemma RaisedIsLabelled(p: seq<Alert>, a: Alert, corpus: Corpus, r: Row, i: nat)
    requires Labelled(r, p, corpus, i) && r.kind == a.kind && r.severity == Worst(p, r.kind) < a.sev
    ensures Labelled(Again(r, a), p + [a], corpus, |p|)
  {
    forall j | 0 <= j < |p| && p[j].kind == a.kind ensures p[j].sev < a.sev {
      WorstBounds(p, j);
    }
  }

  lemma KeptIsLabelled(p: seq<Alert>, a: Alert, corpus: Corpus, r: Row, i: nat)
    requires Labelled(r, p, corpus, i)
    ensures Labelled(r, p + [a], corpus, i)
    ensures a.sev <= r.severity ==> Labelled(Again(r, a), p + [a], corpus, i)
  {
  }

  lemma {:induction false} RowsAreLabelled(alerts: seq<Alert>, corpus: Corpus, k: nat)
    requires ShortKinds(alerts) && k < |Group(alerts, corpus)|
    ensures exists i :: Labelled(Group(alerts, corpus)[k], alerts, corpus, i)
  {
    hide Find, Kinds, Fired, Worst, Labelled;
    var (p, a) := (alerts[..|alerts| - 1], alerts[|alerts| - 1]);
    assert alerts == p + [a];
    var (was, rows) := (Group(p, corpus), Group(alerts, corpus));
    GroupConserves(p, corpus);
    FindIs(was, a.kind);
    if k == |was| {
      FreshIsLabelled(p, a, corpus);
      assert Labelled(rows[k], alerts, corpus, |p|);
    } else {
      RowsAreLabelled(p, corpus, k);
      var i :| Labelled(was[k], p, corpus, i);
      KeptIsLabelled(p, a, corpus, was[k], i);
      AddAt(was, a, corpus, k);
      if rows[k] != was[k] && a.sev > was[k].severity {
        RaisedIsLabelled(p, a, corpus, was[k], i);
        assert Labelled(rows[k], alerts, corpus, |p|);
      } else {
        assert Labelled(rows[k], alerts, corpus, i);
      }
    }
  }

  lemma AddAt(rows: seq<Row>, a: Alert, corpus: Corpus, k: nat)
    requires k < |rows|
    ensures var after := Add(rows, a, corpus);
            k < |after| && (after[k] == rows[k] || (rows[k].kind == a.kind && after[k] == Again(rows[k], a)))
  {
  }

  lemma RowKinds(rows: seq<Row>, p: seq<Alert>)
    requires Map(rows, KindOf()) == FirstRows(Kinds(p))
    ensures forall i, j :: 0 <= i < j < |rows| ==> rows[i].kind != rows[j].kind
    ensures forall i :: 0 <= i < |rows| ==> rows[i].kind != ""
  {
    KindsDistinct(p);
    var ks := Map(rows, KindOf());
    forall i, j | 0 <= i < j < |rows| ensures rows[i].kind != rows[j].kind {
      assert ks[i] == Kinds(p)[i] && ks[j] == Kinds(p)[j];
    }
    forall i | 0 <= i < |rows| ensures rows[i].kind != "" {
      assert ks[i] == Kinds(p)[i];
      KindsAre(p, Kinds(p)[i]);
    }
  }

  function SumFired(rows: seq<Row>): nat {
    if rows == [] then 0 else SumFired(rows[..|rows| - 1]) + rows[|rows| - 1].fired
  }

  function TotalWeight(alerts: seq<Alert>): nat {
    if alerts == [] then 0
    else TotalWeight(alerts[..|alerts| - 1]) + if alerts[|alerts| - 1].kind != "" then Weight(alerts[|alerts| - 1]) else 0
  }

  function Sum(ns: seq<int>): int {
    if ns == [] then 0 else Sum(ns[..|ns| - 1]) + ns[|ns| - 1]
  }

  function CountOf(): Alert -> int { (a: Alert) => a.count }

  /** Alerts of positive counts add up to the sum of the counts. */
  lemma {:induction false} FiredIsSum(alerts: seq<Alert>, kind: string)
    requires forall i :: 0 <= i < |alerts| ==> alerts[i].count > 0
    ensures Fired(alerts, kind) == Sum(Map(Filter(alerts, IsKind(kind)), CountOf()))
  {
    if alerts == [] {
    } else {
      var (f, a) := (alerts[..|alerts| - 1], alerts[|alerts| - 1]);
      FiredIsSum(f, kind);
      assert Filter(alerts, IsKind(kind)) == Filter(f, IsKind(kind)) + if a.kind == kind then [a] else [];
      SumMap(Filter(f, IsKind(kind)), a);
      assert Filter(f, IsKind(kind)) + [] == Filter(f, IsKind(kind));
    }
  }

  lemma SumMap(s: seq<Alert>, a: Alert)
    ensures Sum(Map(s + [a], CountOf())) == Sum(Map(s, CountOf())) + a.count
  {
    assert Map(s + [a], CountOf())[..|s|] == Map(s, CountOf());
  }

  /** Alerts without a positive count count once each. */
  lemma {:induction false} FiredCountsAlerts(alerts: seq<Alert>, kind: string)
    requires forall i :: 0 <= i < |alerts| ==> alerts[i].count <= 1
    ensures Fired(alerts, kind) == Seqs.Count(alerts, IsKind(kind))
  {
    if alerts == [] {
    } else {
      FiredCountsAlerts(alerts[..|alerts| - 1], kind);
    }
  }

  function IsNamed(): Alert -> bool { (a: Alert) => a.kind != "" }

  /** And so does the total, over the alerts that have a kind. */
  lemma {:induction false} TotalIsSum(alerts: seq<Alert>)
    requires forall i :: 0 <= i < |alerts| ==> alerts[i].count > 0
    ensures TotalWeight(alerts) == Sum(Map(Filter(alerts, IsNamed()), CountOf()))
  {
    if alerts == [] {
    } else {
      var (f, a) := (alerts[..|alerts| - 1], alerts[|alerts| - 1]);
      TotalIsSum(f);
      assert Filter(alerts, IsNamed()) == Filter(f, IsNamed()) + if a.kind != "" then [a] else [];
      SumMap(Filter(f, IsNamed()), a);
      assert Filter(f, IsNamed()) + [] == Filter(f, IsNamed());
    }
  }

  lemma {:induction false} SumUpdate(rows: seq<Row>, i: nat, r: Row)
    requires i < |rows|
    ensures SumFired(rows[i := r]) == SumFired(rows) - rows[i].fired + r.fired
  {
    var f := rows[..|rows| - 1];
    if i == |rows| - 1 {
      assert rows[i := r][..i] == f;
    } else {
      SumUpdate(f, i, r);
      assert rows[i := r][..|rows| - 1] == f[i := r];
    }
  }

  /** Whether the alert is counted: named, and its row is there or can be made. */
  predicate Takes(rows: seq<Row>, a: Alert) {
    a.kind != "" && (Find(rows, a.kind) < |rows| || |rows| < MAX_ROWS)
  }

  lemma SumPush(rows: seq<Row>, r: Row)
    ensures SumFired(rows + [r]) == SumFired(rows) + r.fired
  {
    assert (rows + [r])[..|rows|] == rows;
  }

  lemma SumAdd(rows: seq<Row>, a: Alert, corpus: Corpus)
    ensures SumFired(Add(rows, a, corpus)) == SumFired(rows) + if Takes(rows, a) then Weight(a) else 0
  {
    hide Find, SumFired;
    var i := Find(rows, a.kind);
    if a.kind != "" && i < |rows| {
      SumUpdate(rows, i, Again(rows[i], a));
    } else if Takes(rows, a) {
      SumPush(rows, Fresh(a, corpus));
    }
  }

  /** An alert is refused exactly when it is a 33rd kind, or a later one. */
  lemma TakesIff(p: seq<Alert>, a: Alert, corpus: Corpus)
    requires ShortKinds(p)
    ensures a.kind != "" && !Takes(Group(p, corpus), a) <==>
            a.kind != "" && |Kinds(p)| >= MAX_ROWS && a.kind !in FirstRows(Kinds(p))
  {
    hide Find, Kinds, Group;
    GroupConserves(p, corpus);
    FindIs(Group(p, corpus), a.kind);
  }

  /** Nothing is counted twice, and nothing is lost exactly when the distinct kinds
      fit the table. */
  lemma {:induction false} TotalIsConservedIff(alerts: seq<Alert>, corpus: Corpus)
    requires ShortKinds(alerts)
    ensures SumFired(Group(alerts, corpus)) <= TotalWeight(alerts)
    ensures SumFired(Group(alerts, corpus)) == TotalWeight(alerts) <==> |Kinds(alerts)| <= 32
  {
    hide Find, Add, Takes, Weight;
    if alerts == [] {
    } else {
      var (p, a) := (alerts[..|alerts| - 1], alerts[|alerts| - 1]);
      TotalIsConservedIff(p, corpus);
      TakesIff(p, a, corpus);
      SumAdd(Group(p, corpus), a, corpus);
      TakesNamed(Group(p, corpus), a);
    }
  }

  lemma TakesNamed(rows: seq<Row>, a: Alert)
    ensures Takes(rows, a) ==> a.kind != ""
  {
  }

  // ----- Order independence ----------------------------------------------------

  lemma {:induction false} FiredConcat(a: seq<Alert>, b: seq<Alert>, kind: string)
    ensures Fired(a + b, kind) == Fired(a, kind) + Fired(b, kind)
    ensures Worst(a + b, kind) == if Worst(a, kind) > Worst(b, kind) then Worst(a, kind) else Worst(b, kind)
    ensures Worst(a, kind) >= -1
  {
    if b == [] {
      assert a + b == a;
      WorstFloor(a, kind);
    } else {
      FiredConcat(a, b[..|b| - 1], kind);
      assert (a + b)[..|a + b| - 1] == a + b[..|b| - 1];
    }
  }

  lemma {:induction false} WorstFloor(a: seq<Alert>, kind: string)
    ensures Worst(a, kind) >= -1
  {
    if a == [] {
    } else {
      WorstFloor(a[..|a| - 1], kind);
    }
  }

  lemma Without<T>(a: seq<T>, b: seq<T>, j: nat)
    requires a != [] && multiset(a) == multiset(b) && j < |b| && b[j] == a[|a| - 1]
    ensures b == b[..j] + [b[j]] + b[j + 1..]
    ensures multiset(a[..|a| - 1]) == multiset(b[..j] + b[j + 1..])
  {
    var (f, x, u, v) := (a[..|a| - 1], a[|a| - 1], b[..j], b[j + 1..]);
    assert a == f + [x];
    assert b == u + [x] + v;
    assert multiset(b) == multiset(u) + multiset{x} + multiset(v);
    assert multiset(f) == multiset(a) - multiset{x};
    assert multiset(u + v) == multiset(b) - multiset{x};
  }

  lemma {:induction false} TallyIgnoresOrder(a: seq<Alert>, b: seq<Alert>, kind: string)
    requires multiset(a) == multiset(b)
    ensures Fired(a, kind) == Fired(b, kind) && Worst(a, kind) == Worst(b, kind)
  {
    SameSize(a, b);
    if a == [] {
    } else {
      var (f, x) := (a[..|a| - 1], a[|a| - 1]);
      assert a == f + [x] && x in multiset(b);
      var j :| 0 <= j < |b| && b[j] == x;
      var (u, v) := (b[..j], b[j + 1..]);
      Without(a, b, j);
      TallyIgnoresOrder(f, u + v, kind);
      FiredConcat(f, [x], kind);
      FiredConcat(u + [x], v, kind);
      FiredConcat(u, [x], kind);
      FiredConcat(u, v, kind);
    }
  }

  lemma {:induction false} DistinctMultiset<T>(s: seq<T>, x: T)
    requires forall i, j :: 0 <= i < j < |s| ==> s[i] != s[j]
    ensures multiset(s)[x] == if x in s then 1 else 0
  {
    if s == [] {
    } else {
      var (f, y) := (s[..|s| - 1], s[|s| - 1]);
      DistinctMultiset(f, x);
      assert s == f + [y];
    }
  }

  lemma RankIn(alerts: seq<Alert>, corpus: Corpus, r: Rank)
    requires ShortKinds(alerts) && |Kinds(alerts)| <= MAX_ROWS
    ensures r in Map(Group(alerts, corpus), RankOf()) <==>
            r.kind in Kinds(alerts) && r.fired == Fired(alerts, r.kind) && r.severity == Worst(alerts, r.kind)
  {
    GroupConserves(alerts, corpus);
    var rows := Group(alerts, corpus);
    var ranks := Map(rows, RankOf());
    assert Map(rows, KindOf()) == Kinds(alerts);
    if r in ranks {
      var i :| 0 <= i < |ranks| && ranks[i] == r;
      assert Tallied(rows[i], alerts) && Map(rows, KindOf())[i] == r.kind;
    }
    if r.kind in Kinds(alerts) && r.fired == Fired(alerts, r.kind) && r.severity == Worst(alerts, r.kind) {
      var i :| 0 <= i < |Kinds(alerts)| && Kinds(alerts)[i] == r.kind;
      assert Map(rows, KindOf())[i] == rows[i].kind && Tallied(rows[i], alerts);
      assert ranks[i] == r;
    }
  }

  lemma RanksDistinct(alerts: seq<Alert>, corpus: Corpus)
    requires ShortKinds(alerts)
    ensures var s := Map(Group(alerts, corpus), RankOf()); forall i, j :: 0 <= i < j < |s| ==> s[i] != s[j]
  {
    GroupConserves(alerts, corpus);
    RowKinds(Group(alerts, corpus), alerts);
  }

  lemma SameRanks(a: seq<Alert>, b: seq<Alert>, corpus: Corpus)
    requires multiset(a) == multiset(b) && ShortKinds(a) && ShortKinds(b)
    requires |Kinds(a)| <= MAX_ROWS && |Kinds(b)| <= MAX_ROWS
    ensures multiset(Map(Group(a, corpus), RankOf())) == multiset(Map(Group(b, corpus), RankOf()))
  {
    hide Group, Kinds, Fired, Worst, Map;
    var (s, t) := (Map(Group(a, corpus), RankOf()), Map(Group(b, corpus), RankOf()));
    forall r: Rank ensures multiset(s)[r] == multiset(t)[r] {
      RankCount(a, corpus, r);
      RankCount(b, corpus, r);
      SameKinds(a, b, r.kind);
      TallyIgnoresOrder(a, b, r.kind);
    }
  }

  lemma RankCount(alerts: seq<Alert>, corpus: Corpus, r: Rank)
    requires ShortKinds(alerts) && |Kinds(alerts)| <= MAX_ROWS
    ensures multiset(Map(Group(alerts, corpus), RankOf()))[r] ==
            if r.kind in Kinds(alerts) && r.fired == Fired(alerts, r.kind) && r.severity == Worst(alerts, r.kind) then 1 else 0
  {
    hide Group, Kinds, Fired, Worst, Map;
    RanksDistinct(alerts, corpus);
    RankIn(alerts, corpus, r);
    DistinctMultiset(Map(Group(alerts, corpus), RankOf()), r);
  }

  lemma SameKinds(a: seq<Alert>, b: seq<Alert>, kind: string)
    requires multiset(a) == multiset(b)
    ensures kind in Kinds(a) <==> kind in Kinds(b)
  {
    KindsAre(a, kind);
    KindsAre(b, kind);
    if i :| 0 <= i < |a| && a[i].kind == kind { assert a[i] in multiset(b); }
    if i :| 0 <= i < |b| && b[i].kind == kind { assert b[i] in multiset(a); }
  }

  /** What the view lists, row by row. */
  function Shown(alerts: seq<Alert>, corpus: Corpus): seq<Rank> {
    Map(Sort(Group(alerts, corpus), Worse()), RankOf())
  }

  lemma SameKindCount(a: seq<Alert>, b: seq<Alert>)
    requires forall k :: k in Kinds(a) ==> k in Kinds(b)
    ensures |Kinds(a)| <= |Kinds(b)|
  {
    KindsDistinct(a);
    KindsDistinct(b);
    var (s, t) := (Kinds(a), Kinds(b));
    forall k ensures multiset(s)[k] <= multiset(t)[k] {
      DistinctMultiset(s, k);
      DistinctMultiset(t, k);
    }
    assert multiset(s) <= multiset(t);
    assert |multiset(t)| == |multiset(s)| + |multiset(t) - multiset(s)|;
  }

  /** The sequence of kind, severity and count shown is the same for every
      permutation of the alerts, when their kinds fit the table. */
  lemma CoverageIgnoresOrder(a: seq<Alert>, b: seq<Alert>, corpus: Corpus)
    requires multiset(a) == multiset(b) && ShortKinds(a)
    requires |Kinds(a)| <= MAX_ROWS
    ensures Shown(a, corpus) == Shown(b, corpus)
  {
    hide Group, Kinds;
    ShortToo(a, b);
    forall k | k in Kinds(b) ensures k in Kinds(a) { SameKinds(a, b, k); }
    SameKindCount(b, a);
    WorseIsTotal();
    SortMap(Group(a, corpus), RankOf(), Worse(), WorseRank());
    SortMap(Group(b, corpus), RankOf(), Worse(), WorseRank());
    SameRanks(a, b, corpus);
    SortCanonical(Map(Group(a, corpus), RankOf()), Map(Group(b, corpus), RankOf()), WorseRank());
  }

  lemma ShortToo(a: seq<Alert>, b: seq<Alert>)
    requires multiset(a) == multiset(b) && ShortKinds(a)
    ensures ShortKinds(b)
  {
    forall i | 0 <= i < |b| ensures |b[i].kind| < KIND_SIZE {
      assert b[i] in multiset(a);
    }
  }

  function IsKind(kind: string): Alert -> bool { (a: Alert) => a.kind == kind }
  function NotKind(kind: string): Alert -> bool { (a: Alert) => a.kind != kind }

  lemma {:induction false} Partition(a: seq<Alert>, kind: string)
    ensures multiset(Filter(a, NotKind(kind)) + Filter(a, IsKind(kind))) == multiset(a)
  {
    if a == [] {
    } else {
      var f := a[..|a| - 1];
      Partition(f, kind);
      assert a == f + [a[|a| - 1]];
      assert multiset(f + [a[|a| - 1]]) == multiset(f) + multiset{a[|a| - 1]};
    }
  }

  lemma {:induction false} KindsExtend(a: seq<Alert>, b: seq<Alert>)
    ensures Kinds(a) <= Kinds(a + b)
  {
    if b == [] {
      assert a + b == a;
    } else {
      KindsExtend(a, b[..|b| - 1]);
      assert (a + b)[..|a + b| - 1] == a + b[..|b| - 1];
    }
  }

  lemma OthersAreKept(a: seq<Alert>, kind: string)
    requires kind in Kinds(a)
    ensures var x := Filter(a, NotKind(kind)); kind !in Kinds(x) && |Kinds(x)| >= |Kinds(a)| - 1
  {
    hide Kinds, Filter;
    var x := Filter(a, NotKind(kind));
    KindsDistinct(a);
    KindsDistinct(x);
    KindsAre(x, kind);
    forall i | 0 <= i < |x| ensures x[i].kind != kind { FilterMember(a, NotKind(kind), x[i]); }
    var (s, t) := (Kinds(a), Kinds(x));
    forall k | k != kind ensures multiset(s)[k] <= multiset(t)[k] {
      OtherIsKept(a, kind, k);
      DistinctMultiset(s, k);
      DistinctMultiset(t, k);
    }
    DistinctMultiset(s, kind);
    assert multiset(s) - multiset{kind} <= multiset(t);
    assert |multiset(t)| == |multiset(s) - multiset{kind}| + |multiset(t) - (multiset(s) - multiset{kind})|;
  }

  lemma OtherIsKept(a: seq<Alert>, kind: string, k: string)
    requires k != kind
    ensures k in Kinds(a) ==> k in Kinds(Filter(a, NotKind(kind)))
  {
    hide Kinds, Filter;
    KindsAre(a, k);
    KindsAre(Filter(a, NotKind(kind)), k);
    if k in Kinds(a) {
      var i :| 0 <= i < |a| && a[i].kind == k;
      FilterMember(a, NotKind(kind), a[i]);
    }
  }

  lemma ShowsKind(alerts: seq<Alert>, corpus: Corpus, kind: string)
    requires ShortKinds(alerts)
    ensures (exists r :: r in Shown(alerts, corpus) && r.kind == kind) <==> kind in FirstRows(Kinds(alerts))
  {
    hide Kinds, Group, Fired, Worst;
    GroupConserves(alerts, corpus);
    var rows := Group(alerts, corpus);
    var sorted := Sort(rows, Worse());
    SortMultiset(rows, Worse());
    if r :| r in Shown(alerts, corpus) && r.kind == kind {
      var i :| 0 <= i < |sorted| && RankOf()(sorted[i]) == r;
      assert sorted[i] in multiset(rows);
      var j :| 0 <= j < |rows| && rows[j] == sorted[i];
      assert Map(rows, KindOf())[j] == kind;
    }
    if kind in FirstRows(Kinds(alerts)) {
      var j :| 0 <= j < |rows| && Map(rows, KindOf())[j] == kind;
      assert rows[j] in multiset(sorted);
      var i :| 0 <= i < |sorted| && sorted[i] == rows[j];
      assert Shown(alerts, corpus)[i].kind == kind;
    }
  }

  /** With more kinds than rows some order of the same alerts shows another table:
      the first kind, moved behind the rest, misses it. */
  lemma OrderMattersBeyond(a: seq<Alert>, corpus: Corpus) returns (b: seq<Alert>)
    requires ShortKinds(a) && |Kinds(a)| > MAX_ROWS
    ensures multiset(b) == multiset(a) && Shown(a, corpus) != Shown(b, corpus)
  {
    hide Kinds, Filter, Shown, Group;
    var k := Kinds(a)[0];
    var x := Filter(a, NotKind(k));
    b := x + Filter(a, IsKind(k));
    Partition(a, k);
    ShortToo(a, b);
    OthersAreKept(a, k);
    KindsExtend(x, Filter(a, IsKind(k)));
    assert FirstRows(Kinds(b)) == Kinds(x)[..MAX_ROWS];
    assert FirstRows(Kinds(a))[0] == k;
    ShowsKind(a, corpus, k);
    ShowsKind(b, corpus, k);
  }

  /** So the table is order-independent exactly when the distinct kinds fit it. */
  lemma OrderIndependentIff(a: seq<Alert>, corpus: Corpus)
    requires ShortKinds(a)
    ensures (forall b :: multiset(b) == multiset(a) ==> Shown(b, corpus) == Shown(a, corpus)) <==> |Kinds(a)| <= 32
  {
    hide Kinds, Shown;
    if |Kinds(a)| <= MAX_ROWS {
      forall b | multiset(b) == multiset(a) ensures Shown(b, corpus) == Shown(a, corpus) {
        CoverageIgnoresOrder(a, b, corpus);
      }
    } else {
      var b := OrderMattersBeyond(a, corpus);
    }
  }

  /** Why the kind must fit its field: a longer name never matches its own stored
      prefix, and one kind takes two rows. */
  lemma LongKindSplits(a: Alert, corpus: Corpus)
    requires |a.kind| >= 48
    ensures |Group([a, a], corpus)| == 2 && Kinds([a, a]) == [a.kind]
  {
    assert [a, a][..1] == [a] && [a][..0] == [];
    assert Group([a], corpus) == [Fresh(a, corpus)];
    assert Fresh(a, corpus).kind != a.kind;
    assert Kinds([a]) == [a.kind];
  }
}
