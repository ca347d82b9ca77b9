/** Unprotected robust Action frames on networks that require protection, one row
    per offending BSSID. */
module Mfp {
  import opened Wrappers
  import opened Lru
  import opened Dot11

  const MAX_BSS: nat := 32

  datatype Violation = Violation(count: nat, category: Byte)

  type MfpObs = Obs<Mac, Byte>
  type MfpTable = Table<Mac, Violation, Byte>

  /** An exclusion list: only three categories are never protected. */
  predicate IsRobust(cat: Byte) { cat != CAT_PUBLIC && cat != CAT_UNPROT_WNM && cat != CAT_VENDOR }

  function Note(was: Option<Violation>, o: MfpObs): Violation {
    match was
    case None => Violation(1, o.what)
    case Some(v) => v.(count := v.count + 1)
  }

  ghost predicate IsMfp(t: MfpTable)
    reads t, t.rows
  {
    t.Valid() && t.cap == MAX_BSS && t.upd == Note
  }

  method NewTable() returns (t: MfpTable)
    ensures IsMfp(t) && t.log == [] && fresh(t) && fresh(t.rows)
  {
    t := new Table(MAX_BSS, Note, Row([0, 0, 0, 0, 0, 0], 0, Violation(0, 0)));
  }

  function History(log: seq<MfpObs>, bssid: Mac): seq<MfpObs> {
    Since<Mac, Violation, Byte>(MAX_BSS, Note, log, bssid)
  }

  /** The tally counts violations since the row was created; the category called
      worst is that of the first of them and never changes. */
  lemma {:induction false} ViolationIsHistory(h: seq<MfpObs>)
    requires h != []
    ensures Replay<Mac, Violation, Byte>(Note, h) == Violation(|h|, h[0].what)
  {
    if |h| == 1 {
    } else {
      ViolationIsHistory(h[..|h| - 1]);
    }
  }

  lemma RowIsHistory(log: seq<MfpObs>, i: nat)
    requires i < |Run<Mac, Violation, Byte>(MAX_BSS, Note, log)|
    ensures var row := Run<Mac, Violation, Byte>(MAX_BSS, Note, log)[i];
            var h := History(log, row.key);
            h != [] && row.data == Violation(|h|, h[0].what)
  {
    TableIsFaithful<Mac, Violation, Byte>(MAX_BSS, Note, log);
    ViolationIsHistory(History(log, Run<Mac, Violation, Byte>(MAX_BSS, Note, log)[i].key));
  }

  /** Every BSSID offending inside the window has a row if and only if there are no more
      than 32 of them. */
  lemma OffendersAreListed(log: seq<MfpObs>, w: int)
    requires Ordered(log) && log != []
    ensures (forall b :: b in Active(log, w) ==> Has(Run<Mac, Violation, Byte>(MAX_BSS, Note, log), b))
            <==> |Active(log, w)| <= 32
  {
    ActiveAreResident<Mac, Violation, Byte>(MAX_BSS, Note, log, w);
  }

  /** `action_mfp_violations`: how many BSSIDs, and the one with the largest tally. */
  method Violations(t: MfpTable) returns (n: nat, worst: Option<Row<Mac, Violation>>)
    requires IsMfp(t)
    ensures n == t.n && (worst.None? <==> t.log == [])
    ensures worst.Some? ==>
              var h := History(t.log, worst.value.key);
              && h != [] && worst.value.data == Violation(|h|, h[0].what)
              && forall k: Mac :: |History(t.log, k)| <= |h|
  {
    hide Run, Since, Find;
    n, worst := t.n, None;
    ghost var rows := t.rows[..t.n];
    for i := 0 to t.n
      invariant worst.None? <==> i == 0
      invariant worst.Some? ==>
                  var h := History(t.log, worst.value.key);
                  h != [] && worst.value.data == Violation(|h|, h[0].what)
      invariant forall j :: 0 <= j < i ==> |History(t.log, rows[j].key)| <= worst.value.data.count
    {
      RowIsHistory(t.log, i);
      assert rows[i] == t.rows[i];
      if worst.None? || t.rows[i].data.count > worst.value.data.count {
        worst := Some(t.rows[i]);
      }
    }
    forall k: Mac ensures |History(t.log, k)| <= if worst.Some? then worst.value.data.count else 0 {
      HasMeans(rows, k);
      SinceEmpty<Mac, Violation, Byte>(MAX_BSS, Note, t.log, k);
    }
    EmptyMeansNoRows(t.log);
  }

  lemma EmptyMeansNoRows(log: seq<MfpObs>)
    ensures Run<Mac, Violation, Byte>(MAX_BSS, Note, log) == [] <==> log == []
  {
    if log != [] {
      assert |Touch(Run<Mac, Violation, Byte>(MAX_BSS, Note, log[..|log| - 1]), MAX_BSS, Note, log[|log| - 1])| > 0;
    }
  }
}
