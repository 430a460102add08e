/**
 * A10B: a converging round tee. One table holds both paths, told apart by
 * PATH in any letter case. The branch coefficient is the product of two
 * lookups made independently over the branch rows, on Qb/Qc and on Ab/Ac.
 */
module A10B {
  import opened Wrappers
  import opened Lookup
  import opened Pipeline
  import opened Text

  /** A10B projected on (PATH, Qb/Qc, Ab/Ac, C); a blank cell is `None`. */
  datatype Row = Row(path: string, qbQc: Option<real>, abAc: Option<real>, c: Option<real>)

  function QbQc(r: Row): Option<real> { r.qbQc }
  function AbAc(r: Row): Option<real> { r.abAc }

  /** The rows whose lower-cased PATH is `name`. */
  function PathRows(table: seq<Row>, name: string): (s: seq<Row>)
    ensures forall x :: x in s <==> x in table && Lower(x.path) == name
  {
    Where(table, (r: Row) => Lower(r.path) == name)
  }

  /**
   * `rows[[key, …, "C"]].dropna()` as (key, C) entries, in table order: the
   * rows with the key and C present and passing `keep` (the other
   * projected columns present).
   */
  function Entries(rows: seq<Row>, key: Row -> Option<real>, keep: Row -> bool): (s: seq<Entry>)
    ensures |s| <= |rows|
    ensures |s| == 0 <==> forall i :: 0 <= i < |rows| ==> !(keep(rows[i]) && key(rows[i]).Some? && rows[i].c.Some?)
    ensures forall e :: e in s ==> exists x :: x in rows && keep(x) && key(x) == Some(e.key) && x.c == Some(e.c)
    ensures forall i :: 0 <= i < |rows| && keep(rows[i]) && key(rows[i]).Some? && rows[i].c.Some? ==>
      Entry(key(rows[i]).value, rows[i].c.value) in s
    decreases |rows|, 1
  {
    if |rows| == 0 then []
    else
      EntriesStepSound(rows, key, keep);
      EntriesStepComplete(rows, key, keep);
      Cons(rows[0], key, keep) + Entries(rows[1..], key, keep)
  }

  /** The entry of one row, if it qualifies. */
  function Cons(x: Row, key: Row -> Option<real>, keep: Row -> bool): seq<Entry> {
    if keep(x) && key(x).Some? && x.c.Some? then [Entry(key(x).value, x.c.value)] else []
  }

  /** The first row's entry, if any, followed by the tail's entries: every one comes from a qualifying row. */
  lemma {:induction false} EntriesStepSound(rows: seq<Row>, key: Row -> Option<real>, keep: Row -> bool)
    requires |rows| > 0
    ensures var s := Cons(rows[0], key, keep) + Entries(rows[1..], key, keep);
      forall e :: e in s ==> exists x :: x in rows && keep(x) && key(x) == Some(e.key) && x.c == Some(e.c)
    decreases |rows|, 0
  {
    var rest := Entries(rows[1..], key, keep);
    forall e | e in Cons(rows[0], key, keep) + rest
      ensures exists x :: x in rows && keep(x) && key(x) == Some(e.key) && x.c == Some(e.c)
    {
      if e !in rest {
        assert e in Cons(rows[0], key, keep);
        assert rows[0] in rows;
      } else {
        var y :| y in rows[1..] && keep(y) && key(y) == Some(e.key) && y.c == Some(e.c);
        assert y in rows;
      }
    }
  }

  /** The same sequence: its length, when it is empty, and that every qualifying row yields its entry. */
  lemma {:induction false} EntriesStepComplete(rows: seq<Row>, key: Row -> Option<real>, keep: Row -> bool)
    requires |rows| > 0
    ensures var s := Cons(rows[0], key, keep) + Entries(rows[1..], key, keep);
      |s| <= |rows| &&
      (|s| == 0 <==> forall i :: 0 <= i < |rows| ==> !(keep(rows[i]) && key(rows[i]).Some? && rows[i].c.Some?)) &&
      (forall i :: 0 <= i < |rows| && keep(rows[i]) && key(rows[i]).Some? && rows[i].c.Some? ==>
         Entry(key(rows[i]).value, rows[i].c.value) in s)
    decreases |rows|, 0
  {
    assert forall i :: 1 <= i < |rows| ==> rows[i] == rows[1..][i - 1];
  }

  /**
   * The entries keep table order: those of a split table are the entries
   * of its first part followed by those of its second.
   */
  lemma {:induction false} EntriesAppend(a: seq<Row>, b: seq<Row>, key: Row -> Option<real>, keep: Row -> bool)
    ensures Entries(a + b, key, keep) == Entries(a, key, keep) + Entries(b, key, keep)
    decreases |a|
  {
    if |a| > 0 {
      assert (a + b)[1..] == a[1..] + b;
      EntriesAppend(a[1..], b, key, keep);
    } else {
      assert a + b == b;
    }
  }

  function HasAbAc(r: Row): bool { r.abAc.Some? }

  /** Branch rows with Qb/Qc, Ab/Ac and C, keyed on Qb/Qc. */
  function BranchQ(branch: seq<Row>): seq<Entry> { Entries(branch, QbQc, HasAbAc) }
  /** Branch rows with Ab/Ac and C, keyed on Ab/Ac. */
  function BranchA(branch: seq<Row>): seq<Entry> { Entries(branch, AbAc, Everything()) }
  /** Main rows with Qb/Qc and C, keyed on Qb/Qc. */
  function MainQ(main: seq<Row>): seq<Entry> { Entries(main, QbQc, Everything()) }

  /** Ab/Ac from the two diameters, both areas in square feet. */
  function AreaRatio(db: real, dm: real): real
    requires CircleArea(dm) != 0.0
  {
    (CircleArea(db) / SQ_IN_PER_SQ_FT) / (CircleArea(dm) / SQ_IN_PER_SQ_FT)
  }

  /**
   * Two lookups made independently over the branch rows, each on its own
   * projection: the C at the ceiling of Qb/Qc times the C at the floor of
   * Ab/Ac.
   */
  function BranchCoefficient(byQ: seq<Entry>, byA: seq<Entry>, qbQc: real, abAc: real): (c: real)
    requires |byQ| > 0 && |byA| > 0
    ensures exists i, j :: Picked(byQ, byA, qbQc, abAc, i, j) && c == Times(byQ[i].c, byA[j].c)
  {
    var i, j := CeilEntry(byQ, qbQc), FloorEntry(byA, abAc);
    assert Picked(byQ, byA, qbQc, abAc, i, j);
    Times(byQ[i].c, byA[j].c)
  }

  /** The product of two C values. */
  function Times(x: real, y: real): real { x * y }

  /** The two lookups land on rows `i` and `j`: the ceiling of Qb/Qc and the floor of Ab/Ac. */
  predicate Picked(byQ: seq<Entry>, byA: seq<Entry>, qbQc: real, abAc: real, i: int, j: int) {
    AtCeil(byQ, qbQc, i) && AtFloor(byA, abAc, j)
  }

  /** The checks made before any lookup, all of which raise: missing paths, zero areas, no converged flow. */
  predicate Fails(dm: real, db: real, qs: real, qb: real, table: seq<Row>) {
    var branch, main := PathRows(table, "branch"), PathRows(table, "main");
    |branch| == 0 || |main| == 0 || CircleArea(db) == 0.0 || CircleArea(dm) == 0.0 || qs + qb == 0.0 ||
    |BranchQ(branch)| == 0 || |BranchA(branch)| == 0 || |MainQ(main)| == 0
  }

  /**
   * Main diameter Dc, branch diameter Db (in), source flow Qs and branch
   * flow Qb (cfm). Only an absent input is missing; zero is accepted.
   */
  function Outputs(dm: Option<real>, db: Option<real>, qs: Option<real>, qb: Option<real>,
                   table: seq<Row>): (r: Outcome<BranchMain>)
    ensures r == AllNone <==> AnyNone([dm, db, qs, qb])
    ensures !AnyNone([dm, db, qs, qb]) ==> r == Compute(dm.value, db.value, qs.value, qb.value, table)
  {
    if AnyNone([dm, db, qs, qb]) then AllNone
    else Compute(dm.value, db.value, qs.value, qb.value, table)
  }

  /**
   * The routine once every input is present; it has no exception handler.
   * Branch C is the C at the ceiling of Qb/Qc times the C at the floor of
   * Ab/Ac; main C is the C at the ceiling of Qb/Qc among the main rows,
   * and the main loss uses the source velocity pressure.
   */
  function Compute(dm: real, db: real, qs: real, qb: real, table: seq<Row>): (r: Outcome<BranchMain>)
    ensures r.Done? || r == Failed(Uncaught)
    ensures r == Failed(Uncaught) <==> Fails(dm, db, qs, qb, table)
    ensures r.Done? ==>
      !Fails(dm, db, qs, qb, table) &&
      var branch, main := PathRows(table, "branch"), PathRows(table, "main");
      BranchMainConsistent(r.out, OnSource) &&
      r.out.branch.velocity == Velocity(qb, CircleArea(db)) &&
      r.out.sourceVelocity == Velocity(qs, CircleArea(dm)) &&
      r.out.convergedVelocity == Velocity(qs + qb, CircleArea(dm)) &&
      r.out.branch.coefficient == BranchCoefficient(BranchQ(branch), BranchA(branch), qb / (qs + qb), AreaRatio(db, dm)) &&
      r.out.mainCoefficient == CeilC(MainQ(main), qb / (qs + qb))
  {
    if Fails(dm, db, qs, qb, table) then
      // a ValueError for a missing path, ZeroDivisionError, or `iloc` on an empty projection
      Failed(Uncaught)
    else
      var branch, main := PathRows(table, "branch"), PathRows(table, "main");
      Done(BranchMainOf(Velocity(qb, CircleArea(db)),
                        BranchCoefficient(BranchQ(branch), BranchA(branch), qb / (qs + qb), AreaRatio(db, dm)),
                        Velocity(qs, CircleArea(dm)), Velocity(qs + qb, CircleArea(dm)),
                        CeilC(MainQ(main), qb / (qs + qb)), OnSource))
  }
}
