/** A result fetched rowset by rowset with SQL_FETCH_NEXT, and the return code of a rowset. */
module Rowsets {
  import opened Basics
  import opened Odbc

  function Sum(sizes: seq<nat>): nat {
    if sizes == [] then 0 else Sum(sizes[..|sizes| - 1]) + sizes[|sizes| - 1]
  }

  /** The rowset of `size` rows behind the first a rows, as far as there are any. */
  function RowsetAt<Row>(rows: seq<Row>, a: nat, size: nat): seq<Row> {
    rows[Min(a, |rows|)..Min(a + size, |rows|)]
  }

  lemma {:induction false} SumGrows(sizes: seq<nat>, k: nat)
    requires k < |sizes|
    ensures Sum(sizes[..k + 1]) == Sum(sizes[..k]) + sizes[k] <= Sum(sizes)
    decreases |sizes| - k
  {
    assert sizes[..k + 1][..k] == sizes[..k];
    if k + 1 == |sizes| {
      assert sizes[..k + 1] == sizes;
    } else {
      SumGrows(sizes, k + 1);
    }
  }

  /** Every rowset follows the one before. */
  ghost predicate InOrder<Row>(rows: seq<Row>, sizes: seq<nat>, rowsets: seq<seq<Row>>) {
    && |rowsets| <= |sizes|
    && forall k :: 0 <= k < |rowsets| ==> rowsets[k] == RowsetAt(rows, Sum(sizes[..k]), sizes[k])
  }

  /** What the fetches of the first rowsets return. */
  ghost predicate Fetched<Row>(rows: seq<Row>, sizes: seq<nat>, rowsets: seq<seq<Row>>, rcs: seq<SqlReturn>) {
    && |rowsets| == |rcs| && InOrder(rows, sizes, rowsets)
    && (forall k :: 0 <= k < |rowsets| ==> rcs[k] == if Sum(sizes[..k]) < |rows| then SqlSuccess else SqlNoData)
  }

  lemma FetchedGrows<Row>(rows: seq<Row>, sizes: seq<nat>, rowsets: seq<seq<Row>>, rcs: seq<SqlReturn>, a: nat,
                          rowset: seq<Row>, rc: SqlReturn)
    requires Fetched(rows, sizes, rowsets, rcs) && |rowsets| < |sizes| && a == Sum(sizes[..|rowsets|])
    requires rowset == RowsetAt(rows, a, sizes[|rowsets|]) && rc == if a < |rows| then SqlSuccess else SqlNoData
    ensures Fetched(rows, sizes, rowsets + [rowset], rcs + [rc])
  {
    hide RowsetAt, Sum;
  }

  lemma RowsetFollows<Row>(rows: seq<Row>, a: nat, size: nat)
    ensures rows[..Min(a, |rows|)] + RowsetAt(rows, a, size) == rows[..Min(a + size, |rows|)]
  {
  }

  /** Rowset upon rowset, the rows come in order and once each. */
  lemma {:induction false} RowsInOrder<Row>(rows: seq<Row>, sizes: seq<nat>, rowsets: seq<seq<Row>>)
    requires InOrder(rows, sizes, rowsets)
    ensures Flatten(rowsets) == rows[..Min(Sum(sizes[..|rowsets|]), |rows|)]
  {
    hide RowsetAt, Sum;
    SumOfNone();
    if rowsets != [] {
      var k := |rowsets| - 1;
      RowsInOrder(rows, sizes, rowsets[..k]);
      SumGrows(sizes, k);
      RowsetFollows(rows, Sum(sizes[..k]), sizes[k]);
    } else {
      assert sizes[..0] == [];
    }
  }

  lemma FetchedRows<Row>(rows: seq<Row>, sizes: seq<nat>, rowsets: seq<seq<Row>>, rcs: seq<SqlReturn>)
    requires Fetched(rows, sizes, rowsets, rcs)
    ensures Flatten(rowsets) == rows[..Min(Sum(sizes[..|rowsets|]), |rows|)]
  {
    RowsInOrder(rows, sizes, rowsets);
  }

  lemma SumOfNone()
    ensures Sum([]) == 0
  {
  }

  lemma NothingFetched<Row>(rows: seq<Row>, sizes: seq<nat>, rowsets: seq<seq<Row>>, rcs: seq<SqlReturn>)
    requires rowsets == [] && rcs == []
    ensures Fetched(rows, sizes, rowsets, rcs)
  {
  }

  lemma RowsetIs<Row>(rows: seq<Row>, a: nat, size: nat, rowset: seq<Row>)
    requires var d := Min(a, |rows|);
      |rowset| == Min(size, |rows| - d) && rowset == rows[d..d + |rowset|]
    requires size > 0
    ensures rowset == RowsetAt(rows, a, size)
    ensures rowset == [] <==> a >= |rows|
    ensures Min(a, |rows|) + |rowset| == Min(a + size, |rows|)
  {
  }

  // ---- the return code ----

  predicate RowOutcome(rc: SqlReturn) {
    rc == SqlSuccess || rc == SqlSuccessWithInfo || rc == SqlError
  }

  predicate RowOutcomes(fill: seq<SqlReturn>) {
    forall k :: 0 <= k < |fill| ==> RowOutcome(fill[k])
  }

  /** The return code of a rowset whose rows came out as `fill`. The comment in the source says
      SQL_ERROR if all rows fail; it is returned for a single row only. */
  function Verdict(fill: seq<SqlReturn>): (rc: SqlReturn)
    ensures RowOutcome(rc) && (rc == SqlError ==> |fill| == 1)
  {
    if forall k :: 0 <= k < |fill| ==> fill[k] == SqlSuccess then SqlSuccess
    else if |fill| == 1 && fill[0] == SqlError then SqlError
    else SqlSuccessWithInfo
  }

  lemma VerdictOfNone(fill: seq<SqlReturn>)
    ensures Verdict(fill[..0]) == SqlSuccess
  {
  }

  /** One more row: only the first may turn the outcome to SQL_ERROR, and a second one turns it back. */
  lemma VerdictGrows(fill: seq<SqlReturn>, i: nat)
    requires i < |fill| && RowOutcomes(fill)
    ensures Verdict(fill[..0]) == SqlSuccess
    ensures Verdict(fill[..i + 1])
         == if Verdict(fill[..i]) == fill[i] == SqlSuccess then SqlSuccess
            else if fill[i] == SqlSuccess || fill[i] == SqlSuccessWithInfo then SqlSuccessWithInfo
            else if i == 0 then SqlError else SqlSuccessWithInfo
  {
    var a, b := fill[..i], fill[..i + 1];
    assert b == a + [fill[i]];
    assert b[i] == fill[i] && forall k :: 0 <= k < i ==> b[k] == a[k];
  }
}
