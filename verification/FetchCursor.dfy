/** The block cursor of my_SQLExtendedFetch over a stored result: where a fetch puts the rowset, which
    rows it returns, and the position kept for the next one (driver/results.c). */
module FetchCursor {
  import opened Basics
  import opened Odbc
  import opened Rowsets

  datatype FetchType = Next | Prior | First | Last | Absolute | Relative

  /** A fetch of `size` rows; the row number counts for Absolute and Relative only. */
  datatype Request = Request(fetch: FetchType, irow: int, size: nat)

  /** What is known between two fetches: the first row of the rowset (-1 before the first row of the
      result) and how many rows it has. */
  datatype Place = Place(current: int, found: nat)

  datatype RowStatus = RowSuccess | RowSuccessWithInfo | RowError | NoRow

  const LONG_LIMIT := 0x8000_0000_0000_0000

  /** Row numbers are of type long; a request whose sums leave it has no defined result. */
  predicate FitsLong(r: Request, n: nat) {
    n + Abs(r.irow) + r.size < LONG_LIMIT
  }

  /** The row a request asks for, counted from 0, for a result of n rows. */
  function Target(r: Request, p: Place, n: nat): int {
    match r.fetch
    case Next => if p.current < 0 then 0 else p.current + p.found
    case Prior => if p.current <= 0 then -1 else p.current - r.size
    case First => 0
    case Last => n - r.size
    case Absolute =>
      if r.irow >= 0 then r.irow - 1
      else if n + r.irow < 0 && -r.irow <= r.size then 0
      else n + r.irow
    case Relative =>
      if p.current > 0 && p.current + r.irow < 0 && -r.irow <= r.size then 0 else p.current + r.irow
  }

  /** The rowset a request moves to: none before the first row, an empty one behind the last. */
  function After(r: Request, p: Place, n: nat): (q: Place)
    ensures -1 <= q.current <= n && q.current + q.found <= n
  {
    var t := Target(r, p, n);
    if t < 0 then Place(-1, 0)
    else if t >= n then Place(n, 0)
    else Place(t, Min(n - t, r.size))
  }

  function PlaceAfter(requests: seq<Request>, n: nat): (p: Place)
    ensures -1 <= p.current <= n && p.current + p.found <= n
  {
    if requests == [] then Place(0, 0)
    else After(requests[|requests| - 1], PlaceAfter(requests[..|requests| - 1], n), n)
  }

  /** The rows of a rowset. */
  function RowsOf<Row>(rows: seq<Row>, p: Place): seq<Row>
    requires -1 <= p.current && p.current + p.found <= |rows|
  {
    if p.current < 0 then [] else rows[p.current..p.current + p.found]
  }

  // ---- what the moves mean ----

  /** As places come out of fetches with a rowset of `size` rows: short only at the end of the result. */
  predicate Settled(p: Place, size: nat, n: nat) {
    && -1 <= p.current <= n && p.found <= size
    && (if p.current < 0 then p.found == 0 else p.found == Min(n - p.current, size) || (p == Place(0, 0)))
  }

  /** SQL_FETCH_PRIOR returns to the rowset SQL_FETCH_NEXT left if and only if that was a full one. */
  lemma PriorUndoesNext(p: Place, size: nat, n: nat)
    requires size > 0 && p.found > 0 && Settled(p, size, n)
    ensures var next := After(Request(Next, 0, size), p, n);
      After(Request(Prior, 0, size), next, n) == p <==> p.found == size
  {
  }

  /** The fetch types against each other: row 1 is the first, the last rows count from the end, NEXT from
      before the first row is FIRST, NEXT from a rowset and PRIOR are relative moves (PRIOR only where a whole
      rowset precedes, or none), and relative moves add up. SQL_FETCH_LAST reaches the last rows if and only if a
      whole rowset is there; otherwise it moves before the first row, as SQL_FETCH_PRIOR does when less than a
      rowset precedes. */
  lemma FetchTypesAgree(p: Place, size: nat, n: nat, a: int, b: int)
    requires size > 0 && -1 <= p.current <= n
    ensures After(Request(Absolute, 1, size), p, n) == After(Request(First, 0, size), p, n)
    ensures size <= n ==> After(Request(Absolute, 0 - size, size), p, n) == After(Request(Last, 0, size), p, n)
    ensures n > 0 ==>
      (After(Request(Last, 0, size), p, n) == Place(n - Min(n, size), Min(n, size)) <==> size <= n)
    ensures size > n ==> After(Request(Last, 0, size), p, n) == Place(-1, 0)
    ensures 0 <= p.current < size ==> After(Request(Prior, 0, size), p, n) == Place(-1, 0)
    ensures p.current < 0 ==>
      After(Request(Next, 0, size), p, n) == After(Request(First, 0, size), p, n) == Place(0, Min(n, size))
    ensures p.current >= 0 ==> After(Request(Relative, p.found, size), p, n) == After(Request(Next, 0, size), p, n)
    ensures n > 0 ==>
      (After(Request(Relative, 0 - size, size), p, n) == After(Request(Prior, 0, size), p, n)
       <==> !(0 < p.current < size))
    ensures p.current >= 0 && 0 <= p.current + a < n && 0 <= p.current + a + b ==>
      After(Request(Relative, b, size), After(Request(Relative, a, size), p, n), n)
      == After(Request(Relative, a + b, size), p, n)
  {
  }

  /** SQL_FETCH_ABSOLUTE finds row number r from 1 on, or r-th from the end; before the first row there
      is nothing unless the rowset would reach it. */
  lemma AbsoluteFinds<Row>(rows: seq<Row>, p: Place, r: int, size: nat)
    requires size > 0
    ensures var got := RowsOf(rows, After(Request(Absolute, r, size), p, |rows|));
      && (0 < r <= |rows| ==> got != [] && got[0] == rows[r - 1])
      && (r < 0 <= |rows| + r ==> got != [] && got[0] == rows[|rows| + r])
      && (r < 0 && |rows| + r < 0 ==> got == if -r <= size then rows else [])
      && (r == 0 || r > |rows| ==> got == [])
      && (got != [] ==> |got| == size || got[|got| - 1] == rows[|rows| - 1])
  {
  }

  /** SQL_FETCH_NEXT finds the first rows from before the first row, else those behind the rowset p. */
  lemma NextFinds<Row>(rows: seq<Row>, p: Place, a: int, size: nat)
    requires size > 0 && -1 <= p.current && p.current + p.found <= |rows|
    ensures var got, e := RowsOf(rows, After(Request(Next, a, size), p, |rows|)), p.current + p.found;
      got == if p.current < 0 then rows[..Min(size, |rows|)] else rows[e..Min(e + size, |rows|)]
  {
    var q := After(Request(Next, a, size), p, |rows|);
    assert q.current == if p.current < 0 then 0 else p.current + p.found;
    assert q.found == Min(|rows| - q.current, size);
  }

  /** SQL_FETCH_PRIOR finds the rows in front of the rowset p if there are `size` of them, else nothing. */
  lemma PriorFinds<Row>(rows: seq<Row>, p: Place, a: int, size: nat)
    requires size > 0 && -1 <= p.current <= |rows|
    ensures RowsOf(rows, After(Request(Prior, a, size), p, |rows|))
         == if p.current >= size then rows[p.current - size..p.current] else []
  {
    var q := After(Request(Prior, a, size), p, |rows|);
    assert q == if p.current >= size then Place(p.current - size, size) else Place(-1, 0);
  }

  /** SQL_FETCH_FIRST and SQL_FETCH_LAST find the first and the last rows, from anywhere; the last only if there
      are `size` of them. */
  lemma EndsFind<Row>(rows: seq<Row>, p: Place, a: int, size: nat)
    requires size > 0
    ensures RowsOf(rows, After(Request(First, a, size), p, |rows|)) == rows[..Min(size, |rows|)]
    ensures RowsOf(rows, After(Request(Last, a, size), p, |rows|))
         == if size <= |rows| then rows[|rows| - size..] else []
  {
    assert After(Request(First, a, size), p, |rows|) == Place(0, Min(|rows|, size));
    var q := After(Request(Last, a, size), p, |rows|);
    assert q == if size <= |rows| then Place(|rows| - size, size) else Place(-1, 0);
  }

  /** SQL_FETCH_RELATIVE finds the rows from `a` rows on; before the first row nothing, unless it comes from a later
      row and the rowset would reach the first. */
  lemma RelativeFinds<Row>(rows: seq<Row>, p: Place, a: int, size: nat)
    requires size > 0
    ensures var got, o := RowsOf(rows, After(Request(Relative, a, size), p, |rows|)), p.current + a;
      got == if 0 <= o < |rows| then rows[o..Min(o + size, |rows|)]
        else if o < 0 < p.current && 0 - a <= size then rows[..Min(size, |rows|)]
        else []
  {
    var q, o := After(Request(Relative, a, size), p, |rows|), p.current + a;
    if 0 <= o < |rows| {
      assert q == Place(o, Min(|rows| - o, size));
    } else if o < 0 < p.current && 0 - a <= size {
      assert q == Place(0, Min(|rows|, size));
    }
  }

  function NextRequests(sizes: seq<nat>): seq<Request> {
    seq(|sizes|, k requires 0 <= k < |sizes| => Request(Next, 0, sizes[k]))
  }

  // ---- the row statuses ----

  function StatusOf(rc: SqlReturn): RowStatus {
    if rc == SqlSuccess then RowSuccess else if rc == SqlSuccessWithInfo then RowSuccessWithInfo else RowError
  }

  /** The status a row's outcome calls for. */
  predicate StatusIs(status: RowStatus, rc: SqlReturn) {
    && (status == RowSuccess <==> rc == SqlSuccess)
    && (status == RowSuccessWithInfo <==> rc == SqlSuccessWithInfo)
    && (rc == SqlError ==> status == RowError)
  }

  /** The status array after a rowset of `size` rows of which only those with an outcome were found. */
  predicate StatusesAre(statuses: seq<RowStatus>, fill: seq<SqlReturn>, size: nat)
    requires |fill| <= size <= |statuses|
  {
    && (forall k :: 0 <= k < |fill| ==> StatusIs(statuses[k], fill[k]))
    && (forall k :: |fill| <= k < size ==> statuses[k] == NoRow)
  }

  // ---- the cursor ----

  /** A statement with a stored result. Row pointers are row numbers, and NULL is |rows|. */
  class BlockCursor<Row> {
    const rows: seq<Row>
    const resultArray: bool     // the rows are an array in memory and need no seek
    const forwardOnly: bool
    const safe: bool
    var pos: nat
    var endOfSet: nat
    var currentRow: int
    var rowsFound: nat

    predicate Valid()
      reads this
    {
      && pos <= |rows| && endOfSet <= |rows|
      && -1 <= currentRow <= |rows| && currentRow + rowsFound <= |rows|
    }

    function At(): Place
      reads this
    {
      Place(currentRow, rowsFound)
    }

    /** The kept pointer is where the rowset ends. */
    predicate Synced()
      reads this
    {
      !resultArray ==>
        (if rowsFound > 0 then endOfSet == currentRow + rowsFound else currentRow in {-1, 0, |rows|})
    }

    predicate Refuses(r: Request) {
      forwardOnly && r.fetch != Next && !safe
    }

    /** The kept pointer is taken instead of counting rows from the start. */
    predicate TakesKept(r: Request)
      reads this
    {
      var t := Target(r, At(), |rows|);
      var start := if t > |rows| then |rows| else t;
      !resultArray && start > 0 && start == currentRow + rowsFound
    }

    /** Where reading begins. */
    function ReadsFrom(r: Request): nat
      requires After(r, At(), |rows|).current >= 0
      reads this
    {
      if TakesKept(r) then endOfSet else After(r, At(), |rows|).current
    }

    constructor (rows: seq<Row>, resultArray: bool, forwardOnly: bool, safe: bool)
      ensures this.rows == rows && this.resultArray == resultArray
      ensures this.forwardOnly == forwardOnly && this.safe == safe
      ensures Valid() && Synced() && At() == Place(0, 0) && endOfSet == |rows|
    {
      this.rows, this.resultArray, this.forwardOnly, this.safe := rows, resultArray, forwardOnly, safe;
      pos, endOfSet, currentRow, rowsFound := 0, |rows|, 0, 0;
    }

    /** my_SQLExtendedFetch, where filling the buffers of row i of the rowset comes out as fill[i]. */
    method Fetch(r: Request, fill: seq<SqlReturn>, statuses: array<RowStatus>) returns (rc: SqlReturn, got: seq<Row>)
      requires Valid() && FitsLong(r, |rows|) && 0 < r.size == |fill| <= statuses.Length && RowOutcomes(fill)
      modifies this, statuses
      ensures Valid()
      ensures forwardOnly && r.fetch != Next && !safe ==>
        rc == SqlError && got == [] && unchanged(this) && unchanged(statuses)
      ensures !(forwardOnly && r.fetch != Next && !safe) ==>
        var p := old(After(r, At(), |rows|));
        && currentRow == p.current && rowsFound == |got| <= |fill|
        && (if p.current < 0 then got == [] && endOfSet == old(endOfSet) else
             && var from := old(ReadsFrom(r)); var k := Min(p.found, |rows| - from);
             && from <= |rows| && got == rows[from..from + k]
             && endOfSet == if p.found == 0 || rc == SqlError || resultArray then old(endOfSet) else from + k)
        && rc == (if got == [] then SqlNoData else Verdict(fill[..|got|]))
        && (if p.found == 0 then unchanged(statuses) else StatusesAre(statuses[..], fill[..|got|], r.size))
    {
      hide Target, Verdict, StatusesAre, FitsLong;
      if forwardOnly && r.fetch != Next && !safe {
        return SqlError, [];
      }
      got := [];
      Position(r);
      if currentRow < 0 {
        return SqlNoData, got;
      }
      var rowsToFetch := Min(|rows| - currentRow, r.size);
      if rowsToFetch == 0 {
        rowsFound := 0;
        return SqlNoData, got;
      }
      rc, got := FillRowset(rowsToFetch, r.size, fill, statuses);
    }

    /** The first row of the rowset, and the seek to it. */
    method Position(r: Request)
      requires Valid()
      modifies this`pos, this`currentRow, this`rowsFound
      ensures currentRow == old(After(r, At(), |rows|)).current && pos <= |rows|
      ensures rowsFound == if currentRow < 0 then 0 else old(rowsFound)
      ensures currentRow >= 0 && !resultArray ==> pos == old(ReadsFrom(r))
    {
      hide Target;
      var maxRow := |rows|;
      var curRow := Target(r, At(), maxRow);
      if curRow < 0 {
        currentRow, rowsFound, pos := -1, 0, 0;
        return;
      }
      if curRow > maxRow {
        curRow := maxRow;
      }
      if !resultArray {
        pos := if curRow != 0 && curRow == currentRow + rowsFound then endOfSet else curRow;
      }
      currentRow := curRow;
    }

    /** The rowset from the cursor on: its rows, its size, and the status of every row asked for. */
    method FillRowset(rowsToFetch: nat, size: nat, fill: seq<SqlReturn>, statuses: array<RowStatus>)
      returns (rc: SqlReturn, got: seq<Row>)
      requires pos <= |rows| && 0 <= currentRow && currentRow + rowsToFetch <= |rows|
      requires rowsToFetch <= size == |fill| <= statuses.Length && RowOutcomes(fill)
      modifies this`pos, this`endOfSet, this`rowsFound, statuses
      ensures pos <= |rows| && rowsFound == |got|
      ensures var from := if resultArray then currentRow else old(pos); var k := Min(rowsToFetch, |rows| - from);
        && got == rows[from..from + k]
        && endOfSet == if rc == SqlError || resultArray then old(endOfSet) else from + k
      ensures size > 0 ==> rc == if got == [] then SqlNoData else Verdict(fill[..|got|])
      ensures StatusesAre(statuses[..], fill[..|got|], size)
    {
      hide Verdict, StatusIs;
      VerdictOfNone(fill);
      rc, got := ReadRows(rowsToFetch, fill, statuses);
      rowsFound := |got|;
      MarkMissing(|got|, size, statuses);
      if Succeeded(rc) && rowsFound < size && rowsFound == 0 {
        rc := SqlNoData;
      }
    }

    /** The rows of the rowset that were not found are marked so. */
    method MarkMissing(from: nat, size: nat, statuses: array<RowStatus>)
      requires from <= size <= statuses.Length
      modifies statuses
      ensures statuses[..from] == old(statuses[..from])
      ensures forall k :: from <= k < size ==> statuses[k] == NoRow
    {
      var i := from;
      while i < size
        invariant from <= i <= size
        invariant statuses[..from] == old(statuses[..from])
        invariant forall k :: from <= k < i ==> statuses[k] == NoRow
      {
        statuses[i] := NoRow;
        i := i + 1;
      }
    }

    /** The fetch loop, from the cursor on, and the end of the rowset kept unless it is an error. */
    method ReadRows(rowsToFetch: nat, fill: seq<SqlReturn>, statuses: array<RowStatus>)
      returns (res: SqlReturn, got: seq<Row>)
      requires pos <= |rows| && 0 <= currentRow && currentRow + rowsToFetch <= |rows|
      requires rowsToFetch <= |fill| <= statuses.Length && RowOutcomes(fill)
      modifies this`pos, this`endOfSet, statuses
      ensures pos <= |rows|
      ensures var from := if resultArray then currentRow else old(pos); var k := Min(rowsToFetch, |rows| - from);
        && got == rows[from..from + k]
        && endOfSet == if res == SqlError || resultArray then old(endOfSet) else from + k
      ensures res == Verdict(fill[..|got|])
      ensures StatusesAre(statuses[..|got|], fill[..|got|], |got|)
    {
      var curRow, i, savePosition := currentRow, 0, pos;
      res, got := SqlSuccess, [];
      ghost var from := if resultArray then currentRow else pos;
      while i < rowsToFetch && (resultArray || pos < |rows|)
        invariant 0 <= i <= rowsToFetch && curRow == currentRow + i
        invariant from + i <= |rows| && got == rows[from..from + i]
        invariant if resultArray then pos == old(pos) else pos == from + i
        invariant res == Verdict(fill[..i])
        invariant endOfSet == old(endOfSet)
        invariant forall k :: 0 <= k < i ==> StatusIs(statuses[k], fill[k])
      {
        var values;
        if resultArray {
          values := rows[curRow];
        } else {
          values := rows[pos];
          pos := pos + 1;
        }
        got := got + [values];
        var rowRes := fill[i];
        VerdictGrows(fill, i);
        if res != rowRes || res != SqlSuccess {
          res := if Succeeded(rowRes) then SqlSuccessWithInfo else if i == 0 then SqlError else SqlSuccessWithInfo;
        }
        statuses[i] := StatusOf(rowRes);
        curRow, i := curRow + 1, i + 1;
      }
      if Succeeded(res) && !resultArray {
        endOfSet, pos := pos, savePosition;
      }
    }

    /** On a cursor in step the kept pointer leads to the very rows counting would have found, and it
        stays in step unless the fetch returns SQL_ERROR; after that it is in step only by chance. */
    method FetchInStep(r: Request, fill: seq<SqlReturn>, statuses: array<RowStatus>)
      returns (rc: SqlReturn, got: seq<Row>)
      requires Valid() && Synced() && !Refuses(r)
      requires FitsLong(r, |rows|) && 0 < r.size == |fill| <= statuses.Length && RowOutcomes(fill)
      modifies this, statuses
      ensures Valid() && At() == old(After(r, At(), |rows|)) && got == RowsOf(rows, At())
      ensures rc == if got == [] then SqlNoData else Verdict(fill[..|got|])
      ensures rc != SqlError ==> Synced()
      ensures |got| <= |fill|
      ensures rc == SqlError && !resultArray ==> (Synced() <==> old(endOfSet) == currentRow + 1)
    {
      rc, got := Fetch(r, fill, statuses);
    }
  }

  /** What fetch k of a run is to return: the rowset where its request puts it. */
  ghost predicate FetchIs<Row>(rows: seq<Row>, requests: seq<Request>, fill: seq<SqlReturn>, k: nat,
                               got: seq<Row>, rc: SqlReturn)
    requires k < |requests|
  {
    && got == RowsOf(rows, PlaceAfter(requests[..k + 1], |rows|)) && |got| <= |fill|
    && rc == if got == [] then SqlNoData else Verdict(fill[..|got|])
  }

  ghost predicate Fetches<Row>(rows: seq<Row>, requests: seq<Request>, fills: seq<seq<SqlReturn>>,
                               got: seq<seq<Row>>, rcs: seq<SqlReturn>)
  {
    && |got| == |rcs| <= |requests| == |fills|
    && (forall k :: 0 <= k < |got| ==> FetchIs(rows, requests, fills[k], k, got[k], rcs[k]))
  }

  predicate GoodRequests(requests: seq<Request>, fills: seq<seq<SqlReturn>>, n: nat, most: nat) {
    && |requests| == |fills|
    && (forall k :: 0 <= k < |requests| ==>
          && FitsLong(requests[k], n) && 0 < requests[k].size == |fills[k]| <= most && RowOutcomes(fills[k]))
  }

  lemma FetchesGrow<Row>(rows: seq<Row>, requests: seq<Request>, fills: seq<seq<SqlReturn>>, got: seq<seq<Row>>,
                         rcs: seq<SqlReturn>, rowset: seq<Row>, rc: SqlReturn)
    requires Fetches(rows, requests, fills, got, rcs) && |got| < |requests|
    requires FetchIs(rows, requests, fills[|got|], |got|, rowset, rc)
    ensures Fetches(rows, requests, fills, got + [rowset], rcs + [rc])
  {
    hide FetchIs;
  }

  lemma NothingFetchedYet<Row>(rows: seq<Row>, requests: seq<Request>, fills: seq<seq<SqlReturn>>)
    requires |requests| == |fills|
    ensures Fetches(rows, requests, fills, [], [])
    ensures PlaceAfter(requests[..0], |rows|) == Place(0, 0)
  {
  }

  lemma PlaceStep(requests: seq<Request>, k: nat, n: nat)
    requires k < |requests|
    ensures PlaceAfter([], n) == Place(0, 0)
    ensures PlaceAfter(requests[..k + 1], n) == After(requests[k], PlaceAfter(requests[..k], n), n)
  {
    hide After;
    assert requests[..k + 1][..k] == requests[..k];
  }

  lemma {:induction false} NextPlace(sizes: seq<nat>, n: nat)
    requires forall k :: 0 <= k < |sizes| ==> sizes[k] > 0
    ensures var p := PlaceAfter(NextRequests(sizes), n);
      && p.current >= 0 && p.current + p.found == Min(Sum(sizes), n)
      && (sizes != [] ==> p.current == Min(Sum(sizes[..|sizes| - 1]), n))
  {
    if sizes != [] {
      var k := |sizes| - 1;
      assert NextRequests(sizes)[..k] == NextRequests(sizes[..k]);
      NextPlace(sizes[..k], n);
    }
  }

  lemma RowsOfNext<Row>(rows: seq<Row>, p: Place, a: nat, size: nat)
    requires p.current == Min(a, |rows|) && p.current + p.found == Min(a + size, |rows|) && size > 0
    ensures RowsOf(rows, p) == RowsetAt(rows, a, size)
    ensures RowsOf(rows, p) == [] <==> a >= |rows|
  {
  }

  lemma NextFetch<Row>(rows: seq<Row>, sizes: seq<nat>, fill: seq<SqlReturn>, k: nat, got: seq<Row>, rc: SqlReturn)
    requires k < |sizes| && forall j :: 0 <= j < |sizes| ==> sizes[j] > 0
    requires FetchIs(rows, NextRequests(sizes), fill, k, got, rc)
    ensures got == RowsetAt(rows, Sum(sizes[..k]), sizes[k])
    ensures rc == SqlNoData <==> Sum(sizes[..k]) >= |rows|
  {
    hide PlaceAfter, RowsetAt, RowsOf, Sum;
    NextPlace(sizes[..k + 1], |rows|);
    assert NextRequests(sizes)[..k + 1] == NextRequests(sizes[..k + 1]);
    assert sizes[..k + 1][..k] == sizes[..k];
    SumGrows(sizes, k);
    RowsOfNext(rows, PlaceAfter(NextRequests(sizes[..k + 1]), |rows|), Sum(sizes[..k]), sizes[k]);
  }

  /** With SQL_FETCH_NEXT alone the rowsets, end to end, are the result from its first row on; beyond
      the last row there is no data. */
  lemma NextDrains<Row>(rows: seq<Row>, sizes: seq<nat>, fills: seq<seq<SqlReturn>>, got: seq<seq<Row>>,
                        rcs: seq<SqlReturn>)
    requires forall k :: 0 <= k < |sizes| ==> sizes[k] > 0
    requires Fetches(rows, NextRequests(sizes), fills, got, rcs)
    ensures Flatten(got) == rows[..Min(Sum(sizes[..|got|]), |rows|)]
    ensures forall k :: 0 <= k < |got| ==> (rcs[k] == SqlNoData <==> Sum(sizes[..k]) >= |rows|)
  {
    hide FetchIs, RowsetAt, Sum, Flatten;
    forall k | 0 <= k < |got|
      ensures got[k] == RowsetAt(rows, Sum(sizes[..k]), sizes[k])
      ensures rcs[k] == SqlNoData <==> Sum(sizes[..k]) >= |rows|
    {
      NextFetch(rows, sizes, fills[k], k, got[k], rcs[k]);
    }
    RowsInOrder(rows, sizes, got);
  }

  /** After any fetch that went before the first row, SQL_FETCH_NEXT returns the rowset that begins with it. */
  lemma NextAfterBeforeFirst<Row>(rows: seq<Row>, requests: seq<Request>, fills: seq<seq<SqlReturn>>,
                                  got: seq<seq<Row>>, rcs: seq<SqlReturn>, k: nat)
    requires Fetches(rows, requests, fills, got, rcs) && 0 < k < |got| && requests[k].size > 0
    requires PlaceAfter(requests[..k], |rows|).current < 0 && requests[k].fetch == Next
    ensures got[k] == rows[..Min(requests[k].size, |rows|)]
    ensures got[k - 1] == [] && rcs[k - 1] == SqlNoData
  {
    hide FetchIs, PlaceAfter;
    FetchedBefore(rows, requests, fills[k - 1], k - 1, got[k - 1], rcs[k - 1]);
    FetchedNext(rows, requests, fills[k], k, got[k], rcs[k]);
  }

  lemma FetchedBefore<Row>(rows: seq<Row>, requests: seq<Request>, fill: seq<SqlReturn>, k: nat, got: seq<Row>,
                           rc: SqlReturn)
    requires k < |requests| && FetchIs(rows, requests, fill, k, got, rc)
    requires PlaceAfter(requests[..k + 1], |rows|).current < 0
    ensures got == [] && rc == SqlNoData
  {
    hide PlaceAfter, Verdict;
  }

  lemma FetchedNext<Row>(rows: seq<Row>, requests: seq<Request>, fill: seq<SqlReturn>, k: nat, got: seq<Row>,
                         rc: SqlReturn)
    requires k < |requests| && FetchIs(rows, requests, fill, k, got, rc)
    requires requests[k].fetch == Next && requests[k].size > 0 && PlaceAfter(requests[..k], |rows|).current < 0
    ensures got == rows[..Min(requests[k].size, |rows|)]
  {
    hide PlaceAfter, Verdict, After, RowsOf;
    PlaceStep(requests, k, |rows|);
    NextFinds(rows, PlaceAfter(requests[..k], |rows|), requests[k].irow, requests[k].size);
    assert requests[k] == Request(Next, requests[k].irow, requests[k].size);
  }

  /** Any run of fetches, until one of them returns SQL_ERROR: with the kept pointer every rowset is what
      counting rows from the start would give. */
  method Run<Row>(rows: seq<Row>, resultArray: bool, requests: seq<Request>, fills: seq<seq<SqlReturn>>,
                  statuses: array<RowStatus>)
    returns (got: seq<seq<Row>>, rcs: seq<SqlReturn>)
    requires GoodRequests(requests, fills, |rows|, statuses.Length)
    modifies statuses
    ensures Fetches(rows, requests, fills, got, rcs)
    ensures |got| == |requests| || (got != [] && rcs[|rcs| - 1] == SqlError)
  {
    hide Target, After, Verdict, FitsLong, RowsOf, PlaceAfter, Fetches, BlockCursor.Synced, BlockCursor.Valid;
    got, rcs := [], [];
    NothingFetchedYet(rows, requests, fills);
    var cursor := new BlockCursor<Row>(rows, resultArray, false, false);
    while |got| < |requests|
      invariant cursor.Valid() && cursor.Synced() && fresh(cursor) && cursor.rows == rows && !cursor.forwardOnly
      invariant |got| <= |requests| && Fetches(rows, requests, fills, got, rcs)
      invariant cursor.At() == PlaceAfter(requests[..|got|], |rows|)
    {
      var k := |got|;
      PlaceStep(requests, k, |rows|);
      var rc, rowset := cursor.FetchInStep(requests[k], fills[k], statuses);
      FetchesGrow(rows, requests, fills, got, rcs, rowset, rc);
      got, rcs := got + [rowset], rcs + [rc];
      if rc == SqlError {
        return;
      }
    }
  }

  /** How many of the fetches went well. */
  function Successes(fails: seq<bool>): (n: nat)
    ensures n <= |fails|
  {
    if fails == [] then 0 else Successes(fails[..|fails| - 1]) + if fails[|fails| - 1] then 0 else 1
  }

  lemma CountStep(fails: seq<bool>, i: nat)
    requires i < |fails|
    ensures Successes(fails[..i + 1]) == Successes(fails[..i]) + if fails[i] then 0 else 1
    ensures Successes(fails[..0]) == 0
  {
    assert fails[..i + 1][..i] == fails[..i];
  }

  /** A result read row by row where any of the fetches fail, and the reading goes on: fetch i returns, not
      row i, but the row whose number is that of the fetches before it that went well. So every failure
      repeats its row and keeps the rest back by one, and as many rows as fetches failed are never
      reached. If the very first fetch fails, nothing more is returned. */
  method ReadOnPastErrors<Row>(rows: seq<Row>, fails: seq<bool>, statuses: array<RowStatus>)
    returns (got: seq<seq<Row>>, last: SqlReturn)
    requires 0 < |rows| == |fails| < LONG_LIMIT - 1 && statuses.Length > 0
    modifies statuses
    ensures |got| == |rows| && got[0] == [rows[0]] && last == SqlNoData
    ensures forall i :: 1 <= i < |rows| ==> got[i] == if fails[0] then [] else [rows[Successes(fails[..i])]]
  {
    hide Successes, StatusesAre, BlockCursor.Synced;
    got := [];
    var cursor := new BlockCursor<Row>(rows, false, false, false);
    var next := Request(Next, 0, 1);
    for i := 0 to |rows|
      invariant fresh(cursor) && cursor.Valid() && cursor.rows == rows && !cursor.resultArray && !cursor.forwardOnly
      invariant cursor.currentRow + cursor.rowsFound <= i && (i == 0 || cursor.currentRow >= 0)
      invariant i == 0 ==> cursor.At() == Place(0, 0)
      invariant i > 0 && !fails[0] ==> cursor.At() == Place(i - 1, 1) && cursor.endOfSet == Successes(fails[..i]) <= i
      invariant i > 0 && fails[0] ==>
        cursor.At() == (if i == 1 then Place(0, 1) else Place(1, 0)) && cursor.endOfSet == |rows|
      invariant i == 0 ==> cursor.endOfSet == |rows|
      invariant |got| == i && (i > 0 ==> got[0] == [rows[0]])
      invariant forall j :: 1 <= j < i ==> got[j] == if fails[0] then [] else [rows[Successes(fails[..j])]]
    {
      CountStep(fails, i);
      var rc, row := cursor.Fetch(next, [if fails[i] then SqlError else SqlSuccess], statuses);
      got := got + [row];
    }
    var row;
    last, row := cursor.Fetch(next, [SqlSuccess], statuses);
  }
}
