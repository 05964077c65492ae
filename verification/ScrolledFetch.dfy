/** Fetching through the scroller: rowsets are cut out of successive LIMIT windows, and together they
    are the rows of the query as the caller wrote it (driver/results.c, driver/my_stmt.c). */
module ScrolledFetch {
  import opened Basics
  import opened Odbc
  import opened IntPrinting
  import opened LimitText
  import opened Scroller
  import opened Windows
  import opened Rowsets

  /** A pointer to a row of the result stored as number `gen`, or NULL. */
  datatype RowPtr = End | At(gen: nat, idx: nat)

  /** The prefetch setting, the rowset size and max_rows are such that windows have rows: a window size
      that wraps to 0 would fetch nothing. */
  predicate ValidSettings(selected: nat, appFetchs: nat, maxRows: nat) {
    && selected < TWO_32 && appFetchs < TWO_64 && maxRows < TWO_64
    && CalcPrefetchNumber(selected, appFetchs, maxRows) > 0
  }

  class ScrolledStatement<Row> {
    const table: seq<Row>           // what the server holds for the query without LIMIT
    const answers: string -> bool   // the texts the server takes
    const scroller: Scroller
    ghost const firstRest: NonEmpty // what stands behind the count at first
    var window: seq<Row>            // the result stored for the current window
    var gen: nat
    var cursor: RowPtr
    var endOfSet: RowPtr
    var currentRow: int
    var rowsFound: nat
    var sent: seq<string>

    ghost predicate Parts()
      reads scroller, scroller.query
    {
      && scroller.Valid() && scroller.nextOffset >= scroller.startOffset + scroller.rowCount
      && (scroller.rowCount == 0 ==> scroller.totalRows == 0)
      && Takes(answers, scroller.prefix, firstRest)
    }

    ghost function Plan(): Plan {
      WindowPlan(scroller.prefix, firstRest, scroller.startOffset, scroller.totalRows, scroller.rowCount)
    }

    ghost function Upper(): nat {
      Plan().Upper(|table|, answers)
    }

    /** All rows that fetching is to return. */
    ghost function Expected(): seq<Row> {
      Plan().Served(table, answers)
    }

    /** The rows no window has been asked for yet. */
    ghost function Ahead(): seq<Row>
      reads scroller
    {
      Range(table, scroller.nextOffset, Upper())
    }

    function PtrTo(idx: nat): RowPtr
      reads this`window, this`gen
    {
      if idx < |window| then At(gen, idx) else End
    }

    // ---- the stored result ----

    /** mysql_real_query with the scrolled text, and storing the result: the server reads the window
        off the text, if it takes the text at all. */
    method Send() returns (ok: bool)
      requires scroller.Valid()
      modifies this`window, this`gen, this`cursor, this`sent
      ensures var text, p := scroller.query[..scroller.queryLen], scroller.offsetPos;
        && sent == old(sent) + [text] && ok == answers(text)
        && if ok
           then gen == old(gen) + 1 && cursor == PtrTo(0)
                && window == Range(table, WindowOffset(text, p), WindowOffset(text, p) + WindowCount(text, p))
           else gen == old(gen) && cursor == old(cursor) && window == old(window)
    {
      var text := scroller.query[..scroller.queryLen];
      sent := sent + [text];
      ok := answers(text);
      if ok {
        var offset := WindowOffset(text, scroller.offsetPos);
        window := Range(table, offset, offset + WindowCount(text, scroller.offsetPos));
        gen := gen + 1;
        cursor := if |window| > 0 then At(gen, 0) else End;
      }
    }

    /** mysql_fetch_row: follows the cursor, which must not point into a result already released. */
    method FetchRow() returns (values: Option<Row>)
      requires cursor == End || (cursor.gen == gen && cursor.idx < |window|)
      modifies this`cursor
      ensures old(cursor) == End ==> values == None && cursor == End
      ensures old(cursor) != End ==> values == Some(window[old(cursor).idx]) && cursor == PtrTo(old(cursor).idx + 1)
    {
      if cursor == End {
        return None;
      }
      values := Some(window[cursor.idx]);
      cursor := if cursor.idx + 1 < |window| then At(gen, cursor.idx + 1) else End;
    }

    /** Where the next window begins, as long as there may be one. */
    ghost predicate NextFollows()
      requires Tiled(Plan(), sent)
      reads this`sent, scroller
    {
      var last := Plan().Offset(sent[|sent| - 1]);
      && last + scroller.rowCount <= scroller.nextOffset
      && (Plan().MoreAfter(last) ==> scroller.nextOffset == last + scroller.rowCount)
    }

    // ---- between two fetches ----

    function Delivered(): int
      reads this`currentRow, this`rowsFound
    {
      currentRow + rowsFound
    }

    /** Row r of the stored window is the next to return, and behind the window come the rows ahead. */
    ghost predicate NextIs(delivered: nat, r: nat)
      requires Parts()
      reads this`window, scroller, scroller.query
    {
      && r <= |window| && delivered <= |Expected()|
      && Expected()[delivered..] == window[r..] + Ahead()
      && delivered + scroller.startOffset <= scroller.nextOffset - scroller.rowCount + r
    }

    /** Where the next fetch puts the cursor. */
    ghost function ResumeAt(): nat
      reads this
    {
      if Delivered() == 0 then 0 else if endOfSet == End then |window| else endOfSet.idx
    }

    /** The count field and the byte behind it are as they were at first. */
    ghost predicate NotCut()
      reads scroller
    {
      scroller.count == scroller.rowCount && scroller.rest == firstRest
    }

    ghost predicate Windowed()
      reads this`sent, scroller, scroller.query
    {
      && Parts() && scroller.Shows(scroller.nextOffset - scroller.rowCount)
      && Tiled(Plan(), sent) && NextFollows()
      && (Plan().MoreAfter(scroller.nextOffset - scroller.rowCount) ==> NotCut())
    }

    /** Within a fetch: the cursor is at row r, the next to return. */
    ghost predicate Reading(delivered: nat, r: nat)
      reads this, scroller, scroller.query
    {
      Windowed() && NextIs(delivered, r) && cursor == PtrTo(r)
    }

    ghost predicate Ready()
      reads this, scroller, scroller.query
    {
      && Windowed() && currentRow >= 0
      && (endOfSet == End || (Delivered() > 0 && endOfSet.gen == gen && endOfSet.idx < |window|))
      && NextIs(Delivered(), ResumeAt())
    }

    /** do_query for a scrollable statement: sizes the window, rewrites the query, and stores the result
        of the first window. */
    constructor (table: seq<Row>, answers: string -> bool, sql: string, c: LimitClause, maxRows: nat, prefetch: nat)
      requires ValidClause(c, sql) && 0 < prefetch < TWO_32 && maxRows < TWO_64 && (maxRows > 0 ==> prefetch <= maxRows)
      requires c.offset + prefetch < TWO_64
      requires var p := PlanOf(sql, c, maxRows, prefetch);
        Takes(answers, p.prefix, p.rest)
      ensures fresh(scroller) && fresh(scroller.query) && this.table == table && this.answers == answers
      ensures Ready() && Delivered() == 0 && |sent| == 1
      ensures Plan() == PlanOf(sql, c, maxRows, prefetch)
      ensures scroller.nextOffset == c.offset + scroller.rowCount
    {
      hide Layout, Pad, FirstRest, WindowOffset, WindowCount, Range, ShortRest, Takes;
      var s := new Scroller(sql, c, maxRows, prefetch);
      this.table, this.answers, scroller := table, answers, s;
      firstRest := s.rest;
      window, gen, cursor, endOfSet, currentRow, rowsFound, sent := [], 0, End, End, 0, 0, [];
      new;
      var next := scroller.Move();
      SendFirst();
      UpperBounds(Plan(), |table|, answers);
      WindowThenAhead(table, scroller.startOffset, scroller.nextOffset, scroller.nextOffset, Upper());
      assert Expected()[0..] == Expected() && window[0..] == window;
    }

    /** Sends the first window. */
    method SendFirst()
      requires Parts() && NotCut() && sent == []
      requires scroller.Shows(scroller.startOffset) && scroller.nextOffset == scroller.startOffset + scroller.rowCount
      requires scroller.startOffset < TWO_64
      modifies this`window, this`gen, this`cursor, this`sent
      ensures Tiled(Plan(), sent) && |sent| == 1 && Plan().Offset(sent[0]) == scroller.startOffset
      ensures window == Range(table, scroller.startOffset, scroller.nextOffset)
    {
      hide Layout, Pad, WindowOffset, WindowCount, Range, ShortRest;
      ShownIsSent(scroller.prefix, scroller.startOffset, scroller.count, scroller.rest, scroller.query[..]);
      var ok := Send();
      assert answers(Layout(scroller.prefix, scroller.startOffset, scroller.count, firstRest));
    }

    /** Sends the window shown, which follows the last one sent. */
    method SendWindow(ghost o: nat) returns (ok: bool)
      requires scroller.Valid() && scroller.Shows(o) && o < TWO_64 && Tiled(Plan(), sent)
      requires var last := Plan().Offset(sent[|sent| - 1]);
        Plan().MoreAfter(last) && o == last + scroller.rowCount
      requires Plan().RightCount(o, scroller.count)
      requires scroller.rest == if Plan().MoreAfter(o) then firstRest else ShortRest(firstRest)
      modifies this`window, this`gen, this`cursor, this`sent
      ensures Tiled(Plan(), sent) && Plan().Offset(sent[|sent| - 1]) == o && old(sent) <= sent
      ensures ok == answers(Plan().TextFor(o, scroller.count, false))
      ensures if ok then window == Range(table, o, o + scroller.count) && gen == old(gen) + 1 && cursor == PtrTo(0)
              else window == old(window) && gen == old(gen) && cursor == old(cursor)
    {
      hide Layout, Pad, FirstRest, WindowOffset, WindowCount, Range, Tiled, ShortRest;
      LastWindow(Plan(), sent);
      ghost var text := scroller.query[..scroller.queryLen];
      ShownIsSent(scroller.prefix, o, scroller.count, scroller.rest, scroller.query[..]);
      TiledGrows(Plan(), sent, text);
      ok := Send();
    }

    /** scroller_prefetch: sends the window the text has been turned to, unless all is fetched. If the
        server refuses it, nothing is ahead either. */
    method Prefetch() returns (rc: SqlReturn)
      requires Parts() && scroller.Shows(scroller.nextOffset - scroller.rowCount) && Tiled(Plan(), sent)
      requires scroller.nextOffset >= scroller.startOffset + 2 * scroller.rowCount && scroller.nextOffset < TWO_64
      requires var o, last := scroller.nextOffset - scroller.rowCount, Plan().Offset(sent[|sent| - 1]);
        && last + scroller.rowCount <= o && (Plan().MoreAfter(last) ==> o == last + scroller.rowCount && NotCut())
      modifies this`window, this`gen, this`cursor, this`sent, scroller`count, scroller`rest, scroller.query
      ensures Parts() && scroller.Shows(scroller.nextOffset - scroller.rowCount) && Tiled(Plan(), sent) && NextFollows()
      ensures Plan().MoreAfter(scroller.nextOffset - scroller.rowCount) ==> NotCut()
      ensures old(sent) <= sent && (rc == SqlNoData ==> sent == old(sent)) && rc in {SqlSuccess, SqlNoData, SqlError}
      ensures rc == SqlError ==> Plan().Refused(answers)
      ensures rc == SqlSuccess <==> Plan().Due(scroller.nextOffset - scroller.rowCount, answers)
      ensures var left := Range(table, scroller.nextOffset - scroller.rowCount, Upper());
        if rc != SqlSuccess
        then left == [] && Ahead() == [] && window == old(window) && gen == old(gen) && cursor == old(cursor)
        else left == window + Ahead() && gen == old(gen) + 1 && cursor == PtrTo(0) && (window == [] ==> Ahead() == [])
    {
      hide Layout, Pad, FirstRest, WindowOffset, WindowCount, Range, Tiled, ShortRest;
      ghost var o := scroller.nextOffset - scroller.rowCount;
      UpperBounds(Plan(), |table|, answers);
      EmptyRange(table, o, scroller.nextOffset, Upper());
      LastWindow(Plan(), sent);
      var more := scroller.CutLastWindow();
      if !more {
        return SqlNoData;
      }
      if scroller.rowCount > 0 && scroller.totalRows > 0 {
        WindowBehind(Plan(), sent, |table|, answers);
      }
      var ok := SendWindow(o);
      if !ok {
        return SqlError;
      }
      WindowThenAhead(table, o, o + scroller.count, scroller.nextOffset, Upper());
      rc := SqlSuccess;
    }

    /** Past the last row of the window: the text is turned to the next one, and that is fetched. */
    method NextWindow(ghost delivered: nat) returns (rc: SqlReturn)
      requires Reading(delivered, |window|) && scroller.nextOffset + scroller.rowCount < TWO_64
      modifies this`window, this`gen, this`cursor, this`sent
      modifies scroller`nextOffset, scroller`count, scroller`rest, scroller.query
      ensures old(sent) <= sent
      ensures old(scroller.nextOffset) <= scroller.nextOffset <= old(scroller.nextOffset) + scroller.rowCount
      ensures Reading(delivered, if rc == SqlSuccess then 0 else |window|)
      ensures rc != SqlSuccess ==> window == old(window)
      ensures gen == old(gen) + if rc == SqlSuccess then 1 else 0
      ensures rc == SqlSuccess <==> Plan().Due(old(scroller.nextOffset), answers)
      ensures rc != SqlSuccess || window == [] ==> delivered == |Expected()|
    {
      hide WindowOffset, WindowCount, Range, Tiled, Pad, Layout, ShortRest, Takes;
      UpperBounds(Plan(), |table|, answers);
      DeliveredBound(table, scroller.startOffset, scroller.nextOffset, Upper(), delivered);
      var next := scroller.Move();
      rc := Prefetch();
    }

    /** One row of the fetch loop: the next row of the window, or the first of the next window. */
    method NextRow(ghost delivered: nat, ghost r: nat) returns (values: Option<Row>, ghost at: nat)
      requires Reading(delivered, r) && scroller.nextOffset + scroller.rowCount < TWO_64
      modifies this`window, this`gen, this`cursor, this`sent
      modifies scroller`nextOffset, scroller`count, scroller`rest, scroller.query
      ensures old(sent) <= sent
      ensures old(scroller.nextOffset) <= scroller.nextOffset <= old(scroller.nextOffset) + scroller.rowCount
      ensures values == if delivered < |Expected()| then Some(Expected()[delivered]) else None
      ensures Reading(if values == None then delivered else delivered + 1, at)
      ensures values == None ==> cursor == End && (r == 0 ==> window == [])
      ensures r < |old(window)| ==> values != None && at == r + 1 && SameWindow()
      ensures r == |old(window)| ==> gen == old(gen) + if Plan().Due(old(scroller.nextOffset), answers) then 1 else 0
    {
      hide WindowOffset, WindowCount, Range, Tiled, Pad, Layout, ShortRest, Takes, Windowed;
      hide ScrolledStatement.Expected, ScrolledStatement.Ahead;
      values := FetchRow();
      at := r + 1;
      if values == None {
        var rc := NextWindow(delivered);
        if rc != SqlSuccess {
          at := |window|;
          return None, at;
        }
        values := FetchRow();
        at := if values == None then 0 else 1;
      }
    }

    /** No other window has been stored or asked for. */
    twostate predicate SameWindow()
      reads this`window, this`gen, scroller
    {
      window == old(window) && gen == old(gen) && scroller.nextOffset == old(scroller.nextOffset)
    }

    lemma SentIsTiled()
      requires Ready()
      ensures Tiled(Plan(), sent)
    {
    }

    /** The fetch loop: up to `asize` rows from the cursor on; `savePosition` is where the rowset's rows
        begin, or the second row of the last window begun meanwhile. */
    method FetchRows(asize: nat, fill: seq<SqlReturn>, ghost start: nat, ghost r: nat)
      returns (res: SqlReturn, rows: seq<Row>, savePosition: RowPtr, ghost at: nat)
      requires Reading(start, r) && scroller.nextOffset + WindowsSpan(asize, scroller.rowCount) < TWO_64
      requires |fill| == asize > 0 && RowOutcomes(fill)
      modifies this`window, this`gen, this`cursor, this`sent
      modifies scroller`nextOffset, scroller`count, scroller`rest, scroller.query
      ensures old(sent) <= sent
      ensures scroller.nextOffset <= old(scroller.nextOffset) + WindowsSpan(asize, scroller.rowCount)
      ensures |rows| == Min(asize, |Expected()| - start) && rows == Expected()[start..start + |rows|]
      ensures res == Verdict(fill[..|rows|])
      ensures Reading(start + |rows|, at)
      ensures rows == [] ==> cursor == End && (r == 0 ==> window == [])
      ensures r + asize <= |old(window)| ==> SameWindow() && at == r + asize
      ensures |rows| == 1 < asize && r < |old(window)| ==>
        gen == old(gen) + if Plan().Due(old(scroller.nextOffset), answers) then 1 else 0
    {
      hide WindowOffset, WindowCount, Range, Tiled, Pad, Layout, ShortRest, Takes, WindowsSpan, Windowed, Verdict;
      hide ScrolledStatement.Expected, ScrolledStatement.Ahead, ScrolledStatement.Reading;
      res, rows, savePosition, at := SqlSuccess, [], cursor, r;
      VerdictOfNone(fill);
      RowInWindow(start, r);
      var i, more := 0, true;
      while i < asize && more
        invariant i == |rows| <= asize && old(sent) <= sent && res == Verdict(fill[..i])
        invariant scroller.nextOffset <=
          old(scroller.nextOffset) + WindowsSpan(if more then i else asize, scroller.rowCount)
        invariant start + i <= |Expected()| && rows == Expected()[start..start + i]
        invariant Reading(start + i, at) && at <= |window|
        invariant !more ==> start + i == |Expected()| && (i == 0 ==> cursor == End && (r == 0 ==> window == []))
        invariant more && r + i <= |old(window)| ==> SameWindow() && at == r + i
        invariant !more ==> i < asize && r + i >= |old(window)|
        invariant !more && i == 1 && r < |old(window)| ==>
          gen == old(gen) + if Plan().Due(old(scroller.nextOffset), answers) then 1 else 0
        decreases more, asize - i
      {
        if i == 0 {
          savePosition := cursor;
        }
        StepsFit(i, asize, scroller.rowCount);
        var stored := gen;
        var values;
        values, at := NextRow(start + i, at);
        RowInWindow(if values == None then start + i else start + i + 1, at);
        if values == None {
          more := false;
        } else {
          savePosition := if gen != stored then cursor else savePosition;
          rows := rows + [values.value];
          VerdictGrows(fill, i);
          if res != fill[i] || res != SqlSuccess {
            res := if Succeeded(fill[i]) then SqlSuccessWithInfo else if i == 0 then SqlError else SqlSuccessWithInfo;
          }
          i := i + 1;
        }
      }
    }

    lemma RowInWindow(delivered: nat, r: nat)
      requires Reading(delivered, r)
      ensures r <= |window| && delivered <= |Expected()|
    {
    }

    /** The kept pointer points into a window already released. */
    predicate Dangling()
      reads this`endOfSet, this`gen
    {
      endOfSet != End && endOfSet.gen != gen
    }

    /** Where SQL_FETCH_NEXT goes on: by the kept pointer, but for the first rowset. The row is never beyond
        the last one of the window. */
    method SeekNext() returns (curRow: int)
      requires Ready()
      modifies this`cursor
      ensures curRow == Delivered() >= 0 && Reading(curRow, ResumeAt())
    {
      hide WindowOffset, WindowCount, Range, Tiled, Pad, Layout, ShortRest, Takes;
      hide ScrolledStatement.Expected, ScrolledStatement.Ahead;
      curRow := if currentRow < 0 then 0 else currentRow + rowsFound;
      var maxRow := (if scroller.nextOffset > 0 then scroller.nextOffset - scroller.rowCount else 0) + |window|;
      if curRow > maxRow {
        assert false;
      }
      cursor := if curRow != 0 && curRow == currentRow + rowsFound then endOfSet else PtrTo(curRow);
    }

    /** my_SQLExtendedFetch for SQL_FETCH_NEXT and a rowset of `asize` rows, where filling the buffers of row
        i comes out as fill[i]. After SQL_ERROR the pointer kept is the old one: it dangles if and only if
        there was one, the rowset was to have more than the one row, and looking for the next one has
        stored another window. */
    method FetchNext(asize: nat, fill: seq<SqlReturn>) returns (rc: SqlReturn, rows: seq<Row>)
      requires Ready() && scroller.nextOffset + WindowsSpan(asize, scroller.rowCount) < TWO_64
      requires |fill| == asize > 0 && RowOutcomes(fill)
      modifies this`window, this`gen, this`cursor, this`endOfSet, this`currentRow, this`rowsFound, this`sent
      modifies scroller`nextOffset, scroller`count, scroller`rest, scroller.query
      ensures old(sent) <= sent && (rc != SqlError ==> Ready())
      ensures scroller.nextOffset <= old(scroller.nextOffset) + WindowsSpan(asize, scroller.rowCount)
      ensures |rows| == Min(asize, |Expected()| - old(Delivered()))
      ensures Delivered() == old(Delivered()) + |rows| && rows == Expected()[old(Delivered())..Delivered()]
      ensures rc == if rows == [] then SqlNoData else Verdict(fill[..|rows|])
      ensures rc == SqlError ==> endOfSet == old(endOfSet)
      ensures rc == SqlError ==>
        (Dangling() <==> asize > 1 && old(endOfSet) != End && old(Plan().Due(scroller.nextOffset, answers)))
      ensures old(ResumeAt()) + asize <= |old(window)| && rc != SqlError ==>
        SameWindow() && ResumeAt() == old(ResumeAt()) + asize
    {
      hide WindowOffset, WindowCount, Range, Tiled, Pad, Layout, ShortRest, Takes, WindowsSpan, Verdict, Windowed;
      hide ScrolledStatement.Expected, ScrolledStatement.Ahead, ScrolledStatement.NextIs;
      ghost var r: nat := ResumeAt();
      var curRow := SeekNext();
      var savePosition;
      ghost var at;
      rc, rows, savePosition, at := FetchRows(asize, fill, curRow, r);
      VerdictOfNone(fill);
      RowInWindow(curRow + |rows|, at);
      currentRow, rowsFound := curRow, |rows|;
      if Succeeded(rc) {
        endOfSet, cursor := cursor, savePosition;
      }
      if Succeeded(rc) && rowsFound == 0 {
        rc := SqlNoData;
      }
    }
  }

  /** Running a scrolled query and fetching rowset after rowset, with a server that takes the texts as they
      are at first: the rowsets are the rows served, whatever the window size, and once they are used up
      there is no data. The texts sent are the statement's windows, end to end. */
  method Drain<Row>(table: seq<Row>, answers: string -> bool, sql: string, c: LimitClause, maxRows: nat,
                    selected: nat, appFetchs: nat, sizes: seq<nat>)
    returns (rowsets: seq<seq<Row>>, rcs: seq<SqlReturn>, texts: seq<string>)
    requires ValidClause(c, sql) && ValidSettings(selected, appFetchs, maxRows)
    requires (forall k :: 0 <= k < |sizes| ==> sizes[k] > 0)
    requires var prefetch := CalcPrefetchNumber(selected, appFetchs, maxRows);
      && c.offset + prefetch + WindowsSpan(Sum(sizes), prefetch) < TWO_64
      && var p := PlanOf(sql, c, maxRows, prefetch); Takes(answers, p.prefix, p.rest)
    ensures var p := PlanOf(sql, c, maxRows, CalcPrefetchNumber(selected, appFetchs, maxRows));
      var rows := p.Served(table, answers);
      && |rowsets| == |sizes| && Fetched(rows, sizes, rowsets, rcs)
      && Flatten(rowsets) == rows[..Min(Sum(sizes), |rows|)]
      && Tiled(p, texts)
      && (rows == StatementRows(table, c, maxRows)
          <==> !p.Refused(answers) || |table| <= LastFrom(p.start, p.start + p.total, p.size))
    ensures var all := Flatten(rowsets);
      && (all == [] || (c.offset + |all| <= |table| && all == table[c.offset..c.offset + |all|]))
      && (c.begin != c.end ==> |all| <= c.rowCount)
      && (maxRows > 0 ==> |all| <= maxRows)
    ensures var all, p := Flatten(rowsets), PlanOf(sql, c, maxRows, CalcPrefetchNumber(selected, appFetchs, maxRows));
      !p.Refused(answers) && |all| < Sum(sizes) ==>
        || c.offset + |all| >= |table|
        || (c.begin != c.end && |all| == c.rowCount)
        || (maxRows > 0 && |all| == maxRows)
  {
    hide CalcPrefetchNumber, PlanOf, ValidClause, WindowsSpan, Takes, Plan.Served, Plan.Refused;
    hide StatementRows, LastFrom;
    hide Range, Sum, Flatten, Fetched, RowsetAt;
    hide ScrolledStatement.Ready, ScrolledStatement.Delivered;
    var prefetch := CalcPrefetchNumber(selected, appFetchs, maxRows);
    PlanSize(sql, c, maxRows, prefetch);
    var statement := new ScrolledStatement<Row>(table, answers, sql, c, maxRows, prefetch);
    ghost var rows, a := statement.Expected(), 0;
    SumOfNone();
    assert sizes[..0] == [];
    SpanGrows(0, Sum(sizes), statement.scroller.rowCount, prefetch);
    rowsets, rcs := [], [];
    NothingFetched(rows, sizes, rowsets, rcs);
    for k := 0 to |sizes|
      invariant statement.Ready() && fresh(statement) && fresh(statement.scroller) && fresh(statement.scroller.query)
      invariant a == Sum(sizes[..k]) <= Sum(sizes)
      invariant statement.scroller.nextOffset <= c.offset + prefetch + WindowsSpan(a, prefetch)
      invariant statement.Delivered() == Min(a, |rows|)
      invariant |rowsets| == k && Fetched(rows, sizes, rowsets, rcs)
    {
      SumGrows(sizes, k);
      ghost var b := a + sizes[k];
      SpanGrows(a, sizes[k], statement.scroller.rowCount, prefetch);
      SpanGrows(b, Sum(sizes) - b, statement.scroller.rowCount, prefetch);
      var rc, rowset := statement.FetchNext(sizes[k], seq(sizes[k], _ => SqlSuccess));
      RowsetIs(rows, a, sizes[k], rowset);
      FetchedGrows(rows, sizes, rowsets, rcs, a, rowset, rc);
      rowsets, rcs, a := rowsets + [rowset], rcs + [rc], b;
    }
    FetchedRows(rows, sizes, rowsets, rcs);
    assert sizes[..|sizes|] == sizes;
    texts := statement.sent;
    statement.SentIsTiled();
    ServedExactly(table, sql, c, maxRows, prefetch, answers);
    FirstServed(table, sql, c, maxRows, prefetch, answers, Flatten(rowsets), Sum(sizes));
  }

  lemma PlanSize(sql: string, c: LimitClause, maxRows: nat, prefetch: nat)
    requires ValidClause(c, sql)
    ensures PlanOf(sql, c, maxRows, prefetch).size <= prefetch
  {
  }

  /** Four rows in a window of four, no LIMIT: three are fetched, and in a rowset of two the last row fails.
      Looking for a fifth stores an empty window, and the pointer kept is one into the window before. */
  method PointerLeftBehind<Row>(table: seq<Row>, sql: string) returns (s: ScrolledStatement<Row>, rc: SqlReturn)
    requires |table| == 4
    ensures rc == SqlError && s.Dangling() && s.Delivered() == 4
  {
    hide Tiled, Layout, Pad, ShortRest, WindowOffset, WindowCount;
    hide ScrolledStatement.Windowed;
    var c := LimitClause(|sql|, |sql|, 0, 0);
    s := new ScrolledStatement<Row>(table, _ => true, sql, c, 0, 4);
    assert s.Expected() == table && s.Ahead() == [] && s.window == table;
    var rows;
    rc, rows := s.FetchNext(3, [SqlSuccess, SqlSuccess, SqlSuccess]);
    assert [SqlError, SqlSuccess][..1] == [SqlError];
    rc, rows := s.FetchNext(2, [SqlError, SqlSuccess]);
  }

  lemma SpanGrows(a: nat, b: nat, window: nat, prefetch: nat)
    requires window <= prefetch
    ensures WindowsSpan(a, prefetch) + WindowsSpan(b, window) <= WindowsSpan(a + b, prefetch)
    ensures WindowsSpan(0, prefetch) == 0
  {
    assert b * window <= b * prefetch;
  }

  /** How far n windows reach. */
  function WindowsSpan(n: nat, window: nat): nat {
    n * window
  }

  lemma StepsFit(i: nat, n: nat, window: nat)
    requires i < n
    ensures WindowsSpan(0, window) == 0
    ensures WindowsSpan(i, window) + window == WindowsSpan(i + 1, window) <= WindowsSpan(n, window)
  {
  }
}
