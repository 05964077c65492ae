/** The windows a scrolled statement is cut into: the texts sent for them, and the rows they hold
    together (driver/my_stmt.c). */
module Windows {
  import opened Basics
  import opened IntPrinting
  import opened LimitText
  import opened Scroller

  /** Rows a to b of the table, as far as there are any: the server's answer to LIMIT a, b - a. */
  function Range<Row>(table: seq<Row>, a: nat, b: nat): seq<Row> {
    if a <= b then table[Min(a, |table|)..Min(b, |table|)] else []
  }

  /** The rows the statement asks for: those of its LIMIT clause, if it has one, and no more than
      max_rows of them, if that is set. */
  function StatementRows<Row>(table: seq<Row>, c: LimitClause, maxRows: nat): seq<Row> {
    var rows := if c.begin != c.end then Range(table, c.offset, c.offset + c.rowCount) else table;
    if maxRows > 0 then rows[..Min(maxRows, |rows|)] else rows
  }

  /** The rows the statement asks for, row by row: consecutive rows from the offset on, as many as table, clause
      and max_rows allow together. */
  lemma StatementRowsAre<Row>(table: seq<Row>, c: LimitClause, maxRows: nat)
    requires c.begin == c.end ==> c.offset == 0
    ensures var rows := StatementRows(table, c, maxRows);
      && (rows == [] || (c.offset + |rows| <= |table| && rows == table[c.offset..c.offset + |rows|]))
      && (c.begin != c.end ==> |rows| <= c.rowCount)
      && (maxRows > 0 ==> |rows| <= maxRows)
      && (|| c.offset + |rows| >= |table|
          || (c.begin != c.end && |rows| == c.rowCount)
          || (maxRows > 0 && |rows| == maxRows))
  {
  }

  /** The size of the windows. */
  function WindowSize(c: LimitClause, maxRows: nat, prefetch: nat): (r: nat)
    ensures r <= prefetch
  {
    if HasLimit(c) then Min(prefetch, TotalRows(c, maxRows)) else prefetch
  }

  /** The first window, from `offset` on in steps of its size, that reaches the end. */
  function LastFrom(offset: nat, end: nat, size: nat): (r: nat)
    requires size > 0
    ensures r >= offset && r + size >= end && (offset < end ==> r < end)
    decreases end - offset
  {
    if offset + size >= end then offset else LastFrom(offset + size, end, size)
  }

  type NonEmpty = s: string | s != "" witness " "

  /** How a statement is cut into windows: what stands in front of its LIMIT and behind the count at
      first, the first row and the number of rows to return (0 for no bound), and the size of a
      window. */
  datatype Plan = WindowPlan(prefix: string, rest: NonEmpty, start: nat, total: nat, size: nat) {

    predicate HasWindow(text: string) {
      |prefix| + 38 <= |text|
    }

    function Offset(text: string): nat
      requires HasWindow(text)
    {
      WindowOffset(text, |prefix| + 7)
    }

    function Count(text: string): nat
      requires HasWindow(text)
    {
      WindowCount(text, |prefix| + 7)
    }

    /** More windows may follow the one at `offset`. */
    predicate MoreAfter(offset: nat) {
      total == 0 || offset + size < start + total
    }

    /** A window has full size, but for the last when it reaches the end of what may be returned. */
    predicate RightCount(offset: nat, count: nat) {
      if MoreAfter(offset) then count == size
      else offset + count == start + total && 0 < count <= size
    }

    /** The text for a window. The one that reaches the end is written with the byte behind the count
        blanked, unless it is the first of all. */
    function TextFor(offset: nat, count: nat, first: bool): string {
      Layout(prefix, offset, count, if first || MoreAfter(offset) then rest else ShortRest(rest))
    }

    /** The windows reach the end of what may be returned, and not with the first of them. */
    predicate Shortens() {
      total > size > 0
    }

    /** The only text with the byte behind the count blanked. */
    function ShortText(): string
      requires Shortens()
    {
      var last := LastFrom(start, start + total, size);
      TextFor(last, start + total - last, false)
    }

    /** The server does not take that text. */
    predicate Refused(answers: string -> bool) {
      Shortens() && !answers(ShortText())
    }

    /** A window at `offset` will be stored if it is asked for. */
    predicate Due(offset: nat, answers: string -> bool) {
      total == 0 || (offset < start + total && (MoreAfter(offset) || !Refused(answers)))
    }

    /** No row from here on is returned: the end of what may be returned, or of the table, or the
        last window if its text is refused. */
    function Upper(tableSize: nat, answers: string -> bool): nat {
      if Refused(answers) then LastFrom(start, start + total, size)
      else if total > 0 then start + total
      else if size == 0 || tableSize < start then start
      else tableSize
    }

    /** The rows that fetching returns. */
    function Served<Row>(table: seq<Row>, answers: string -> bool): seq<Row> {
      Range(table, start, Upper(|table|, answers))
    }
  }

  /** How a statement is cut. */
  function PlanOf(sql: string, c: LimitClause, maxRows: nat, prefetch: nat): Plan
    requires ValidClause(c, sql)
  {
    WindowPlan(sql[..c.begin], FirstRest(sql[c.end..], c.end - c.begin + 1), c.offset, TotalRows(c, maxRows),
               WindowSize(c, maxRows, prefetch))
  }

  /** The server takes every text with this prefix and rest, whatever the window. */
  ghost predicate Takes(answers: string -> bool, prefix: string, rest: string) {
    forall o, n :: 0 <= o < TWO_64 && 0 <= n < TWO_32 ==> answers(Layout(prefix, o, n, rest))
  }

  // ---- which rows are served ----

  /** The rows served are those the statement asks for if and only if the shortened text is not refused,
      or the table has no row that late. */
  lemma ServedExactly<Row>(table: seq<Row>, sql: string, c: LimitClause, maxRows: nat, prefetch: nat,
                           answers: string -> bool)
    requires ValidClause(c, sql) && prefetch > 0
    ensures var p := PlanOf(sql, c, maxRows, prefetch);
      p.Served(table, answers) == StatementRows(table, c, maxRows)
      <==> !p.Refused(answers) || |table| <= LastFrom(p.start, p.start + p.total, p.size)
  {
    hide FirstRest, LastFrom, Layout, ShortRest;
    var p := PlanOf(sql, c, maxRows, prefetch);
    if p.Refused(answers) {
      var last := LastFrom(p.start, p.start + p.total, p.size);
      assert p.start <= last < p.start + p.total;
      assert |Range(table, p.start, last)| < |Range(table, p.start, p.start + p.total)| <==> last < |table|;
    }
  }

  /** Whatever the server does with the shortened text, what is served are the first of those rows. */
  lemma ServedFirst<Row>(table: seq<Row>, sql: string, c: LimitClause, maxRows: nat, prefetch: nat,
                         answers: string -> bool)
    requires ValidClause(c, sql) && prefetch > 0
    ensures var rows := PlanOf(sql, c, maxRows, prefetch).Served(table, answers);
      |rows| <= |StatementRows(table, c, maxRows)| && rows == StatementRows(table, c, maxRows)[..|rows|]
  {
    hide FirstRest, LastFrom, Layout, ShortRest;
    var p := PlanOf(sql, c, maxRows, prefetch);
    if p.Refused(answers) {
      var last := LastFrom(p.start, p.start + p.total, p.size);
      assert p.start <= last < p.start + p.total;
      assert StatementRows(table, c, maxRows) == Range(table, p.start, p.start + p.total);
      RangePrefix(table, p.start, last, p.start + p.total);
    } else {
      ServedExactly(table, sql, c, maxRows, prefetch, answers);
    }
  }

  lemma RangePrefix<Row>(table: seq<Row>, a: nat, m: nat, b: nat)
    requires a <= m <= b
    ensures var rows := Range(table, a, m);
      |rows| <= |Range(table, a, b)| && rows == Range(table, a, b)[..|rows|]
  {
  }

  /** The first n of the rows served, in the table's own terms. */
  lemma FirstServed<Row>(table: seq<Row>, sql: string, c: LimitClause, maxRows: nat, prefetch: nat,
                         answers: string -> bool, all: seq<Row>, n: nat)
    requires ValidClause(c, sql) && prefetch > 0
    requires var rows := PlanOf(sql, c, maxRows, prefetch).Served(table, answers);
      all == rows[..Min(n, |rows|)]
    ensures all == [] || (c.offset + |all| <= |table| && all == table[c.offset..c.offset + |all|])
    ensures c.begin != c.end ==> |all| <= c.rowCount
    ensures maxRows > 0 ==> |all| <= maxRows
    ensures !PlanOf(sql, c, maxRows, prefetch).Refused(answers) && |all| < n ==>
      || c.offset + |all| >= |table|
      || (c.begin != c.end && |all| == c.rowCount)
      || (maxRows > 0 && |all| == maxRows)
  {
    hide StatementRows, PlanOf, Plan.Served, Plan.Refused;
    ServedExactly(table, sql, c, maxRows, prefetch, answers);
    ServedFirst(table, sql, c, maxRows, prefetch, answers);
    StatementRowsAre(table, c, maxRows);
    var want, rows := StatementRows(table, c, maxRows), PlanOf(sql, c, maxRows, prefetch).Served(table, answers);
    assert all == want[..|rows|][..|all|] == want[..|all|];
    FirstOfRange(table, c.offset, want, all);
  }

  lemma FirstOfRange<Row>(table: seq<Row>, o: nat, want: seq<Row>, all: seq<Row>)
    requires want == [] || (o + |want| <= |table| && want == table[o..o + |want|])
    requires |all| <= |want| && all == want[..|all|]
    ensures all == [] || (o + |all| <= |table| && all == table[o..o + |all|])
  {
  }

  /** A tail that blanking its first byte does not change. */
  predicate TailSafe(tail: string) {
    tail == "" || tail[0] == ' '
  }

  /** With a server that takes texts with the tail whole, and no others, all rows are served if and only
      if the tail is empty or begins with a space, or the text never needs shortening, or the table
      has no row in the last window. */
  lemma TailDecides<Row>(table: seq<Row>, sql: string, c: LimitClause, maxRows: nat, prefetch: nat,
                         answers: string -> bool)
    requires ValidClause(c, sql) && prefetch > 0
    requires var p := PlanOf(sql, c, maxRows, prefetch);
      p.Shortens() ==>
        (answers(p.ShortText()) <==> ShortRest(p.rest) == sql[c.end..] + Spaces(c.end - c.begin + 1))
    ensures var p := PlanOf(sql, c, maxRows, prefetch);
      p.Served(table, answers) == StatementRows(table, c, maxRows)
      <==> || TailSafe(sql[c.end..])
           || !p.Shortens()
           || |table| <= LastFrom(p.start, p.start + p.total, p.size)
  {
    hide FirstRest, LastFrom, Layout, ShortRest, Spaces, StatementRows;
    TailKept(sql[c.end..], c.end - c.begin + 1);
    ServedExactly(table, sql, c, maxRows, prefetch, answers);
  }

  /** A comment right behind the clause: the second of two windows of four rows is full, yet its text loses
      the comment's first byte, and with it the statement its last four rows. */
  lemma RowsLost<Row>(table: seq<Row>, answers: string -> bool)
    requires |table| == 8
    requires var p := PlanOf("SELECT a FROM t LIMIT 0,8/*x*/", LimitClause(15, 25, 0, 8), 0, 4);
      p.Shortens() ==> !answers(p.ShortText())
    ensures var c := LimitClause(15, 25, 0, 8); var p := PlanOf("SELECT a FROM t LIMIT 0,8/*x*/", c, 0, 4);
      && p.rest == "/*x*/" + Spaces(11) && p.ShortText() == Layout("SELECT a FROM t", 4, 4, " *x*/" + Spaces(11))
      && StatementRows(table, c, 0) == table && p.Served(table, answers) == table[..4]
  {
    hide Layout, Spaces;
    var p := PlanOf("SELECT a FROM t LIMIT 0,8/*x*/", LimitClause(15, 25, 0, 8), 0, 4);
    assert "SELECT a FROM t LIMIT 0,8/*x*/"[..15] == "SELECT a FROM t";
    assert "SELECT a FROM t LIMIT 0,8/*x*/"[25..] == "/*x*/";
    assert ShortRest(p.rest) == " *x*/" + Spaces(11);
    assert LastFrom(0, 8, 4) == LastFrom(4, 8, 4) == 4;
  }

  // ---- the windows sent ----

  /** The windows sent lie end to end from the statement's first row, only the last may be short, and
      their texts are as they are to be written. */
  ghost predicate Tiled(p: Plan, sent: seq<string>) {
    && |sent| > 0
    && (forall k :: 0 <= k < |sent| ==> p.HasWindow(sent[k]))
    && p.Offset(sent[0]) == p.start
    && (forall k :: 0 <= k < |sent| ==>
          && p.RightCount(p.Offset(sent[k]), p.Count(sent[k]))
          && p.Offset(sent[k]) < TWO_64 && p.Count(sent[k]) < TWO_32
          && sent[k] == p.TextFor(p.Offset(sent[k]), p.Count(sent[k]), k == 0))
    && (forall k :: 0 <= k < |sent| - 1 ==>
          && p.MoreAfter(p.Offset(sent[k]))
          && p.Offset(sent[k + 1]) == p.Offset(sent[k]) + p.Count(sent[k]))
  }

  lemma TiledGrows(p: Plan, sent: seq<string>, text: string)
    requires Tiled(p, sent) && p.HasWindow(text) && p.RightCount(p.Offset(text), p.Count(text))
    requires text == p.TextFor(p.Offset(text), p.Count(text), false)
    requires p.Offset(text) < TWO_64 && p.Count(text) < TWO_32
    requires var last := sent[|sent| - 1];
      p.MoreAfter(p.Offset(last)) && p.Offset(text) == p.Offset(last) + p.Count(last)
    ensures Tiled(p, sent + [text])
  {
    hide WindowOffset, WindowCount, Layout, ShortRest;
    var all := sent + [text];
    assert all[0] == sent[0];
    assert forall k :: 0 <= k < |sent| ==> all[k] == sent[k];
  }

  lemma LastWindow(p: Plan, sent: seq<string>)
    requires Tiled(p, sent)
    ensures |sent| > 0
    ensures var last := sent[|sent| - 1];
      p.HasWindow(last) && p.RightCount(p.Offset(last), p.Count(last))
  {
    hide WindowOffset, WindowCount, Layout, ShortRest;
  }

  /** Every window sent stands on the way to the last one. */
  lemma {:induction false} OnTheWay(p: Plan, sent: seq<string>, k: nat)
    requires Tiled(p, sent) && p.size > 0 && k < |sent|
    ensures var o := p.Offset(sent[k]);
      && p.start <= o
      && (p.total > 0 ==> LastFrom(o, p.start + p.total, p.size) == LastFrom(p.start, p.start + p.total, p.size))
  {
    hide WindowOffset, WindowCount, Layout, ShortRest;
    if k > 0 {
      OnTheWay(p, sent, k - 1);
    }
  }

  /** The tail stands behind the count in a text. */
  predicate TailIn(text: string, prefix: nat, tail: string) {
    prefix + 38 + |tail| <= |text| && text[prefix + 38..prefix + 38 + |tail|] == tail
  }

  lemma TailInRest(tail: string, blanks: nat)
    requires blanks > 0
    ensures |FirstRest(tail, blanks)| == |ShortRest(FirstRest(tail, blanks))| == |tail| + blanks
    ensures FirstRest(tail, blanks)[..|tail|] == tail
    ensures ShortRest(FirstRest(tail, blanks))[..|tail|] == tail <==> TailSafe(tail)
  {
    var short := ShortRest(FirstRest(tail, blanks));
    if tail != "" {
      assert short[..|tail|][0] == ' ';
    }
  }

  lemma TailInText(p: Plan, offset: nat, count: nat, first: bool, tail: string, blanks: nat)
    requires blanks > 0 && p.rest == FirstRest(tail, blanks) && offset < TWO_64 && count < TWO_32
    ensures TailIn(p.TextFor(offset, count, first), |p.prefix|, tail)
      <==> first || p.MoreAfter(offset) || TailSafe(tail)
  {
    hide FirstRest, ShortRest, Layout, WindowOffset, WindowCount;
    TailInRest(tail, blanks);
    var rest := if first || p.MoreAfter(offset) then p.rest else ShortRest(p.rest);
    LayoutReadsBack(p.prefix, offset, count, rest);
    var text := p.TextFor(offset, count, first);
    assert text[|p.prefix| + 38..|p.prefix| + 38 + |tail|] == rest[..|tail|];
  }

  /** The tail of the query stands whole in every text sent if and only if it is safe, or only one window
      was sent, or the end has not been reached yet. */
  lemma TailsSent(sql: string, c: LimitClause, maxRows: nat, prefetch: nat, sent: seq<string>)
    requires ValidClause(c, sql) && Tiled(PlanOf(sql, c, maxRows, prefetch), sent)
    ensures var p, tail := PlanOf(sql, c, maxRows, prefetch), sql[c.end..];
      (forall k :: 0 <= k < |sent| ==> TailIn(sent[k], |p.prefix|, tail))
      <==> TailSafe(tail) || |sent| == 1 || p.MoreAfter(p.Offset(sent[|sent| - 1]))
  {
    hide WindowOffset, WindowCount, Layout, ShortRest, FirstRest, TailIn;
    var p, tail := PlanOf(sql, c, maxRows, prefetch), sql[c.end..];
    forall k | 0 <= k < |sent|
      ensures TailIn(sent[k], |p.prefix|, tail) <==> k == 0 || p.MoreAfter(p.Offset(sent[k])) || TailSafe(tail)
    {
      TailInText(p, p.Offset(sent[k]), p.Count(sent[k]), k == 0, tail, c.end - c.begin + 1);
    }
  }

  // ---- rows and windows ----

  /** How far the rows go. */
  lemma UpperBounds(p: Plan, tableSize: nat, answers: string -> bool)
    requires p.total > 0 ==> 0 < p.size <= p.total
    ensures var upper := p.Upper(tableSize, answers);
      && p.start <= upper
      && (p.total == 0 ==> if p.size > 0 then tableSize <= upper else upper == p.start)
      && (p.total > 0 ==> p.start + p.size <= upper <= p.start + p.total)
  {
    hide Layout, ShortRest;
  }

  /** The window behind the last one sent: it lies below the upper bound whole, or it is the last of all and
      decides, by its text, what that bound is. */
  lemma WindowBehind(p: Plan, sent: seq<string>, tableSize: nat, answers: string -> bool)
    requires Tiled(p, sent) && p.size > 0 && p.total > 0 && p.MoreAfter(p.Offset(sent[|sent| - 1]))
    ensures p.Shortens()
    ensures var o, upper := p.Offset(sent[|sent| - 1]) + p.size, p.Upper(tableSize, answers);
      && (p.MoreAfter(o) ==> o + p.size <= upper)
      && (!p.MoreAfter(o) ==>
            && o < p.start + p.total && p.ShortText() == p.TextFor(o, p.start + p.total - o, false)
            && upper == if answers(p.ShortText()) then p.start + p.total else o)
  {
    hide WindowOffset, WindowCount, Layout, ShortRest, Tiled;
    LastWindow(p, sent);
    OnTheWay(p, sent, |sent| - 1);
  }

  /** Nothing is left behind the upper bound, nor behind the end of the table. */
  lemma EmptyRange<Row>(table: seq<Row>, o: nat, n: nat, upper: nat)
    requires o <= n
    ensures o >= upper ==> Range(table, o, upper) == [] && Range(table, n, upper) == []
    ensures forall e: nat :: o <= e && Range(table, o, e) == [] && (e == n || e == upper) ==>
      o == e || Range(table, n, upper) == []
  {
  }

  /** A window from o to e, the next one beginning at n, and what is ahead of it make up the rest. */
  lemma WindowThenAhead<Row>(table: seq<Row>, o: nat, e: nat, n: nat, upper: nat)
    requires o <= e <= n
    requires e == upper || o == e == n || (e == n && (n <= upper || |table| <= upper))
    ensures Range(table, o, upper) == Range(table, o, e) + Range(table, n, upper)
  {
  }

  /** As many rows have been returned as lie before the next window. */
  lemma DeliveredBound<Row>(table: seq<Row>, start: nat, next: nat, upper: nat, delivered: nat)
    requires start <= next && start <= upper && delivered <= |Range(table, start, upper)|
    requires Range(table, start, upper)[delivered..] == Range(table, next, upper)
    ensures delivered + start <= next
  {
    assert |Range(table, start, upper)[delivered..]| == |Range(table, start, upper)| - delivered;
  }

  /** The text without its terminator reads back as the window shown. */
  lemma ShownIsSent(prefix: string, offset: nat, count: nat, rest: string, query: string)
    requires offset < TWO_64 && count < TWO_32 && query == Layout(prefix, offset, count, rest) + ['\0']
    ensures var text, p := query[..|prefix| + 38 + |rest|], |prefix| + 7;
      && |query| == |prefix| + 39 + |rest| && |text| == |prefix| + 38 + |rest|
      && WindowOffset(text, p) == offset && WindowCount(text, p) == count && text == Layout(prefix, offset, count, rest)
  {
    hide WindowOffset, WindowCount, Layout;
    LayoutReadsBack(prefix, offset, count, rest);
    assert query[..|prefix| + 38 + |rest|] == Layout(prefix, offset, count, rest);
  }
}
