/** The LIMIT scroller of driver/my_stmt.c: the query text that is rewritten in place for every window,
    and the arithmetic of the windows. */
module Scroller {
  import opened Basics
  import opened IntPrinting
  import opened LimitText

  /** What find_position4limit reports: where the LIMIT clause stands, and its two numbers. Without a
      clause begin and end coincide. */
  datatype LimitClause = LimitClause(begin: nat, end: nat, offset: nat, rowCount: nat)

  predicate ValidClause(c: LimitClause, sql: string) {
    && c.begin <= c.end <= |sql| && c.offset < TWO_64 && c.rowCount < TWO_32
    && (c.begin == c.end ==> c.offset == 0 && c.rowCount == 0)
  }

  predicate HasLimit(c: LimitClause) {
    c.begin != c.end
  }

  // ---- the size of a window ----

  /** calc_prefetch_number; the result is an unsigned int, so it wraps at 32 bits. */
  function CalcPrefetchNumber(selected: nat, appFetchs: nat, maxRows: nat): (r: nat)
    requires selected < TWO_32 && appFetchs < TWO_64 && maxRows < TWO_64
    ensures r < TWO_32 && (maxRows > 0 ==> r <= maxRows)
  {
    if selected == 0 then 0
    else
      var result :=
        if appFetchs > 1 then
          if selected % appFetchs > 0 then appFetchs * (selected / appFetchs + 1) % TWO_32
          else if appFetchs > selected then appFetchs % TWO_32
          else selected
        else selected;
      if 0 < maxRows < result then maxRows else result
  }

  /** q rowsets are the fewest whose rows reach the prefetch setting. */
  predicate FewestRowsets(q: nat, selected: nat, appFetchs: nat) {
    selected <= q * appFetchs < selected + appFetchs
  }

  lemma FewestRowsetsUnique(q: nat, k: nat, selected: nat, appFetchs: nat)
    requires FewestRowsets(q, selected, appFetchs) && FewestRowsets(k, selected, appFetchs)
    ensures q == k
  {
    assert (q + 1) * appFetchs == q * appFetchs + appFetchs;
    assert (k + 1) * appFetchs == k * appFetchs + appFetchs;
    if q < k {
      MulGrows(q + 1, k, appFetchs);
    } else if k < q {
      MulGrows(k + 1, q, appFetchs);
    }
  }

  lemma RoundedUp(selected: nat, appFetchs: nat)
    requires 0 < selected && 0 < appFetchs
    ensures var q, r := selected / appFetchs, selected % appFetchs;
      && (r > 0 ==> FewestRowsets(q + 1, selected, appFetchs) && appFetchs * (q + 1) == (q + 1) * appFetchs)
      && (r == 0 ==> FewestRowsets(q, selected, appFetchs) && q * appFetchs == selected && appFetchs <= selected)
  {
    var q, r := selected / appFetchs, selected % appFetchs;
    assert selected == q * appFetchs + r && r < appFetchs;
    assert (q + 1) * appFetchs == q * appFetchs + appFetchs;
    if r == 0 && q == 0 {
      assert false;
    }
    if q > 0 {
      MulGrows(1, q, appFetchs);
    }
  }

  /** A window is the smallest whole number of rowsets that reaches the prefetch setting, cut at the
      row limit; that holds exactly as long as this many rows fit 32 bits. */
  lemma PrefetchIsWholeRowsets(selected: nat, appFetchs: nat, maxRows: nat, q: nat)
    requires 0 < selected < TWO_32 && 0 < appFetchs < TWO_64 && maxRows < TWO_64
    requires selected <= q * appFetchs < selected + appFetchs
    ensures q * appFetchs < TWO_32 ==>
      CalcPrefetchNumber(selected, appFetchs, maxRows) ==
      if 0 < maxRows < q * appFetchs then maxRows else q * appFetchs
    ensures CalcPrefetchNumber(selected, appFetchs, 0) == q * appFetchs <==> q * appFetchs < 0x1_0000_0000
  {
    assert FewestRowsets(q, selected, appFetchs);
    hide FewestRowsets;
    RoundedUp(selected, appFetchs);
    var k := if selected % appFetchs > 0 then selected / appFetchs + 1 else selected / appFetchs;
    FewestRowsetsUnique(q, k, selected, appFetchs);
    if appFetchs == 1 {
      OneByOne(selected);
    }
  }

  lemma OneByOne(selected: nat)
    ensures selected % 1 == 0 && selected / 1 == selected
  {
  }

  // ---- writing into the query text ----

  /** s has been written over `before` at `at`. */
  predicate Overwritten(before: string, after: string, at: nat, s: string) {
    && at + |s| <= |before| == |after|
    && forall k :: 0 <= k < |after| ==> after[k] == if at <= k < at + |s| then s[k - at] else before[k]
  }

  /** memcpy */
  method PutBytes(dst: array<char>, at: nat, s: string)
    requires at + |s| <= dst.Length
    modifies dst
    ensures Overwritten(old(dst[..]), dst[..], at, s)
  {
    for i := 0 to |s|
      invariant forall k :: 0 <= k < dst.Length ==>
        dst[k] == if at <= k < at + i then s[k - at] else old(dst[k])
    {
      dst[at + i] := s[i];
    }
  }

  /** snprintf into a buffer of `size` bytes: the text, cut short if need be, and a NUL. */
  method Snprintf(dst: array<char>, at: nat, size: nat, s: string)
    requires size > 0 && at + Min(|s|, size - 1) < dst.Length
    modifies dst
    ensures Overwritten(old(dst[..]), dst[..], at, s[..Min(|s|, size - 1)] + ['\0'])
  {
    PutBytes(dst, at, s[..Min(|s|, size - 1)] + ['\0']);
  }

  /** The query text with both fields in place, the offset still blank. */
  method CreateText(sql: string, begin: nat, end: nat, rows: nat) returns (text: array<char>)
    requires begin <= end <= |sql| && rows < TWO_32
    ensures fresh(text) && text.Length == |sql| + 40
    ensures text[..begin + 7] == sql[..begin] + " LIMIT "
    ensures text[begin + 27..] == "," + Pad(rows, 10) + FirstRest(sql[end..], end - begin + 1) + ['\0']
  {
    hide Overwritten, Pad, FirstRest;
    var queryLen := |sql| + 7 + MAX64_BUFF_SIZE + MAX32_BUFF_SIZE;
    var offsetPos := begin + 7;
    var tail, field := sql[end..], "," + Pad(rows, MAX32_BUFF_SIZE - 1);
    var countPos, tailPos := offsetPos + MAX64_BUFF_SIZE - 1, offsetPos + MAX64_BUFF_SIZE + MAX32_BUFF_SIZE - 1;
    FieldsFit(rows);
    text := new char[queryLen + 1](_ => ' ');
    ghost var t0 := text[..];
    PutBytes(text, 0, sql[..begin]);
    ghost var t1 := text[..];
    PutBytes(text, begin, " LIMIT ");
    ghost var t2 := text[..];
    Snprintf(text, countPos, MAX32_BUFF_SIZE + 1, field);
    ghost var t3 := text[..];
    assert field[..11] == field;
    PutBytes(text, tailPos, tail);
    ghost var t4 := text[..];
    text[queryLen] := '\0';
    WrittenAt(t4, queryLen, '\0');
    Assembled([t0, t1, t2, t3, t4, text[..]], sql, begin, end, field);
  }

  lemma WrittenAt(t: string, at: nat, c: char)
    requires at < |t|
    ensures Overwritten(t, t[at := c], at, [c])
  {
  }

  /** The five writes make the text. */
  lemma Assembled(t: seq<string>, sql: string, begin: nat, end: nat, field: string)
    requires begin <= end <= |sql| && |field| == 11 && |t| == 6
    requires |t[0]| == |sql| + 40 && forall k :: 0 <= k < |t[0]| ==> t[0][k] == ' '
    requires Overwritten(t[0], t[1], 0, sql[..begin])
    requires Overwritten(t[1], t[2], begin, " LIMIT ")
    requires Overwritten(t[2], t[3], begin + 27, field + ['\0'])
    requires Overwritten(t[3], t[4], begin + 38, sql[end..])
    requires Overwritten(t[4], t[5], |sql| + 39, ['\0'])
    ensures t[5][..begin + 7] == sql[..begin] + " LIMIT "
    ensures t[5][begin + 27..] == field + FirstRest(sql[end..], end - begin + 1) + ['\0']
  {
    var text, tail, blanks := t[5], sql[end..], end - begin + 1;
    forall k | 0 <= k < begin + 7 ensures text[k] == (sql[..begin] + " LIMIT ")[k] {
      assert text[k] == t[4][k] == t[3][k] == t[2][k];
    }
    forall k | begin + 27 <= k < begin + 38 ensures text[k] == field[k - begin - 27] {
      assert text[k] == t[4][k] == t[3][k];
    }
    var rest := FirstRest(tail, blanks);
    forall k | begin + 38 <= k < |sql| + 39 ensures text[k] == rest[k - begin - 38] {
      assert text[k] == t[4][k];
      assert t[3][k] == if k == begin + 38 then '\0' else ' ';
    }
  }

  // ---- the scroller ----

  /** The number of rows the statement may return: LIMIT's count and max_rows, 0 for no bound. */
  function TotalRows(c: LimitClause, maxRows: nat): nat {
    if !HasLimit(c) then maxRows
    else if maxRows > 0 then Min(c.rowCount, maxRows)
    else c.rowCount
  }

  class Scroller {
    const query: array<char>
    const offsetPos: nat
    const queryLen: nat
    const startOffset: nat
    const totalRows: nat
    const rowCount: nat
    var nextOffset: nat
    // what the text shows
    ghost const prefix: string
    ghost var rest: string
    ghost var count: nat

    /** Everything but the offset field, which is filled in for every window. */
    ghost predicate Valid()
      reads this, query
    {
      && 0 < |rest| && query.Length == queryLen + 1 && queryLen == |prefix| + 38 + |rest|
      && offsetPos == |prefix| + 7 && count <= rowCount < TWO_32
      && query[..offsetPos] == prefix + " LIMIT "
      && query[offsetPos + 20..] == "," + Pad(count, 10) + rest + ['\0']
      && (totalRows > 0 ==> rowCount <= totalRows)
    }

    /** The text sent for the window at `offset`. */
    ghost function Shown(offset: nat): string
      reads this
    {
      Layout(prefix, offset, count, rest)
    }

    /** scroller_create: copies the query around the fields; `prefetch` is the window size wanted. */
    constructor (sql: string, c: LimitClause, maxRows: nat, prefetch: nat)
      requires ValidClause(c, sql) && prefetch < TWO_32 && (maxRows > 0 ==> prefetch <= maxRows)
      ensures Valid() && fresh(query)
      ensures startOffset == nextOffset == c.offset
      ensures totalRows == if c.begin == c.end then maxRows
        else if maxRows > 0 then Min(c.rowCount, maxRows) else c.rowCount
      ensures rowCount == if c.begin != c.end then Min(prefetch, totalRows) else prefetch
      ensures prefix == sql[..c.begin] && count == rowCount
      ensures rest == FirstRest(sql[c.end..], c.end - c.begin + 1)
      ensures queryLen == |sql| + 39
    {
      hide Pad, FirstRest;
      var total := if maxRows > 0 then maxRows else 0;
      if c.begin != c.end {
        total := if total > 0 then Min(c.rowCount, total) else c.rowCount;
      }
      var rows := prefetch;
      if rows > total && c.begin != c.end {
        rows := total;
      }
      var text := CreateText(sql, c.begin, c.end, rows);
      query, offsetPos, queryLen := text, c.begin + 7, |sql| + 7 + MAX64_BUFF_SIZE + MAX32_BUFF_SIZE;
      startOffset, totalRows, rowCount, nextOffset := c.offset, total, rows, c.offset;
      prefix, rest, count := sql[..c.begin], FirstRest(sql[c.end..], c.end - c.begin + 1), rows;
    }

    /** The text is that of the window at `offset`. */
    ghost predicate Shows(offset: nat)
      reads this, query
    {
      query[..] == Shown(offset) + ['\0']
    }

    /** scroller_move: turns the text to the next window. Offsets are 64 bits wide. */
    method Move() returns (next: nat)
      requires Valid() && nextOffset + rowCount < TWO_64
      modifies this`nextOffset, query
      ensures Valid() && Shows(old(nextOffset))
      ensures next == nextOffset == old(nextOffset) + rowCount
    {
      hide Pad;
      FieldsFit(nextOffset);
      FieldsFit(count);
      ghost var before, field := query[..], Pad(nextOffset, 20);
      Snprintf(query, offsetPos, MAX64_BUFF_SIZE, Pad(nextOffset, MAX64_BUFF_SIZE - 1));
      query[offsetPos + MAX64_BUFF_SIZE - 1] := ',';
      assert field[..20] == field;
      OffsetWritten(before, query[..], prefix, nextOffset, count, rest);
      nextOffset := nextOffset + rowCount;
      next := nextOffset;
    }

    /** The first half of scroller_prefetch: cuts the last window to the rows that are left, and says
        whether there are any. */
    method CutLastWindow() returns (more: bool)
      requires Valid() && nextOffset >= startOffset + rowCount && Shows(nextOffset - rowCount)
      modifies this`count, this`rest, query
      ensures Valid() && Shows(nextOffset - rowCount)
      ensures var left := totalRows + startOffset - (nextOffset - rowCount);
        && more == (totalRows == 0 || nextOffset < totalRows + startOffset || left > 0)
        && (more && totalRows > 0 && nextOffset >= totalRows + startOffset ==>
              count == left && rest == ShortRest(old(rest)))
        && (!more || totalRows == 0 || nextOffset < totalRows + startOffset ==>
              count == old(count) && rest == old(rest))
    {
      hide Pad;
      if totalRows > 0 && nextOffset >= totalRows + startOffset {
        var left := totalRows - (nextOffset - rowCount - startOffset);
        if left > 0 {
          FieldsFit(nextOffset - rowCount);
          FieldsFit(left);
          FieldsFit(count);
          ghost var before, field := query[..], Pad(left, 10);
          Snprintf(query, offsetPos + MAX64_BUFF_SIZE, MAX32_BUFF_SIZE, Pad(left, MAX32_BUFF_SIZE - 1));
          query[offsetPos + MAX64_BUFF_SIZE + MAX32_BUFF_SIZE - 1] := ' ';
          assert field[..10] == field;
          CountWritten(before, query[..], prefix, nextOffset - rowCount, count, rest, left);
          count, rest := left, ShortRest(rest);
        } else {
          return false;
        }
      }
      more := true;
    }
  }

  lemma OffsetWritten(before: string, after: string, prefix: string, offset: nat, count: nat, rest: string)
    requires |Pad(offset, 20)| == 20 && |Pad(count, 10)| == 10
    requires |after| == |before| == |prefix| + 39 + |rest|
    requires before[..|prefix| + 7] == prefix + " LIMIT "
    requires before[|prefix| + 27..] == "," + Pad(count, 10) + rest + ['\0']
    requires forall k :: 0 <= k < |after| ==>
      (after[k] == if |prefix| + 7 <= k < |prefix| + 27 then Pad(offset, 20)[k - |prefix| - 7] else before[k])
    ensures after == Layout(prefix, offset, count, rest) + ['\0']
    ensures after[..|prefix| + 7] == prefix + " LIMIT "
    ensures after[|prefix| + 27..] == "," + Pad(count, 10) + rest + ['\0']
  {
    hide Pad;
    var p := |prefix| + 7;
    assert after[..p] == before[..p] && after[p..p + 20] == Pad(offset, 20) && after[p + 20..] == before[p + 20..];
    assert after == after[..p] + after[p..p + 20] + after[p + 20..];
  }

  lemma CountWritten(before: string, after: string, prefix: string, offset: nat, count: nat, rest: string, left: nat)
    requires |Pad(offset, 20)| == 20 && |Pad(count, 10)| == 10 && |Pad(left, 10)| == 10 && rest != ""
    requires before == Layout(prefix, offset, count, rest) + ['\0'] && |after| == |before|
    requires forall k :: 0 <= k < |after| ==>
      (after[k] == if |prefix| + 28 <= k < |prefix| + 38 then Pad(left, 10)[k - |prefix| - 28]
                   else if k == |prefix| + 38 then ' ' else before[k])
    ensures after == Layout(prefix, offset, left, ShortRest(rest)) + ['\0']
    ensures after[..|prefix| + 7] == prefix + " LIMIT "
    ensures after[|prefix| + 27..] == "," + Pad(left, 10) + ShortRest(rest) + ['\0']
  {
    hide Pad;
    var q := |prefix| + 28;
    assert after[..q] == before[..q] == prefix + " LIMIT " + Pad(offset, 20) + ",";
    assert after[q..q + 10] == Pad(left, 10);
    assert before[q + 10..] == rest + ['\0'];
    assert after[q + 10..] == ShortRest(rest) + ['\0'];
    assert after == after[..q] + after[q..q + 10] + after[q + 10..];
  }
}
