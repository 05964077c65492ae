/** Inserting the rows of a rowset with as few statements as the size of the network buffer allows
    (driver/cursor.c). */
module BatchInsert {
  import opened Basics
  import opened Odbc

  // ---- which rows go into which statement ----

  /** A row as it stands in a VALUES list. */
  function RowText(columns: seq<string>): string {
    "(" + Join(columns, ",") + ")"
  }

  /** The text of one statement for a group of rows. */
  function Statement(base: string, group: seq<string>): string {
    base + Join(group, ",")
  }

  /** A row of two columns and a statement of two rows, and when a statement is full, written out. */
  lemma StatementSpelled(base: string, a: string, b: string, group: seq<string>, limit: nat)
    ensures RowText([a, b]) == "(" + a + "," + b + ")" && RowText([a]) == "(" + a + ")"
    ensures Statement(base, [a, b]) == base + a + "," + b && Statement(base, [a]) == base + a
    ensures Full(base, group, limit) <==>
      group != [] && |base| + |Join(group, ",")| + |group[|group| - 1]| >= limit
  {
    JoinSpelled(a, b, [], ",");
    JoinSpelled(b, a, [], ",");
    assert "(" + (a + "," + b) + ")" == "(" + a + "," + b + ")";
    assert base + (a + "," + b) == base + a + "," + b;
  }

  function Statements(base: string, groups: seq<seq<string>>): (r: seq<string>)
    ensures |r| == |groups| && forall k :: 0 <= k < |r| ==> r[k] == Statement(base, groups[k])
  {
    seq(|groups|, k requires 0 <= k < |groups| => Statement(base, groups[k]))
  }

  /** Another row like its last one would bring the statement to the buffer's size. */
  predicate Full(base: string, group: seq<string>, limit: nat) {
    group != [] && |Statement(base, group)| + |group[|group| - 1]| >= limit
  }

  /** The rows cut into groups: a group ends with the row that makes it full. */
  function Groups(base: string, group: seq<string>, rows: seq<string>, limit: nat): seq<seq<string>>
    decreases |rows|
  {
    if rows == [] then (if group == [] then [] else [group])
    else
      var g := group + [rows[0]];
      if Full(base, g, limit) then [g] + Groups(base, [], rows[1..], limit)
      else Groups(base, g, rows[1..], limit)
  }

  /** No row is lost, none is sent twice, and their order is kept; no statement is without rows. */
  lemma {:induction false} GroupsConserve(base: string, group: seq<string>, rows: seq<string>, limit: nat)
    ensures var r := Groups(base, group, rows, limit);
      && Flatten(r) == group + rows
      && forall k :: 0 <= k < |r| ==> r[k] != []
    decreases |rows|
  {
    if rows == [] {
      FlattenHead(group, []);
      assert group + [] == group && [group] + [] == [group];
    } else {
      var g := group + [rows[0]];
      assert group + rows == g + rows[1..];
      if Full(base, g, limit) {
        GroupsConserve(base, [], rows[1..], limit);
        FlattenHead(g, Groups(base, [], rows[1..], limit));
        assert [] + rows[1..] == rows[1..];
      } else {
        GroupsConserve(base, g, rows[1..], limit);
      }
    }
  }

  /** Only the last group may be short of full, and no group goes on after it is full. */
  predicate CutWhenFull(base: string, groups: seq<seq<string>>, limit: nat) {
    && (forall k :: 0 <= k < |groups| - 1 ==> Full(base, groups[k], limit))
    && (forall k, n :: 0 <= k < |groups| && 0 < n < |groups[k]| ==> !Full(base, groups[k][..n], limit))
  }

  lemma {:induction false} GroupsCutWhenFull(base: string, group: seq<string>, rows: seq<string>, limit: nat)
    requires forall n :: 0 < n <= |group| ==> !Full(base, group[..n], limit)
    ensures CutWhenFull(base, Groups(base, group, rows, limit), limit)
    decreases |rows|
  {
    if rows != [] {
      var g := group + [rows[0]];
      assert forall n :: 0 < n <= |group| ==> g[..n] == group[..n];
      assert g[..|g|] == g;
      if Full(base, g, limit) {
        GroupsCutWhenFull(base, [], rows[1..], limit);
        FullThenRest(base, g, Groups(base, [], rows[1..], limit), limit);
      } else {
        GroupsCutWhenFull(base, g, rows[1..], limit);
      }
    }
  }

  lemma FullThenRest(base: string, g: seq<string>, rest: seq<seq<string>>, limit: nat)
    requires CutWhenFull(base, rest, limit) && Full(base, g, limit)
    requires forall n :: 0 < n < |g| ==> !Full(base, g[..n], limit)
    ensures CutWhenFull(base, [g] + rest, limit)
  {
    hide Full;
    var r := [g] + rest;
    assert forall k :: 1 <= k < |r| ==> r[k] == rest[k - 1];
  }

  // ---- the texts as they are built ----

  lemma JoinGrows(parts: seq<string>, last: string)
    ensures Join(parts + [last], ",") == if parts == [] then last else Join(parts, ",") + "," + last
  {
    assert (parts + [last])[..|parts|] == parts;
  }

  /** The parts with a comma after each. */
  function Listed(parts: seq<string>): string {
    if parts == [] then "" else Join(parts, ",") + ","
  }

  lemma ListedGrows(parts: seq<string>, last: string)
    ensures Listed(parts + [last]) == Listed(parts) + last + ","
  {
    JoinGrows(parts, last);
  }

  /** A row of the rowset: its column values as text, or None for one that cannot be converted. */
  predicate Convertible(row: seq<Option<string>>) {
    forall c :: 0 <= c < |row| ==> row[c] != None
  }

  function TextsOf(row: seq<Option<string>>): (r: seq<string>)
    requires Convertible(row)
    ensures |r| == |row| && forall c :: 0 <= c < |r| ==> r[c] == row[c].value
  {
    seq(|row|, c requires 0 <= c < |row| => row[c].value)
  }

  /** The rows as they are to stand in a VALUES list; for a row that cannot be converted, nothing. */
  function RowTexts(rows: seq<seq<Option<string>>>): (r: seq<string>)
    ensures |r| == |rows|
    ensures forall i :: 0 <= i < |r| ==> r[i] == if Convertible(rows[i]) then RowText(TextsOf(rows[i])) else ""
  {
    seq(|rows|, i requires 0 <= i < |rows| => if Convertible(rows[i]) then RowText(TextsOf(rows[i])) else "")
  }

  lemma ListedIsJoined(parts: seq<string>)
    requires parts != []
    ensures |Listed(parts)| > 0 && Listed(parts)[..|Listed(parts)| - 1] == Join(parts, ",")
  {
  }

  lemma NothingListed(base: string)
    ensures base + Listed([]) == base
  {
  }

  /** The row's text and a comma lengthen the statement, and its size tells whether it is full now. */
  lemma RowAppended(base: string, group: seq<string>, text: string, limit: nat)
    ensures base + Listed(group) + text + "," == base + Listed(group + [text])
    ensures Full(base, group + [text], limit) <==> |base + Listed(group + [text])| + (|text| - 1) >= limit
  {
    ListedGrows(group, text);
  }

  lemma GroupsStep(base: string, group: seq<string>, texts: seq<string>, next: nat, limit: nat)
    requires next < |texts|
    ensures var g := group + [texts[next]];
      Groups(base, group, texts[next..], limit)
      == if Full(base, g, limit) then [g] + Groups(base, [], texts[next + 1..], limit)
         else Groups(base, g, texts[next + 1..], limit)
  {
    hide Full;
    assert texts[next..][0] == texts[next] && texts[next..][1..] == texts[next + 1..];
  }

  lemma NoGroups(base: string, group: seq<string>, limit: nat)
    ensures Groups(base, group, [], limit) == if group == [] then [] else [group] + Groups(base, [], [], limit)
    ensures Groups(base, [], [], limit) == []
  {
  }

  class Inserter {
    var extQuery: string      // the statement being built
    var sent: seq<string>     // the statements executed

    constructor (base: string)
      ensures extQuery == base && sent == []
    {
      extQuery, sent := base, [];
    }

    /** One row of the rowset: its columns are put together in the network buffer, then appended. */
    method AppendRow(row: seq<Option<string>>) returns (rc: SqlReturn, length: nat)
      requires row != []
      modifies this`extQuery
      ensures rc == (if Convertible(row) then SqlSuccess else SqlError)
      ensures Convertible(row) ==>
        var text := RowText(TextsOf(row));
        extQuery == old(extQuery) + text + "," && length == |text| - 1
    {
      hide Join, Listed;
      NothingListed("");
      var buff := "";
      length := 0;
      extQuery := extQuery + "(";
      for ncol := 0 to |row|
        invariant extQuery == old(extQuery) + "("
        invariant Convertible(row[..ncol]) && buff == Listed(TextsOf(row[..ncol]))
      {
        if row[ncol] == None {
          return SqlError, length;
        }
        ListedGrows(TextsOf(row[..ncol]), row[ncol].value);
        assert TextsOf(row[..ncol + 1]) == TextsOf(row[..ncol]) + [row[ncol].value];
        buff := buff + row[ncol].value + ",";
      }
      assert row[..|row|] == row;
      length := |buff|;
      ghost var all := Join(TextsOf(row), ",");
      ListedIsJoined(TextsOf(row));
      extQuery := extQuery + buff[..length - 1];
      extQuery := extQuery + "),";
      assert old(extQuery) + "(" + all + ")," == old(extQuery) + ("(" + all + ")") + ",";
      rc := SqlSuccess;
    }

    /** The rows from `count` on, up to the one that makes the statement full. */
    method BuildStatement(rows: seq<seq<Option<string>>>, count: nat, limit: nat)
      returns (rc: SqlReturn, next: nat, breakInsert: bool, ghost group: seq<string>)
      requires count < |rows| && forall i :: 0 <= i < |rows| ==> rows[i] != []
      modifies this`extQuery
      ensures rc == SqlSuccess || rc == SqlError
      ensures rc == SqlError ==> exists i :: count <= i < |rows| && !Convertible(rows[i])
      ensures rc == SqlSuccess ==>
        var base, texts := old(extQuery), RowTexts(rows);
        && count < next <= |rows| && group == texts[count..next] && extQuery == base + Listed(group)
        && (breakInsert || next == |rows|)
        && Groups(base, [], texts[count..], limit) == [group] + Groups(base, [], texts[next..], limit)
        && (forall i :: count <= i < next ==> Convertible(rows[i]))
    {
      hide Join, RowText, TextsOf, Convertible, Listed, Full, Groups;
      ghost var base, texts := extQuery, RowTexts(rows);
      next, breakInsert, group := count, false, [];
      NothingListed(base);
      while next < |rows|
        invariant count <= next <= |rows| && group == texts[count..next] && extQuery == base + Listed(group)
        invariant Groups(base, group, texts[next..], limit) == Groups(base, [], texts[count..], limit)
        invariant forall i :: count <= i < next ==> Convertible(rows[i])
        invariant !breakInsert
      {
        var done, length := AppendRow(rows[next]);
        if done != SqlSuccess {
          return SqlError, next, false, group;
        }
        RowAppended(base, group, texts[next], limit);
        GroupsStep(base, group, texts, next, limit);
        group := group + [texts[next]];
        next := next + 1;
        if |extQuery| + length >= limit {
          breakInsert := true;
          break;
        }
      }
      assert texts[|rows|..] == [];
      NoGroups(base, group, limit);
      rc := SqlSuccess;
    }

    /** batch_insert for the rows of a rowset; the server takes the n-th statement, from 0, if
        accepts(n). */
    method Insert(rows: seq<seq<Option<string>>>, limit: nat, accepts: nat -> bool) returns (rc: SqlReturn, done: nat)
      requires rows != [] && forall i :: 0 <= i < |rows| ==> rows[i] != []
      modifies this
      ensures rc == SqlSuccess || rc == SqlError
      ensures var groups := Groups(old(extQuery), [], RowTexts(rows), limit);
        && done <= |groups| && sent == old(sent) + Statements(old(extQuery), groups[..done])
        && (rc == SqlSuccess ==>
              && done == |groups| && (forall i :: 0 <= i < |rows| ==> Convertible(rows[i]))
              && (forall n: nat :: n < done ==> accepts(n)))
        && (rc == SqlError ==>
              || (done > 0 && !accepts(done - 1))
              || (exists i :: |Flatten(groups[..done])| <= i < |rows| && !Convertible(rows[i])))
    {
      hide Groups, Full, Statement, Convertible, Listed, RowTexts, Flatten;
      var queryLength := if |rows| > 1 then |extQuery| else 0;
      var count, breakInsert := 0, false;
      ghost var base, texts := extQuery, RowTexts(rows);
      ghost var groups := Groups(base, [], texts, limit);
      assert texts[0..] == texts;
      done := 0;
      FlattenNone(groups);
      NoGroups(base, [], limit);
      while done == 0 || (breakInsert && count < |rows|)
        invariant count <= |rows| && done <= |groups| && |base| <= |extQuery| && extQuery[..|base|] == base
        invariant groups[done..] == Groups(base, [], texts[count..], limit)
        invariant |Flatten(groups[..done])| == count
        invariant sent == old(sent) + Statements(base, groups[..done])
        invariant done == 0 ==> extQuery == base && count == 0 && !breakInsert
        invariant done > 0 ==> breakInsert || count == |rows|
        invariant forall i :: 0 <= i < count ==> Convertible(rows[i])
        invariant forall n: nat :: n < done ==> accepts(n)
        decreases |rows| - count
      {
        if breakInsert {
          extQuery := extQuery[..queryLength];
        }
        ghost var group;
        var built, next;
        built, next, breakInsert, group := BuildStatement(rows, count, limit);
        if built != SqlSuccess {
          return SqlError, done;
        }
        GroupTaken(base, groups, done, group, Groups(base, [], texts[next..], limit));
        StatementBuilt(base, group);
        extQuery := extQuery[..|extQuery| - 1];
        sent := sent + [extQuery];
        count, done := next, done + 1;
        if !accepts(done - 1) {
          return SqlError, done;
        }
      }
      assert texts[|rows|..] == [];
      rc := SqlSuccess;
    }
  }

  lemma GroupTaken(base: string, groups: seq<seq<string>>, done: nat, group: seq<string>, rest: seq<seq<string>>)
    requires done <= |groups| && groups[done..] == [group] + rest
    ensures done < |groups| && groups[done + 1..] == rest
    ensures Flatten(groups[..done + 1]) == Flatten(groups[..done]) + group
    ensures Statements(base, groups[..done + 1]) == Statements(base, groups[..done]) + [Statement(base, group)]
  {
    hide Statement;
    assert groups[done] == groups[done..][0];
    assert groups[..done + 1] == groups[..done] + [group];
    assert groups[done + 1..] == groups[done..][1..];
    assert groups[..done + 1][..done] == groups[..done];
  }

  /** Without its last comma, the text built is the statement. */
  lemma StatementBuilt(base: string, group: seq<string>)
    requires group != []
    ensures var text, n := base + Listed(group), |base + Listed(group)| - 1;
      n >= |base| && text[..n] == Statement(base, group) && text[..|base|] == text[..n][..|base|] == base
  {
    hide Join;
  }

  lemma FlattenNone(groups: seq<seq<string>>)
    ensures Flatten(groups[..0]) == []
  {
  }
}
