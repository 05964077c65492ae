/** The choice of a key that identifies a row for a positioned operation, from the rows of SHOW KEYS
    (driver/cursor.c). */
module KeySelection {
  import opened Basics

  const MY_MAX_PK_PARTS: nat := 32

  /** A key of the table: its columns in order. */
  datatype Key = Key(unique: bool, columns: seq<string>)

  /** A row of SHOW KEYS: one part of a key, parts counted from 1. */
  datatype KeyRow = KeyRow(nonUnique: bool, seqInIndex: nat, column: string)

  function PartsFrom(key: Key, j: nat): seq<KeyRow>
    requires j <= |key.columns|
    decreases |key.columns| - j
  {
    if j == |key.columns| then []
    else [KeyRow(!key.unique, j + 1, key.columns[j])] + PartsFrom(key, j + 1)
  }

  /** What the server answers for a table with these keys. */
  function ShowKeys(keys: seq<Key>): seq<KeyRow> {
    if keys == [] then [] else PartsFrom(keys[0], 0) + ShowKeys(keys[1..])
  }

  // ---- names ----

  function ToUpper(c: char): char {
    if 'a' <= c <= 'z' then c - 32 as char else c
  }

  /** myodbc_strcasecmp() == 0 */
  predicate SameName(s: string, t: string) {
    |s| == |t| && forall k :: 0 <= k < |s| ==> ToUpper(s[k]) == ToUpper(t[k])
  }

  /** Two names are the same if they are equal but for the case of letters from a to z. */
  lemma SameNameSpelled(s: string, t: string)
    ensures SameName(s, t) <==>
      && |s| == |t|
      && forall k :: 0 <= k < |s| ==>
           || s[k] == t[k]
           || ('a' <= s[k] <= 'z' && s[k] as int == t[k] as int + 32)
           || ('a' <= t[k] <= 'z' && t[k] as int == s[k] as int + 32)
  {
  }

  /** Two keys as SHOW KEYS lists them, part by part. */
  lemma KeysShown(a: string, b: string, c: string, unique: bool)
    ensures ShowKeys([Key(unique, [a, b]), Key(!unique, [c])])
         == [KeyRow(!unique, 1, a), KeyRow(!unique, 2, b), KeyRow(unique, 1, c)]
  {
    var first, second := Key(unique, [a, b]), Key(!unique, [c]);
    assert [first, second][1..] == [second];
    assert PartsFrom(first, 1) == [KeyRow(!unique, 2, b)] && PartsFrom(second, 0) == [KeyRow(unique, 1, c)];
    assert ShowKeys([second]) == [KeyRow(unique, 1, c)];
  }

  predicate InResult(name: string, fields: seq<string>) {
    exists n :: 0 <= n < |fields| && SameName(name, fields[n])
  }

  /** have_field_in_result */
  method HaveFieldInResult(name: string, fields: seq<string>) returns (found: bool)
    ensures found <==> exists n :: 0 <= n < |fields| && SameName(name, fields[n])
  {
    var ncol := 0;
    while ncol < |fields|
      invariant 0 <= ncol <= |fields| && forall n :: 0 <= n < ncol ==> !SameName(name, fields[n])
    {
      if SameName(name, fields[ncol]) {
        return true;
      }
      ncol := ncol + 1;
    }
    return false;
  }

  // ---- which key is right ----

  /** The parts of a key that count: a key has no more in practice. */
  function Parts(key: Key): (r: seq<string>)
    ensures |r| <= MY_MAX_PK_PARTS && (|key.columns| <= MY_MAX_PK_PARTS ==> r == key.columns)
  {
    key.columns[..Min(|key.columns|, MY_MAX_PK_PARTS)]
  }

  predicate Usable(key: Key, fields: seq<string>) {
    key.unique && forall k :: 0 <= k < |Parts(key)| ==> InResult(Parts(key)[k], fields)
  }

  /** A key of up to 32 columns is usable if it is unique and each of them has the name of a column of the result. */
  lemma UsableSpelled(key: Key, fields: seq<string>)
    requires |key.columns| <= 32
    ensures Usable(key, fields) <==>
      && key.unique
      && forall k :: 0 <= k < |key.columns| ==>
           exists n :: 0 <= n < |fields| && SameName(key.columns[k], fields[n])
  {
    hide SameName, Parts;
    assert Parts(key) == key.columns;
    assert forall k :: 0 <= k < |key.columns| ==>
      (InResult(key.columns[k], fields) <==> exists n :: 0 <= n < |fields| && SameName(key.columns[k], fields[n]));
  }

  /** Key n is the first that is unique and has all its columns in the result. */
  predicate IsFirstUsable(keys: seq<Key>, fields: seq<string>, n: nat) {
    n < |keys| && Usable(keys[n], fields) && forall i :: 0 <= i < n ==> !Usable(keys[i], fields)
  }

  predicate NoneUsable(keys: seq<Key>, fields: seq<string>) {
    forall i :: 0 <= i < |keys| ==> !Usable(keys[i], fields)
  }

  // ---- the loop over the rows, as a function ----

  /** The columns chosen from the rows left, with some of a key taken already. */
  function Choose(rows: seq<KeyRow>, taken: seq<string>, fields: seq<string>): (r: seq<string>)
    requires |taken| <= MY_MAX_PK_PARTS
    ensures |r| <= MY_MAX_PK_PARTS
  {
    if rows == [] || |taken| == MY_MAX_PK_PARTS || rows[0].seqInIndex <= |taken| then taken
    else if rows[0].nonUnique || rows[0].seqInIndex != |taken| + 1 then Choose(rows[1..], taken, fields)
    else Choose(rows[1..], if InResult(rows[0].column, fields) then taken + [rows[0].column] else [], fields)
  }

  /** The later parts of a key are passed over once it is given up, and all parts of a key not unique. */
  lemma {:induction false} PassedOver(key: Key, j: nat, rest: seq<KeyRow>, fields: seq<string>)
    requires j <= |key.columns| && (j > 0 || !key.unique)
    ensures Choose(PartsFrom(key, j) + rest, [], fields) == Choose(rest, [], fields)
    decreases |key.columns| - j
  {
    if j == |key.columns| {
      assert PartsFrom(key, j) + rest == rest;
    } else {
      PassedOver(key, j + 1, rest, fields);
      assert (PartsFrom(key, j) + rest)[1..] == PartsFrom(key, j + 1) + rest;
    }
  }

  /** A unique key of which the first j parts are taken: it is taken whole, or given up. */
  lemma {:induction false} TakenWhole(key: Key, j: nat, rest: seq<KeyRow>, fields: seq<string>)
    requires key.unique && key.columns != [] && j <= |Parts(key)|
    requires forall k :: 0 <= k < j ==> InResult(Parts(key)[k], fields)
    requires rest == [] || rest[0].seqInIndex == 1
    ensures Choose(PartsFrom(key, j) + rest, key.columns[..j], fields)
         == if Usable(key, fields) then Parts(key) else Choose(rest, [], fields)
    decreases |key.columns| - j
  {
    var rows := PartsFrom(key, j) + rest;
    if j == |Parts(key)| {
      assert Parts(key) == key.columns[..j] && Usable(key, fields);
      assert j == |key.columns| ==> rows == rest;
    } else {
      assert rows[0] == KeyRow(false, j + 1, key.columns[j]) && rows[1..] == PartsFrom(key, j + 1) + rest;
      assert Parts(key)[j] == key.columns[j];
      if InResult(key.columns[j], fields) {
        assert key.columns[..j] + [key.columns[j]] == key.columns[..j + 1];
        TakenWhole(key, j + 1, rest, fields);
      } else {
        PassedOver(key, j + 1, rest, fields);
      }
    }
  }

  /** From SHOW KEYS of any table the loop takes the columns of the first usable key, all of them, and
      none if there is no such key. */
  lemma {:induction false} FirstUsableChosen(keys: seq<Key>, fields: seq<string>)
    requires forall i :: 0 <= i < |keys| ==> keys[i].columns != []
    ensures var chosen := Choose(ShowKeys(keys), [], fields);
      && (forall n: nat :: IsFirstUsable(keys, fields, n) ==> chosen == Parts(keys[n]))
      && (chosen == [] <==> NoneUsable(keys, fields))
  {
    if keys == [] {
      return;
    }
    var key, rest := keys[0], keys[1..];
    FirstUsableChosen(rest, fields);
    assert rest != [] ==> PartsFrom(rest[0], 0)[0].seqInIndex == 1;
    assert key.columns[..0] == [];
    if key.unique {
      TakenWhole(key, 0, ShowKeys(rest), fields);
    } else {
      PassedOver(key, 0, ShowKeys(rest), fields);
    }
    assert Parts(key) != [];
    if !Usable(key, fields) {
      forall n: nat | IsFirstUsable(keys, fields, n) ensures n > 0 && IsFirstUsable(rest, fields, n - 1) {
        assert forall i :: 0 <= i < n - 1 ==> rest[i] == keys[i + 1];
      }
      assert forall i :: 0 <= i < |rest| ==> rest[i] == keys[i + 1];
    }
  }

  // ---- the cursor ----

  class Cursor {
    const pkCol: array<string>
    var pkCount: nat
    var pkValidated: bool

    predicate Valid()
      reads this
    {
      pkCol.Length == MY_MAX_PK_PARTS && pkCount <= MY_MAX_PK_PARTS && (!pkValidated ==> pkCount == 0)
    }

    function KeyColumns(): seq<string>
      requires Valid()
      reads this, pkCol
    {
      pkCol[..pkCount]
    }

    constructor ()
      ensures Valid() && !pkValidated && fresh(pkCol)
    {
      pkCol := new string[MY_MAX_PK_PARTS](_ => "");
      pkCount, pkValidated := 0, false;
    }

    /** check_if_usable_unique_key_exists; `answer` is what the server sends for SHOW KEYS, if the query
        succeeds. */
    method CheckIfUsableUniqueKeyExists(answer: Option<seq<KeyRow>>, fields: seq<string>) returns (usable: bool)
      requires Valid()
      modifies this, pkCol
      ensures Valid() && (usable <==> KeyColumns() != [])
      ensures old(pkValidated) ==> unchanged(this) && unchanged(pkCol)
      ensures !old(pkValidated) && answer == None ==> !usable && unchanged(this) && unchanged(pkCol)
      ensures !old(pkValidated) && answer != None ==>
        pkValidated && KeyColumns() == Choose(answer.value, [], fields)
    {
      if pkValidated {
        return pkCount > 0;
      }
      if answer == None {
        return false;
      }
      var rows, n, seqInIndex := answer.value, 0, 0;
      ghost var chosen := Choose(rows, [], fields);
      assert pkCol[..0] == [] && rows[0..] == rows;
      while n < |rows| && pkCount < MY_MAX_PK_PARTS
        invariant n <= |rows| && seqInIndex == pkCount <= MY_MAX_PK_PARTS
        invariant Choose(rows[n..], pkCol[..pkCount], fields) == chosen
      {
        var row := rows[n];
        n := n + 1;
        assert rows[n - 1..][1..] == rows[n..];
        var sequence := row.seqInIndex;
        if sequence <= seqInIndex {
          break;
        }
        if row.nonUnique {
          continue;
        }
        if sequence != seqInIndex + 1 {
          continue;
        }
        var found := HaveFieldInResult(row.column, fields);
        if found {
          ghost var taken := pkCol[..pkCount];
          pkCol[pkCount] := row.column;
          pkCount := pkCount + 1;
          assert pkCol[..pkCount] == taken + [row.column];
          seqInIndex := sequence;
        } else {
          pkCount, seqInIndex := 0, 0;
          assert pkCol[..0] == [];
        }
      }
      pkValidated := true;
      return pkCount > 0;
    }
  }

  /** The first call chooses the first usable key; a second one keeps it, whatever has changed. */
  method ChooseKey(keys: seq<Key>, fields: seq<string>, later: Option<seq<KeyRow>>, laterFields: seq<string>)
    returns (columns: seq<string>, usable: bool, again: bool, columnsAgain: seq<string>)
    requires forall i :: 0 <= i < |keys| ==> keys[i].columns != []
    ensures forall n: nat :: IsFirstUsable(keys, fields, n) ==>
      columns == keys[n].columns[..Min(|keys[n].columns|, 32)]
    ensures usable == !NoneUsable(keys, fields) == (columns != [])
    ensures again == usable && columnsAgain == columns
  {
    FirstUsableChosen(keys, fields);
    var cursor := new Cursor();
    usable := cursor.CheckIfUsableUniqueKeyExists(Some(ShowKeys(keys)), fields);
    columns := cursor.KeyColumns();
    again := cursor.CheckIfUsableUniqueKeyExists(later, laterFields);
    columnsAgain := cursor.KeyColumns();
  }
}
