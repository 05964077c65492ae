/** Explicit descriptors and the statements that use them (driver/options.c, driver/handle.c,
    driver/desc.c). */
module Descriptors {

  datatype DescType = Unknown | ForParams | ForRows

  datatype Outcome = Done | InvalidUseOfAutomatic | InvalidValue | TypeMismatch

  // ---- lists of statements ----

  function RemoveFirst<T(==)>(list: seq<T>, x: T): seq<T> {
    if list == [] then [] else if list[0] == x then list[1..] else [list[0]] + RemoveFirst(list[1..], x)
  }

  lemma {:induction false} RemoveFirstAt<T>(list: seq<T>, x: T, i: nat)
    requires i < |list| && list[i] == x && x !in list[..i]
    ensures RemoveFirst(list, x) == list[..i] + list[i + 1..]
  {
    if i > 0 {
      assert list[0] != x;
      RemoveFirstAt(list[1..], x, i - 1);
    }
  }

  lemma {:induction false} RemoveFirstKeeps<T>(list: seq<T>, x: T)
    ensures forall y <- list :: y != x ==> y in RemoveFirst(list, x)
  {
    if list != [] && list[0] != x {
      RemoveFirstKeeps(list[1..], x);
    }
  }

  lemma {:induction false} RemoveFirstCounts<T>(list: seq<T>, x: T)
    ensures multiset(RemoveFirst(list, x)) == multiset(list) - multiset{x}
  {
    if list != [] {
      assert list == [list[0]] + list[1..];
      if list[0] != x {
        RemoveFirstCounts(list[1..], x);
      }
    }
  }

  /** How many entries of a list are x. */
  function Entries<T(==)>(list: seq<T>, x: T): nat {
    multiset(list)[x]
  }

  predicate NoRepeats<T(==)>(list: seq<T>) {
    forall i, j :: 0 <= i < j < |list| ==> list[i] != list[j]
  }

  /** A list without repetitions has the element no more. */
  lemma NoLongerIn<T>(list: seq<T>, x: T)
    requires NoRepeats(list) && x in list
    ensures var r := RemoveFirst(list, x);
      x !in r && NoRepeats(r) && forall y <- r :: y in list
  {
    var i :| 0 <= i < |list| && list[i] == x;
    RemoveFirstAt(list, x, i);
  }

  class Desc {
    const user: bool            // allocated by the application
    const dbc: Dbc?             // its connection, for one allocated by the application
    var descType: DescType
    var stmts: seq<Stmt>        // the statements associated with it, the latest first

    constructor Automatic(t: DescType)
      ensures !user && descType == t && stmts == []
    {
      user, dbc, descType, stmts := false, null, t, [];
    }

    constructor Explicit(connection: Dbc)
      ensures user && dbc == connection && descType == Unknown && stmts == []
    {
      user, dbc, descType, stmts := true, connection, Unknown, [];
    }

    /** desc_remove_stmt; the assertion that ends it cannot be reached. */
    method RemoveStmt(stmt: Stmt)
      requires user ==> stmt in stmts
      modifies if user then {this} else {}
      ensures descType == old(descType)
      ensures stmts == if user then RemoveFirst(old(stmts), stmt) else old(stmts)
      ensures forall s <- old(stmts) :: s != stmt ==> s in stmts
      ensures user ==> Entries(stmts, stmt) == Entries(old(stmts), stmt) - 1
    {
      RemoveFirstKeeps(stmts, stmt);
      RemoveFirstCounts(stmts, stmt);
      if !user {
        return;
      }
      var i := 0;
      while i < |stmts|
        invariant 0 <= i <= |stmts| && stmt !in stmts[..i]
        invariant stmts == old(stmts) && descType == old(descType)
      {
        if stmts[i] == stmt {
          RemoveFirstAt(stmts, stmt, i);
          stmts := stmts[..i] + stmts[i + 1..];
          return;
        }
        i := i + 1;
      }
      assert false;
    }
  }

  class Stmt {
    const dbc: Dbc
    const impApd: Desc
    const impArd: Desc
    const ipd: Desc
    const ird: Desc
    var apd: Desc
    var ard: Desc

    /** The part of my_SQLAllocStmt that concerns descriptors. */
    constructor (connection: Dbc)
      ensures dbc == connection && apd == impApd && ard == impArd
      ensures !impApd.user && !impArd.user && !ipd.user && !ird.user
      ensures fresh(impApd) && fresh(impArd) && fresh(ipd) && fresh(ird)
      ensures impApd.descType == ipd.descType == ForParams && impArd.descType == ird.descType == ForRows
    {
      dbc := connection;
      var p := new Desc.Automatic(ForParams);
      var r := new Desc.Automatic(ForRows);
      impApd, impArd, apd, ard := p, r, p, r;
      ipd := new Desc.Automatic(ForParams);
      ird := new Desc.Automatic(ForRows);
    }

    function Automatic(): set<Desc> {
      {impApd, impArd, ipd, ird}
    }

    function Slot(t: DescType): Desc
      reads this
    {
      if t == ForParams then apd else ard
    }

    function Implicit(t: DescType): Desc {
      if t == ForParams then impApd else impArd
    }
  }

  class Dbc {
    var statements: seq<Stmt>
    var expDesc: seq<Desc>

    constructor ()
      ensures Valid() && statements == [] && expDesc == []
    {
      statements, expDesc := [], [];
    }

    /** The statement's own descriptors are what they were allocated as. */
    predicate OwnDescs(s: Stmt)
      reads s.impApd, s.impArd, s.ipd, s.ird
    {
      && s.dbc == this && !s.impApd.user && !s.impArd.user && !s.ipd.user && !s.ird.user
      && s.impApd.descType == s.ipd.descType == ForParams && s.impArd.descType == s.ird.descType == ForRows
    }

    /** A descriptor in a statement's slot is its own, or an explicit one of this connection that has
        the right type and has the statement in its list. */
    predicate Linked(s: Stmt, t: DescType, d: Desc)
      reads this`expDesc, d
    {
      if d.user then d in expDesc && d.descType == t && s in d.stmts else d in s.Automatic()
    }

    ghost predicate Valid()
      reads this, statements, expDesc
      reads set s <- statements :: s.impApd, set s <- statements :: s.impArd
      reads set s <- statements :: s.ipd, set s <- statements :: s.ird
      reads set s <- statements :: s.apd, set s <- statements :: s.ard
    {
      && (forall s <- statements :: OwnDescs(s) && Linked(s, ForParams, s.apd) && Linked(s, ForRows, s.ard))
      && (forall d <- expDesc :: d.user && d.dbc == this)
      && (forall i, j :: 0 <= i < j < |expDesc| ==> expDesc[i] != expDesc[j])
      && (forall i, j :: 0 <= i < j < |statements| ==> statements[i] != statements[j])
    }

    predicate Uses(s: Stmt, d: Desc)
      reads s
    {
      s.apd == d || s.ard == d
    }

    /** Nothing stale in the list of an explicit descriptor: one entry for every statement using it. */
    predicate TidyList(d: Desc)
      reads this`statements, statements, d
    {
      NoRepeats(d.stmts) && (forall s <- d.stmts :: s in statements && Uses(s, d))
    }

    predicate Tidy()
      reads this, statements, expDesc
    {
      forall d <- expDesc :: TidyList(d)
    }

    method AllocStmt() returns (s: Stmt)
      requires Valid()
      modifies this`statements
      ensures Valid() && fresh(s) && statements == [s] + old(statements) && s.apd == s.impApd && s.ard == s.impArd
      ensures old(Tidy()) ==> Tidy()
    {
      s := new Stmt(this);
      statements := [s] + statements;
    }

    /** my_SQLAllocDesc */
    method AllocDesc() returns (d: Desc)
      requires Valid()
      modifies this`expDesc
      ensures Valid() && fresh(d) && expDesc == [d] + old(expDesc) && d.user && d.stmts == [] && d.descType == Unknown
      ensures old(Tidy()) ==> Tidy()
    {
      d := new Desc.Explicit(this);
      expDesc := [d] + expDesc;
    }

    /** What MySQLSetStmtAttr says to setting descriptor d for slot t of a statement. */
    predicate Accepts(stmt: Stmt, t: DescType, d: Desc)
      reads d
    {
      && (d.user || d in stmt.Automatic()) && (d.user ==> d.dbc == stmt.dbc)
      && (d.descType == Unknown || d.descType == t)
    }

    /** MySQLSetStmtAttr for SQL_ATTR_APP_PARAM_DESC (t is ForParams) and SQL_ATTR_APP_ROW_DESC. The
        lists stay tidy if and only if no explicit descriptor is replaced by another one or by null:
        then the statement remains in the old one's list. */
    method SetAppDesc(stmt: Stmt, t: DescType, desc: Desc?) returns (rc: Outcome)
      requires Valid() && stmt in statements && t != Unknown
      requires desc != null && desc.user && desc.dbc == this ==> desc in expDesc
      modifies stmt`apd, stmt`ard, expDesc, desc
      ensures Valid()
      ensures rc == Done <==> desc == null || old(Accepts(stmt, t, desc))
      ensures rc == InvalidUseOfAutomatic <==> desc != null && !desc.user && desc !in stmt.Automatic()
      ensures rc == InvalidValue <==> desc != null && desc.user && desc.dbc != this
      ensures rc == TypeMismatch <==>
        && desc != null && (if desc.user then desc.dbc == this else desc in stmt.Automatic())
        && old(desc.descType) != Unknown && old(desc.descType) != t
      ensures stmt.apd == if rc != Done || t == ForRows then old(stmt.apd)
        else if desc == null then stmt.impApd else desc
      ensures stmt.ard == if rc != Done || t == ForParams then old(stmt.ard)
        else if desc == null then stmt.impArd else desc
      ensures rc != Done ==> forall d <- expDesc :: unchanged(d)
      ensures rc == Done ==> forall d <- expDesc :: d.descType == if d == desc then t else old(d.descType)
      ensures rc == Done ==> forall d <- expDesc ::
        d.stmts == ListAfter(old(Lists())[d], d, stmt, old(stmt.Slot(t)), desc)
      ensures rc == Done && old(Tidy()) ==>
        (Tidy() <==> !(if t == ForParams then old(stmt.apd) else old(stmt.ard)).user || (desc != null && !desc.user))
    {
      hide Dbc.Tidy;
      if desc == null {
        Reset(stmt, t);
        return Done;
      }
      if !desc.user && desc !in stmt.Automatic() {
        return InvalidUseOfAutomatic;
      }
      if desc.user && stmt.dbc != desc.dbc {
        return InvalidValue;
      }
      if desc.descType != Unknown && desc.descType != t {
        return TypeMismatch;
      }
      Associate(stmt, t, desc);
      rc := Done;
    }

    /** The lists of the explicit descriptors. */
    ghost function Lists(): map<Desc, seq<Stmt>>
      reads this`expDesc, expDesc
    {
      map d | d in expDesc :: d.stmts
    }

    function Other(t: DescType): DescType {
      if t == ForParams then ForRows else ForParams
    }

    /** The list of descriptor d when a slot goes from `dest` to `desc`. */
    function ListAfter(list: seq<Stmt>, d: Desc, stmt: Stmt, dest: Desc, desc: Desc?): seq<Stmt> {
      if d == desc then [stmt] + list
      else if d == dest && desc != null && !desc.user then RemoveFirst(list, stmt)
      else list
    }

    lemma TidyOrNot(lists: map<Desc, seq<Stmt>>, stmt: Stmt, t: DescType, dest: Desc, desc: Desc?)
      requires Valid() && stmt in statements && t != Unknown && lists.Keys == set d | d in expDesc
      requires dest.user ==> dest in expDesc && stmt in lists[dest] && stmt.Slot(Other(t)) != dest
      requires stmt.Slot(t) == if desc == null then stmt.Implicit(t) else desc
      requires forall d <- expDesc :: d.stmts == ListAfter(lists[d], d, stmt, dest, desc)
      requires forall d <- expDesc :: NoRepeats(lists[d])
      requires forall d <- expDesc :: forall s <- lists[d] ::
        s in statements && (if s == stmt then d == dest || d == stmt.Slot(Other(t)) else Uses(s, d))
      ensures Tidy() <==> !dest.user || (desc != null && !desc.user)
    {
      if dest.user && (desc == null || desc.user) {
        assert stmt in dest.stmts;
        if desc == dest {
          var j :| 0 <= j < |lists[dest]| && lists[dest][j] == stmt;
          assert dest.stmts[0] == dest.stmts[j + 1];
        }
        assert !TidyList(dest);
      } else {
        forall d | d in expDesc ensures TidyList(d) {
          assert d.stmts == ListAfter(lists[d], d, stmt, dest, desc);
          if d == dest && d != desc {
            NoLongerIn(lists[d], stmt);
          }
        }
      }
    }

    /** SQL_NULL_HANDLE: back to the implicit descriptor, and the lists are left as they are. */
    method Reset(stmt: Stmt, t: DescType)
      requires Valid() && stmt in statements && t != Unknown
      modifies stmt`apd, stmt`ard
      ensures Valid() && stmt.Slot(t) == stmt.Implicit(t) && stmt.Slot(Other(t)) == old(stmt.Slot(Other(t)))
      ensures old(Tidy()) ==> (Tidy() <==> !old(stmt.Slot(t)).user)
    {
      ghost var lists, dest := Lists(), stmt.Slot(t);
      if t == ForParams {
        stmt.apd := stmt.impApd;
      } else {
        stmt.ard := stmt.impArd;
      }
      if old(Tidy()) {
        TidyOrNot(lists, stmt, t, dest, null);
      }
    }

    /** The lists when a slot goes to another descriptor: setting the implicit one back takes the
        statement out of the explicit one's list, and an explicit one gets it at the head of its own. */
    method Relist(stmt: Stmt, t: DescType, desc: Desc)
      requires Valid() && stmt in statements && t != Unknown
      requires Accepts(stmt, t, desc) && (desc.user ==> desc in expDesc)
      modifies desc, if stmt.Slot(t).user then {stmt.Slot(t)} else {}
      ensures forall d <- expDesc :: d.stmts == ListAfter(old(Lists())[d], d, stmt, stmt.Slot(t), desc)
      ensures forall d <- expDesc :: d.descType == if d == desc then t else old(d.descType)
      ensures forall d <- expDesc :: forall s <- old(d.stmts) :: s != stmt || d != stmt.Slot(t) ==> s in d.stmts
      ensures desc.descType == t && (desc.user ==> stmt in desc.stmts)
      ensures !desc.user ==> old(desc.descType) == t
    {
      var dest := stmt.Slot(t);
      if !desc.user && dest.user {
        dest.RemoveStmt(stmt);
      } else if desc.user {
        desc.stmts := [stmt] + desc.stmts;
      }
      desc.descType := t;
    }

    method Link(stmt: Stmt, t: DescType, desc: Desc)
      requires Valid() && stmt in statements && t != Unknown
      requires Accepts(stmt, t, desc) && (desc.user ==> desc in expDesc)
      modifies stmt`apd, stmt`ard, desc, if stmt.Slot(t).user then {stmt.Slot(t)} else {}
      ensures Valid()
      ensures stmt.apd == if t == ForParams then desc else old(stmt.apd)
      ensures stmt.ard == if t == ForRows then desc else old(stmt.ard)
      ensures forall d <- expDesc :: d.stmts == ListAfter(old(Lists())[d], d, stmt, old(stmt.Slot(t)), desc)
      ensures forall d <- expDesc :: d.descType == if d == desc then t else old(d.descType)
    {
      hide RemoveFirst, Dbc.ListAfter;
      Relist(stmt, t, desc);
      if t == ForParams {
        stmt.apd := desc;
      } else {
        stmt.ard := desc;
      }
      forall s | s in statements ensures OwnDescs(s) {
        assert old(OwnDescs(s));
      }
      forall s | s in statements ensures Linked(s, ForParams, s.apd) && Linked(s, ForRows, s.ard) {
        assert old(Linked(s, ForParams, s.apd) && Linked(s, ForRows, s.ard));
        if s != stmt {
          assert s.apd == old(s.apd) && s.ard == old(s.ard);
        }
      }
    }

    method Associate(stmt: Stmt, t: DescType, desc: Desc)
      requires Valid() && stmt in statements && t != Unknown
      requires Accepts(stmt, t, desc) && (desc.user ==> desc in expDesc)
      modifies stmt`apd, stmt`ard, desc, if stmt.Slot(t).user then {stmt.Slot(t)} else {}
      ensures Valid() && stmt.Slot(t) == desc && stmt.Slot(Other(t)) == old(stmt.Slot(Other(t)))
      ensures forall d <- expDesc :: d.stmts == ListAfter(old(Lists())[d], d, stmt, old(stmt.Slot(t)), desc)
      ensures forall d <- expDesc :: d.descType == if d == desc then t else old(d.descType)
      ensures old(Tidy()) ==> (Tidy() <==> !old(stmt.Slot(t)).user || !desc.user)
    {
      hide RemoveFirst, Dbc.ListAfter;
      ghost var lists, dest := Lists(), stmt.Slot(t);
      Link(stmt, t, desc);
      if old(Tidy()) {
        TidyOrNot(lists, stmt, t, dest, desc);
      }
    }

    /** my_SQLFreeDesc: every statement in the list goes back to its implicit descriptor, whether it still
        uses this one or not. */
    method FreeDesc(desc: Desc) returns (rc: Outcome)
      requires Valid() && (desc.user ==> desc in expDesc)
      modifies this`expDesc, desc.stmts
      ensures Valid()
      ensures !desc.user ==>
        rc == InvalidUseOfAutomatic && expDesc == old(expDesc) && forall s <- desc.stmts :: unchanged(s)
      ensures desc.user ==> rc == Done && expDesc == RemoveFirst(old(expDesc), desc) && desc !in expDesc
      ensures desc.user ==> forall s <- statements :: s.apd != desc && s.ard != desc
      ensures desc.user ==> forall s <- statements + desc.stmts ::
        && s.apd == (if desc.descType == ForParams && s in desc.stmts then s.impApd else old(s.apd))
        && s.ard == (if desc.descType == ForRows && s in desc.stmts then s.impArd else old(s.ard))
      ensures desc.user && old(Tidy()) ==>
        && Tidy() && (forall s <- desc.stmts :: s in statements)
        && forall s <- statements ::
          && s.apd == (if old(s.apd) == desc then s.impApd else old(s.apd))
          && s.ard == (if old(s.ard) == desc then s.impArd else old(s.ard))
    {
      if !desc.user {
        return InvalidUseOfAutomatic;
      }
      var i := Find(expDesc, desc);
      NoLongerIn(expDesc, desc);
      RemoveFirstKeeps(expDesc, desc);
      RemoveFirstAt(expDesc, desc, i);
      expDesc := expDesc[..i] + expDesc[i + 1..];
      ResetAll(desc);
      rc := Done;
      forall s | s in statements ensures OwnDescs(s) && !Uses(s, desc) {
        assert old(OwnDescs(s) && Linked(s, ForParams, s.apd) && Linked(s, ForRows, s.ard));
      }
      forall s | s in statements ensures Linked(s, ForParams, s.apd) && Linked(s, ForRows, s.ard) {
        assert old(Linked(s, ForParams, s.apd) && Linked(s, ForRows, s.ard));
      }
      if old(Tidy()) {
        assert old(TidyList(desc));
        forall d | d in expDesc ensures TidyList(d) {
          assert old(TidyList(d)) && old(TidyList(desc));
        }
      }
    }

    method ResetAll(desc: Desc)
      modifies desc.stmts
      ensures forall s <- desc.stmts ::
        && s.apd == (if desc.descType == ForParams then s.impApd else old(s.apd))
        && s.ard == (if desc.descType == ForRows then s.impArd else old(s.ard))
    {
      var k := 0;
      while k < |desc.stmts|
        invariant 0 <= k <= |desc.stmts|
        invariant forall s <- desc.stmts ::
          && s.apd == (if desc.descType == ForParams && s in desc.stmts[..k] then s.impApd else old(s.apd))
          && s.ard == (if desc.descType == ForRows && s in desc.stmts[..k] then s.impArd else old(s.ard))
      {
        var s := desc.stmts[k];
        if desc.descType == ForParams {
          s.apd := s.impApd;
        } else if desc.descType == ForRows {
          s.ard := s.impArd;
        }
        k := k + 1;
      }
      assert desc.stmts[..k] == desc.stmts;
    }

    /** The SQL_DROP end of my_SQLFreeStmtExtended. */
    method DropStmt(stmt: Stmt)
      requires Valid() && stmt in statements
      modifies this`statements, expDesc
      ensures Valid() && statements == RemoveFirst(old(statements), stmt) && stmt !in statements
      ensures forall d <- expDesc :: d.stmts == if Uses(stmt, d) then RemoveFirst(old(d.stmts), stmt) else old(d.stmts)
      ensures forall d <- expDesc ::
        Entries(d.stmts, stmt) == Entries(old(d.stmts), stmt) - if Uses(stmt, d) then 1 else 0
      ensures forall d <- expDesc :: d.descType == old(d.descType)
      ensures old(Tidy()) ==> Tidy()
    {
      hide RemoveFirst, Entries;
      Unlink(stmt);
      var i := Find(statements, stmt);
      NoLongerIn(statements, stmt);
      RemoveFirstAt(statements, stmt, i);
      statements := statements[..i] + statements[i + 1..];
      forall s | s in statements ensures OwnDescs(s) && Linked(s, ForParams, s.apd) && Linked(s, ForRows, s.ard) {
        assert old(OwnDescs(s) && Linked(s, ForParams, s.apd) && Linked(s, ForRows, s.ard));
      }
      if old(Tidy()) {
        forall d | d in expDesc ensures TidyList(d) {
          assert old(TidyList(d));
          if stmt in old(d.stmts) {
            NoLongerIn(old(d.stmts), stmt);
          }
        }
      }
    }

    method Unlink(stmt: Stmt)
      requires Valid() && stmt in statements
      modifies expDesc
      ensures forall d <- expDesc :: d.stmts == if Uses(stmt, d) then RemoveFirst(old(d.stmts), stmt) else old(d.stmts)
      ensures forall d <- expDesc ::
        Entries(d.stmts, stmt) == Entries(old(d.stmts), stmt) - if Uses(stmt, d) then 1 else 0
      ensures forall d <- expDesc :: d.descType == old(d.descType)
      ensures forall d <- expDesc :: forall s <- old(d.stmts) :: s != stmt ==> s in d.stmts
    {
      hide RemoveFirst, Entries;
      stmt.apd.RemoveStmt(stmt);
      stmt.ard.RemoveStmt(stmt);
    }

    method Find<T(==)>(list: seq<T>, x: T) returns (i: nat)
      requires x in list
      ensures i < |list| && list[i] == x && x !in list[..i]
    {
      i := 0;
      while list[i] != x
        invariant i < |list| && x in list[i..] && x !in list[..i]
        decreases |list| - i
      {
        i := i + 1;
      }
    }
  }
  /** An explicit descriptor is set, then another one or null in its place: the statement stays in the
      list of the first. */
  method Replace(dbc: Dbc, stmt: Stmt, first: Desc, second: Desc?)
    requires dbc.Valid() && stmt in dbc.statements && first in dbc.expDesc && first.descType != ForRows
    requires second != null ==> second in dbc.expDesc && first != second && second.descType != ForRows
    modifies dbc, stmt, dbc.expDesc
    ensures dbc.Valid() && dbc.statements == old(dbc.statements) && dbc.expDesc == old(dbc.expDesc)
    ensures first.descType == ForParams && first.stmts == [stmt] + old(first.stmts)
    ensures stmt.apd == if second == null then stmt.impApd else second
    ensures second != null ==> second.stmts == [stmt] + old(second.stmts)
  {
    hide RemoveFirst, Dbc.Tidy;
    assert dbc.OwnDescs(stmt) && first.dbc == dbc && (second != null ==> second.dbc == dbc);
    var rc := dbc.SetAppDesc(stmt, ForParams, first);
    rc := dbc.SetAppDesc(stmt, ForParams, second);
  }

  /** A statement whose explicit descriptor was replaced by another loses the other one when the first
      is freed. */
  method FreeReplaced(dbc: Dbc, stmt: Stmt, first: Desc, second: Desc)
    requires dbc.Valid() && stmt in dbc.statements && first in dbc.expDesc && first.descType != ForRows
    requires second in dbc.expDesc && first != second && second.descType != ForRows
    modifies dbc, stmt, dbc.expDesc, first.stmts
    ensures dbc.Valid() && second in dbc.expDesc && first !in dbc.expDesc
    ensures stmt.apd == stmt.impApd && stmt in second.stmts
  {
    hide RemoveFirst, Dbc.Tidy;
    Replace(dbc, stmt, first, second);
    RemoveFirstKeeps(dbc.expDesc, first);
    assert stmt in first.stmts;
    var rc := dbc.FreeDesc(first);
  }

  /** When such a statement is dropped, the list of the first still holds it, though it is no longer a
      statement of the connection. */
  method DropReplaced(dbc: Dbc, stmt: Stmt, first: Desc, second: Desc?)
    requires dbc.Valid() && stmt in dbc.statements && first in dbc.expDesc && first.descType != ForRows
    requires second != null ==> second in dbc.expDesc && first != second && second.descType != ForRows
    modifies dbc, stmt, dbc.expDesc
    ensures dbc.Valid() && first in dbc.expDesc && stmt !in dbc.statements
    ensures first.stmts == [stmt] + old(first.stmts) && first.descType == ForParams
    ensures stmt.apd == if second == null then stmt.impApd else second
  {
    hide RemoveFirst, Dbc.Tidy;
    Replace(dbc, stmt, first, second);
    assert stmt in first.stmts && !dbc.Uses(stmt, first) by {
      assert dbc.Linked(stmt, ForRows, stmt.ard) && !stmt.impApd.user;
    }
    dbc.DropStmt(stmt);
  }

  /** And freeing the first then resets it all the same: a write to a statement that has been dropped. */
  method FreeAfterDrop(dbc: Dbc, stmt: Stmt, first: Desc, second: Desc)
    requires dbc.Valid() && stmt in dbc.statements && first in dbc.expDesc && first.descType != ForRows
    requires second in dbc.expDesc && first != second && second.descType != ForRows
    modifies dbc, stmt, dbc.expDesc, first.stmts
    ensures dbc.Valid() && stmt !in dbc.statements && stmt in first.stmts && stmt.apd == stmt.impApd
  {
    hide RemoveFirst, Dbc.Tidy;
    DropReplaced(dbc, stmt, first, second);
    assert stmt in first.stmts;
    var rc := dbc.FreeDesc(first);
  }
}
