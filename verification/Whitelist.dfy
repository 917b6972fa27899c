/** The whitelist of one database: a cached map, reloaded from a table that learning writes to.
    Models src/dbpermobj.cpp. */
module Whitelist {

  /** A row of the table `query`. */
  datatype Row = Row(proxyId: int, dbName: string, query: string, perm: int)

  /** DBBlockStatus; the table may hold any other number, which behaves like simulation. */
  datatype Mode = RiskBlock | PrivilegeBlock | RiskSimulation | PrivilegeSimulation | AlwaysBlockNew
                | Learning | Learning3Days | Learning7Days | OtherMode(code: int)

  /** A pattern that stays what it is between the quotes of an SQL literal. */
  predicate Quotable(p: string) {
    forall c :: c in p ==> c != '\'' && c != '"' && c != '\\'
  }

  lemma QuotableIs(p: string)
    ensures Quotable(p) <==> forall c :: c in p ==> c !in "'\"\\"
  {
  }

  predicate Matches(r: Row, proxyId: int, dbName: string, query: string) {
    r.proxyId == proxyId && r.dbName == dbName && r.query == query
  }

  /** Is there a row for the pattern, and one that permits it? */
  predicate HasRow(table: seq<Row>, proxyId: int, dbName: string, query: string) {
    exists i :: 0 <= i < |table| && Matches(table[i], proxyId, dbName, query)
  }

  predicate HasActiveRow(table: seq<Row>, proxyId: int, dbName: string, query: string) {
    exists i :: 0 <= i < |table| && Matches(table[i], proxyId, dbName, query) && table[i].perm > 0
  }

  /** What makes a pattern permitted: a row with the proxy, the database and the pattern whose number is
      positive. */
  lemma ActiveRowIs(table: seq<Row>, proxyId: int, dbName: string, query: string)
    ensures HasActiveRow(table, proxyId, dbName, query) <==>
            exists perm :: perm > 0 && Row(proxyId, dbName, query, perm) in table
    ensures HasRow(table, proxyId, dbName, query) <==> exists perm :: Row(proxyId, dbName, query, perm) in table
  {
    if i :| 0 <= i < |table| && Matches(table[i], proxyId, dbName, query) {
      assert table[i] == Row(proxyId, dbName, query, table[i].perm);
    }
    if i :| 0 <= i < |table| && Matches(table[i], proxyId, dbName, query) && table[i].perm > 0 {
      assert table[i] == Row(proxyId, dbName, query, table[i].perm);
    }
  }

  lemma RowsStay(table: seq<Row>, later: seq<Row>, proxyId: int, dbName: string, query: string)
    requires table <= later
    ensures HasRow(table, proxyId, dbName, query) ==> HasRow(later, proxyId, dbName, query)
    ensures HasActiveRow(table, proxyId, dbName, query) ==> HasActiveRow(later, proxyId, dbName, query)
  {
    assert forall i :: 0 <= i < |table| ==> later[i] == table[i];
  }

  /** The table, behind statements that may fail. */
  class Storage {
    var table: seq<Row>

    constructor (table: seq<Row>)
      ensures this.table == table
    {
      this.table := table;
    }

    /** What the storage reads between the quotes of '...'.  A pattern with a quote or a backslash
        may come out as any other text, or break the statement. */
    method ReadLiteral(p: string) returns (ok: bool, text: string)
      ensures Quotable(p) ==> ok && text == p
    {
      ok, text := true, p;
      if !(forall c :: c in p ==> c != '\'' && c != '"' && c != '\\') {
        ok := *;
        text := *;
      }
    }

    method Insert(r: Row)
      modifies this
      ensures table == old(table) + [r]
    {
      table := table + [r];
    }
  }

  class DBPermObj {
    const proxyId: int
    const dbName: string
    var blockStatus: Mode
    var exceptions: map<string, int>

    constructor (proxyId: int, dbName: string)
      ensures this.proxyId == proxyId && this.dbName == dbName
      ensures blockStatus == RiskBlock && exceptions == map[]
    {
      this.proxyId, this.dbName := proxyId, dbName;
      blockStatus, exceptions := RiskBlock, map[];
    }

    /** The cache holds exactly the non-empty patterns with an active row. */
    ghost predicate Mirrors(table: seq<Row>)
      reads this
    {
      forall q :: q in exceptions <==> q != [] && HasActiveRow(table, proxyId, dbName, q)
    }

    ghost predicate PositivePerms()
      reads this
    {
      forall q :: q in exceptions ==> exceptions[q] > 0
    }

    /** `succeeds` is whether the query could be made; when it could not, the old cache stays. */
    method LoadWhitelist(storage: Storage, succeeds: bool) returns (ok: bool)
      modifies this`exceptions
      ensures ok == succeeds
      ensures ok ==> Mirrors(storage.table) && PositivePerms()
      ensures !ok ==> exceptions == old(exceptions)
    {
      if !succeeds {
        return false;
      }
      var table := storage.table;
      var qList: map<string, int> := map[];
      for i := 0 to |table|
        invariant forall q :: q in qList <==> q != [] && HasActiveRow(table[..i], proxyId, dbName, q)
        invariant forall q :: q in qList ==> qList[q] > 0
      {
        var r := table[i];
        ActiveRowStep(table, i, proxyId, dbName);
        if r.proxyId == proxyId && r.dbName == dbName {
          if r.perm > 0 && |r.query| > 0 {
            // map::insert keeps an entry that is already there
            if r.query !in qList {
              qList := qList[r.query := r.perm];
            }
          }
        }
      }
      assert table[..|table|] == table;
      exceptions := qList;
      return true;
    }

    method CheckWhitelist(q: string) returns (perm: int)
      ensures perm == if q in exceptions then exceptions[q] else 0
    {
      if q !in exceptions {
        return 0;
      }
      return exceptions[q];
    }

    /** Add the pattern unless a row for it, active or not, is there. */
    method AddToWhitelist(storage: Storage, pattern: string, succeeds: bool) returns (ok: bool)
      modifies storage
      ensures old(storage.table) <= storage.table
      ensures ok && Quotable(pattern) ==>
                storage.table == old(storage.table) +
                  if HasRow(old(storage.table), proxyId, dbName, pattern) then [] else [Row(proxyId, dbName, pattern, 1)]
      ensures ok && Quotable(pattern) ==>
                && HasRow(storage.table, proxyId, dbName, pattern)
                && (HasActiveRow(storage.table, proxyId, dbName, pattern) <==>
                      HasActiveRow(old(storage.table), proxyId, dbName, pattern)
                      || !HasRow(old(storage.table), proxyId, dbName, pattern))
      ensures succeeds && Quotable(pattern) ==> ok
      ensures !succeeds ==> !ok && storage.table == old(storage.table)
    {
      var before := storage.table;
      if !succeeds {
        return false;
      }
      var read, text := storage.ReadLiteral(pattern);
      if !read {
        return false;
      }
      if exists i :: 0 <= i < |before| && Matches(before[i], proxyId, dbName, text) {
        return true;
      }
      storage.Insert(Row(proxyId, dbName, text, 1));
      assert storage.table[|before|] == Row(proxyId, dbName, text, 1);
      return true;
    }
  }

  lemma ActiveRowStep(table: seq<Row>, i: nat, proxyId: int, dbName: string)
    requires i < |table|
    ensures forall q :: HasActiveRow(table[..i + 1], proxyId, dbName, q) <==>
                        HasActiveRow(table[..i], proxyId, dbName, q)
                        || (Matches(table[i], proxyId, dbName, q) && table[i].perm > 0)
  {
    forall q
      ensures HasActiveRow(table[..i + 1], proxyId, dbName, q) <==>
              HasActiveRow(table[..i], proxyId, dbName, q)
              || (Matches(table[i], proxyId, dbName, q) && table[i].perm > 0)
    {
      assert table[..i + 1] == table[..i] + [table[i]];
      assert table[..i + 1][i] == table[i];
      if HasActiveRow(table[..i], proxyId, dbName, q) {
        RowsStay(table[..i], table[..i + 1], proxyId, dbName, q);
      }
      assert forall k :: 0 <= k < i ==> table[..i + 1][k] == table[..i][k];
    }
  }
}
