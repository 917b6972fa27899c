/** Alert groups: one row per (proxy, database, pattern), found through a cache with string keys.
    Models logalert and the agroup functions of src/alert.cpp. */
module Alerts {
  import opened Whitelist

  /** A row of the table `alert_group`. */
  datatype Group = Group(id: nat, proxyId: int, dbName: string, pattern: string)

  predicate SameGroup(g: Group, proxyId: int, dbName: string, pattern: string) {
    g.proxyId == proxyId && g.dbName == dbName && g.pattern == pattern
  }

  lemma SameGroupIs(g: Group, proxyId: int, dbName: string, pattern: string)
    ensures SameGroup(g, proxyId, dbName, pattern) <==> g == Group(g.id, proxyId, dbName, pattern)
  {
  }

  /** `key = proxy_id` assigns one character, then the names are appended. */
  function Key(proxyId: int, dbName: string, pattern: string): string {
    [(proxyId % 256) as char] + ("," + (dbName + ("," + pattern)))
  }

  lemma KeyInstance()
    ensures Key(65, "shop", "select ?") == "A,shop,select ?"
  {
  }

  /** Triples that keep apart: a proxy id that fits a character, no comma in the database's name; and
      texts that stay what they are between the quotes of a statement. */
  predicate Ordinary(proxyId: int, dbName: string, pattern: string) {
    0 <= proxyId < 256 && ',' !in dbName && Quotable(dbName) && Quotable(pattern)
  }

  predicate Separable(proxyId: int, dbName: string) {
    0 <= proxyId < 256 && ',' !in dbName
  }

  /** Two texts up to the first comma agree when the wholes do. */
  lemma {:induction false} SplitAtComma(a: string, b: string, c: string, d: string)
    requires ',' !in a && ',' !in c && a + ("," + b) == c + ("," + d)
    ensures a == c && b == d
  {
    var s, t := a + ("," + b), c + ("," + d);
    assert a != [] ==> s[0] == a[0] && a[0] in a;
    assert c != [] ==> t[0] == c[0] && c[0] in c;
    if a != [] && c != [] {
      assert s[1..] == a[1..] + ("," + b) && t[1..] == c[1..] + ("," + d);
      SplitAtComma(a[1..], b, c[1..], d);
      assert a == [a[0]] + a[1..] && c == [c[0]] + c[1..];
    } else {
      assert s[0] == t[0] == ',';
      assert s[1..] == b && t[1..] == d;
    }
  }

  lemma KeyInjective(p1: int, d1: string, t1: string, p2: int, d2: string, t2: string)
    requires Separable(p1, d1) && Separable(p2, d2) && Key(p1, d1, t1) == Key(p2, d2, t2)
    ensures p1 == p2 && d1 == d2 && t1 == t2
  {
    var k1, k2 := Key(p1, d1, t1), Key(p2, d2, t2);
    assert k1[0] == k2[0];
    assert k1[2..] == d1 + ("," + t1) && k2[2..] == d2 + ("," + t2);
    SplitAtComma(d1, t1, d2, t2);
  }

  /** Without these conditions keys do collide: a comma may belong to either name, and proxies 256
      apart share a character. */
  lemma KeysCollide(p: int, a: string, b: string, c: string)
    ensures Key(p, a + ("," + b), c) == Key(p, a, b + ("," + c))
    ensures Key(p, a, b) == Key(p + 256, a, b)
  {
    assert (a + ("," + b)) + ("," + c) == a + ("," + (b + ("," + c)));
  }

  datatype InsertOutcome = Failed | NoChange | Inserted

  /** No two rows for one triple. */
  ghost predicate OneGroupIn(table: seq<Group>) {
    forall i, j :: 0 <= i < j < |table| ==> !SameGroup(table[i], table[j].proxyId, table[j].dbName, table[j].pattern)
  }

  lemma AddedRow(before: seq<Group>, after: seq<Group>, proxyId: int, dbName: string, pattern: string)
    requires OneGroupIn(before)
    requires after == before
          || (|after| == |before| + 1 && before <= after && SameGroup(after[|before|], proxyId, dbName, pattern))
    ensures OneGroupIn(after) <==>
            after == before || !exists i :: 0 <= i < |before| && SameGroup(before[i], proxyId, dbName, pattern)
  {
    assert forall i :: 0 <= i < |before| ==> after[i] == before[i];
  }

  class Groups {
    var table: seq<Group>
    var nextId: nat
    var agroupmap: map<string, nat>

    /** Rows have their own non-zero ids and separable names. */
    ghost predicate ValidTable()
      reads this
    {
      && nextId > 0
      && (forall i :: 0 <= i < |table| ==> 0 < table[i].id < nextId && Separable(table[i].proxyId, table[i].dbName))
      && (forall i, j :: 0 <= i < j < |table| ==> table[i].id != table[j].id)
    }

    /** Every non-zero cached id is that of a row with the same key. */
    ghost predicate Agrees()
      reads this
    {
      forall k :: k in agroupmap && agroupmap[k] != 0 ==> NamesRow(k, agroupmap[k])
    }

    ghost predicate NamesRow(k: string, id: nat)
      reads this
    {
      exists i :: 0 <= i < |table| && table[i].id == id && KeyOf(table[i]) == k
    }

    ghost predicate OneGroupEach()
      reads this
    {
      OneGroupIn(table)
    }

    ghost predicate HasGroup(proxyId: int, dbName: string, pattern: string)
      reads this
    {
      exists i :: 0 <= i < |table| && SameGroup(table[i], proxyId, dbName, pattern)
    }

    constructor (table: seq<Group>, nextId: nat)
      requires nextId > 0
      requires forall i :: 0 <= i < |table| ==>
                 0 < table[i].id < nextId && Separable(table[i].proxyId, table[i].dbName)
      requires forall i, j :: 0 <= i < j < |table| ==> table[i].id != table[j].id
      ensures this.table == table && ValidTable() && Agrees() && agroupmap == map[]
    {
      this.table, this.nextId := table, nextId;
      agroupmap := map[];
    }

    /** A cached id other than 0 names the row with exactly the triple that was asked for. */
    lemma CachedIdNamesTriple(proxyId: int, dbName: string, pattern: string)
      requires ValidTable() && Agrees() && Separable(proxyId, dbName)
      requires Key(proxyId, dbName, pattern) in agroupmap && agroupmap[Key(proxyId, dbName, pattern)] != 0
      ensures exists i :: 0 <= i < |table| && table[i].id == agroupmap[Key(proxyId, dbName, pattern)]
                          && SameGroup(table[i], proxyId, dbName, pattern)
    {
      var k := Key(proxyId, dbName, pattern);
      var i :| 0 <= i < |table| && table[i].id == agroupmap[k] && KeyOf(table[i]) == k;
      KeyInjective(table[i].proxyId, table[i].dbName, table[i].pattern, proxyId, dbName, pattern);
    }

    method AgroupmapGet(proxyId: int, dbName: string, pattern: string) returns (id: nat)
      ensures var k := Key(proxyId, dbName, pattern); id == if k in agroupmap then agroupmap[k] else 0
    {
      var key := Key(proxyId, dbName, pattern);
      if key !in agroupmap {
        return 0;
      }
      return agroupmap[key];
    }

    /** agroup_get: the id of some row for the triple; `answers` is whether the query could be made. */
    method AgroupGet(proxyId: int, dbName: string, pattern: string, answers: bool) returns (id: nat)
      requires ValidTable()
      ensures id != 0 ==> exists i :: 0 <= i < |table| && table[i].id == id && SameGroup(table[i], proxyId, dbName, pattern)
      ensures answers && HasGroup(proxyId, dbName, pattern) ==> id != 0
    {
      if !answers {
        return 0;
      }
      if exists i :: 0 <= i < |table| && SameGroup(table[i], proxyId, dbName, pattern) {
        var i :| 0 <= i < |table| && SameGroup(table[i], proxyId, dbName, pattern);
        return table[i].id;
      }
      return 0;
    }

    /** agroup_add: insert a row, look up its id and cache it. */
    method AgroupAdd(proxyId: int, dbName: string, pattern: string, insert: InsertOutcome, answers: bool) returns (id: nat)
      requires ValidTable() && Agrees() && Ordinary(proxyId, dbName, pattern)
      modifies this
      ensures ValidTable() && Agrees()
      ensures id != 0 ==> exists i :: 0 <= i < |table| && table[i].id == id && SameGroup(table[i], proxyId, dbName, pattern)
      ensures if insert.Inserted? then
                && table == old(table) + [Group(old(nextId), proxyId, dbName, pattern)]
                && agroupmap == old(agroupmap)[Key(proxyId, dbName, pattern) := id]
                && (answers ==> id != 0)
              else table == old(table) && agroupmap == old(agroupmap) && id == 0
    {
      if insert.Failed? {
        return 0;
      }
      if insert.NoChange? {
        return 0;
      }
      InsertRow(proxyId, dbName, pattern);
      assert SameGroup(table[|table| - 1], proxyId, dbName, pattern);
      id := AgroupGet(proxyId, dbName, pattern, answers);
      var key := Key(proxyId, dbName, pattern);
      assert id != 0 ==> NamesRow(key, id);
      agroupmap := agroupmap[key := id];
    }

    method InsertRow(proxyId: int, dbName: string, pattern: string)
      requires ValidTable() && Agrees() && Separable(proxyId, dbName)
      modifies this`table, this`nextId
      ensures ValidTable() && Agrees()
      ensures table == old(table) + [Group(old(nextId), proxyId, dbName, pattern)]
    {
      ghost var before := table;
      table := table + [Group(nextId, proxyId, dbName, pattern)];
      nextId := nextId + 1;
      forall k | k in agroupmap && agroupmap[k] != 0 ensures NamesRow(k, agroupmap[k]) {
        var i :| 0 <= i < |before| && before[i].id == agroupmap[k] && KeyOf(before[i]) == k;
        assert table[i] == before[i];
      }
    }

    /** The start of logalert and of logwhitelist: find the alert's group, or make it.  `answers` and
        `answersAgain` are whether the two lookups in the table could be made. */
    method FindGroup(proxyId: int, dbName: string, pattern: string, answers: bool, insert: InsertOutcome, answersAgain: bool)
      returns (id: nat)
      requires ValidTable() && Agrees() && Ordinary(proxyId, dbName, pattern)
      modifies this
      ensures ValidTable() && Agrees()
      ensures id != 0 ==> exists i :: 0 <= i < |table| && table[i].id == id && SameGroup(table[i], proxyId, dbName, pattern)
      ensures old(table) <= table
      ensures old(OneGroupEach()) ==>
                (OneGroupEach() <==>
                   table == old(table) || !old(HasGroup(proxyId, dbName, pattern)))
      ensures answers && old(HasGroup(proxyId, dbName, pattern)) ==> table == old(table) && id != 0
      ensures !old(HasGroup(proxyId, dbName, pattern)) ==>
                if insert.Inserted? then
                  && table == old(table) + [Group(old(nextId), proxyId, dbName, pattern)]
                  && agroupmap == old(agroupmap)[Key(proxyId, dbName, pattern) := id]
                  && (answersAgain ==> id != 0)
                else table == old(table) && agroupmap == old(agroupmap) && id == 0
      ensures table == old(table) || table == old(table) + [Group(old(nextId), proxyId, dbName, pattern)]
    {
      id := AgroupmapGet(proxyId, dbName, pattern);
      if id != 0 {
        CachedIdNamesTriple(proxyId, dbName, pattern);
      }
      if id == 0 {
        id := AgroupGet(proxyId, dbName, pattern, answers);
      }
      if id == 0 {
        id := AgroupAdd(proxyId, dbName, pattern, insert, answersAgain);
        if OneGroupIn(old(table)) {
          AddedRow(old(table), table, proxyId, dbName, pattern);
        }
      }
    }

    /** agroupmap_reload: a new map from the table's rows. */
    method AgroupmapReload(answers: bool) returns (ok: bool)
      requires ValidTable() && Agrees()
      modifies this`agroupmap
      ensures ValidTable() && Agrees() && ok == answers
      ensures ok ==> forall i :: 0 <= i < |table| ==> KeyOf(table[i]) in agroupmap
      ensures ok ==> forall k :: k in agroupmap ==> agroupmap[k] != 0 && NamesRow(k, agroupmap[k])
      ensures !ok ==> agroupmap == old(agroupmap)
    {
      if !answers {
        return false;
      }
      var temp: map<string, nat> := map[];
      for i := 0 to |table|
        invariant forall k :: k in temp ==> temp[k] != 0 && NamesRow(k, temp[k])
        invariant forall j :: 0 <= j < i ==> KeyOf(table[j]) in temp
      {
        var key := Key(table[i].proxyId, table[i].dbName, table[i].pattern);
        assert NamesRow(key, table[i].id);
        temp := temp[key := table[i].id];
      }
      agroupmap := temp;
      return true;
    }

    /** Any mix of alerts and reloads, with a storage that may fail: the cache agrees with the table
        throughout, and while lookups succeed no triple ever gets two groups. */
    method Run(events: seq<Event>)
      requires ValidTable() && Agrees() && OneGroupEach()
      requires forall i :: 0 <= i < |events| && events[i].Alerted? ==>
                 Ordinary(events[i].proxyId, events[i].dbName, events[i].pattern)
      modifies this
      ensures ValidTable() && Agrees() && old(table) <= table
      ensures (forall i :: 0 <= i < |events| && events[i].Alerted? ==> events[i].answers) ==> OneGroupEach()
    {
      for i := 0 to |events|
        invariant ValidTable() && Agrees() && old(table) <= table
        invariant (forall k :: 0 <= k < i && events[k].Alerted? ==> events[k].answers) ==> OneGroupEach()
      {
        match events[i]
        case Alerted(p, d, t, answers, insert, again) =>
          var id := FindGroup(p, d, t, answers, insert, again);
        case Reloaded(answers) =>
          var ok := AgroupmapReload(answers);
      }
    }
  }

  function KeyOf(g: Group): string {
    Key(g.proxyId, g.dbName, g.pattern)
  }

  datatype Event =
    | Alerted(proxyId: int, dbName: string, pattern: string, answers: bool, insert: InsertOutcome, again: bool)
    | Reloaded(answers: bool)
}
