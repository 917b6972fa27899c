/** Which permission object serves a connection: the map of src/dbmap.cpp, its keys and fallbacks. */
module DbMap {

  predicate AllDigits(s: string) {
    forall i :: 0 <= i < |s| ==> '0' <= s[i] <= '9'
  }

  /** itoa: decimal digits, a minus sign before a negative number. */
  function Itoa(n: int): (s: string)
    ensures s != [] && (s[0] == '-' || '0' <= s[0] <= '9') && forall i :: 0 <= i < |s| ==> s[i] != ','
  {
    if n < 0 then "-" + Digits(-n) else Digits(n)
  }

  function Digits(n: nat): (s: string)
    ensures s != [] && AllDigits(s)
  {
    if n < 10 then [Digit(n)] else Digits(n / 10) + [Digit(n % 10)]
  }

  function Digit(d: nat): (c: char)
    requires d < 10
    ensures '0' <= c <= '9'
  {
    '0' + d as char
  }

  function ValueOf(s: string): nat
    requires AllDigits(s)
  {
    if s == [] then 0 else 10 * ValueOf(s[..|s| - 1]) + (s[|s| - 1] - '0') as nat
  }

  lemma {:induction false} DigitsRoundTrip(n: nat)
    ensures ValueOf(Digits(n)) == n
  {
    if n >= 10 {
      DigitsRoundTrip(n / 10);
      assert Digits(n)[..|Digits(n)| - 1] == Digits(n / 10);
    }
  }

  lemma ItoaInjective(m: int, n: int)
    requires Itoa(m) == Itoa(n)
    ensures m == n
  {
    assert m < 0 ==> Itoa(m)[0] == '-' && Itoa(m)[1..] == Digits(-m);
    assert n < 0 ==> Itoa(n)[0] == '-' && Itoa(n)[1..] == Digits(-n);
    DigitsRoundTrip(if m < 0 then -m else m);
    DigitsRoundTrip(if n < 0 then -n else n);
  }

  /** The key of a proxied database: the proxy's number, a comma, the database's name. */
  function Key(proxyId: int, dbName: string): string {
    Itoa(proxyId) + ("," + dbName)
  }

  lemma KeyInstance()
    ensures Key(12, "shop") == "12,shop" && Key(-3, "") == "-3,"
  {
    assert Digits(12) == Digits(1) + "2" && Digits(1) == "1" && Digits(3) == "3";
  }

  const EMPTY_MYSQL := "empty_mysql"
  const DEFAULT_MYSQL := "default_mysql"
  const DEFAULT_PGSQL := "default_pgsql"

  /** Numbers hold no comma, so the first comma splits a key: every database has its own. */
  lemma KeyInjective(p1: int, d1: string, p2: int, d2: string)
    requires Key(p1, d1) == Key(p2, d2)
    ensures p1 == p2 && d1 == d2
  {
    var a, b, k := Itoa(p1), Itoa(p2), Key(p1, d1);
    assert k[|a|] == ',' && k[|b|] == ',';
    assert forall i :: 0 <= i < |a| ==> k[i] == a[i];
    assert forall i :: 0 <= i < |b| ==> k[i] == b[i];
    assert |a| == |b|;
    assert k[..|a|] == a && k[..|b|] == b;
    assert k[|a| + 1..] == d1 && k[|b| + 1..] == d2;
    ItoaInjective(p1, p2);
  }

  /** No database can take the place of a default: keys start with a digit or a minus sign. */
  lemma KeyIsNoDefault(proxyId: int, dbName: string)
    ensures Key(proxyId, dbName) !in {EMPTY_MYSQL, DEFAULT_MYSQL, DEFAULT_PGSQL}
  {
    assert Key(proxyId, dbName)[0] == Itoa(proxyId)[0];
    assert EMPTY_MYSQL[0] == 'e' && DEFAULT_MYSQL[0] == 'd' && DEFAULT_PGSQL[0] == 'd';
  }

  /** dbmap_find over the map `dbs`, with `defaultDb` as the last resort. */
  method Find<T>(dbs: map<string, T>, defaultDb: T, proxyId: int, dbName: string, dbType: string) returns (db: T)
    ensures Key(proxyId, dbName) in dbs ==> db == dbs[Key(proxyId, dbName)]
    ensures Key(proxyId, dbName) !in dbs && dbType == "mysql" ==>
              var k := if dbName == "" then "empty_mysql" else "default_mysql";
              db == if k in dbs then dbs[k] else defaultDb
    ensures Key(proxyId, dbName) !in dbs && dbType == "pgsql" ==>
              db == if "default_pgsql" in dbs then dbs["default_pgsql"] else defaultDb
    ensures Key(proxyId, dbName) !in dbs && dbType != "mysql" && dbType != "pgsql" ==> db == defaultDb
  {
    var key := Key(proxyId, dbName);
    if key in dbs {
      return dbs[key];
    }
    // no settings of its own: the default of its kind
    if dbType == "mysql" {
      if |dbName| == 0 {
        key := EMPTY_MYSQL;
      } else {
        key := DEFAULT_MYSQL;
      }
    } else if dbType == "pgsql" {
      key := DEFAULT_PGSQL;
    }
    if key in dbs {
      return dbs[key];
    }
    return defaultDb;
  }

  /** Settings stored for one database, or for a default, never change what another one finds. */
  lemma OthersUndisturbed<T>(dbs: map<string, T>, p1: int, d1: string, p2: int, d2: string, x: T)
    requires p1 != p2 || d1 != d2
    ensures var now := dbs[Key(p1, d1) := x];
            && (Key(p2, d2) in now <==> Key(p2, d2) in dbs)
            && (Key(p2, d2) in dbs ==> now[Key(p2, d2)] == dbs[Key(p2, d2)])
            && (forall k :: k in {EMPTY_MYSQL, DEFAULT_MYSQL, DEFAULT_PGSQL} ==>
                  (k in now <==> k in dbs) && (k in dbs ==> now[k] == dbs[k]))
  {
    if Key(p1, d1) == Key(p2, d2) {
      KeyInjective(p1, d1, p2, d2);
    }
    KeyIsNoDefault(p1, d1);
  }
}
