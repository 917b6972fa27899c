/** The MySQL packets that are looked into: the server's greeting (Protocol::HandshakeV10), whose
    capabilities are rewritten, and the client's login (Protocol::HandshakeResponse41 and older). */
module MySqlPackets {
  import opened Wire

  /** The three length bytes, low byte first, and four more for the header itself. */
  function PacketSize(s: seq<byte>, at: nat): (n: nat)
    requires at + 3 <= |s|
    ensures n >= 4
  {
    (s[at + 2] as int) * 0x1_0000 + (s[at + 1] as int) * 0x100 + s[at] as int + 4
  }

  // ---------------------------------------------------------------- the greeting

  const CON_COMPRESS: nat := 0x20
  const CON_SSL: nat := 0x800

  /** Bit k of a word, the lowest one being bit 0. */
  function Bit(word: nat, k: nat): (b: nat)
    ensures b < 2
  {
    if k == 0 then word % 2 else Bit(word / 2, k - 1)
  }

  function Pow2(k: nat): nat {
    if k == 0 then 1 else 2 * Pow2(k - 1)
  }

  /** Length of the version string, cut to the packet. */
  function VersionLength(g: seq<byte>): (n: nat)
    requires |g| > 5
    ensures n <= |g| - 5
  {
    CStringLength(g, 5)
  }

  /** A greeting that is rewritten; anything shorter is passed on as it is. */
  predicate IsGreeting(g: seq<byte>) {
    |g| > 23 && VersionLength(g) + 20 <= |g|
  }

  /** The 16-bit capability word, low byte first. */
  function Capabilities(g: seq<byte>): (word: nat)
    requires IsGreeting(g)
    ensures word < 0x1_0000
  {
    (ByteAt(g, VersionLength(g) + 20) as int) * 0x100 + ByteAt(g, VersionLength(g) + 19) as int
  }

  /** `flags & ~(1 << k)`. */
  function WithoutBit(flags: nat, k: nat): (r: nat)
    ensures r <= flags
  {
    WithoutBitLowers(flags, k);
    if Bit(flags, k) == 1 then flags - Pow2(k) else flags
  }

  lemma {:induction false} WithoutBitLowers(w: nat, n: nat)
    ensures Bit(w, n) == 1 ==> Pow2(n) <= w
  {
    if n > 0 {
      WithoutBitLowers(w / 2, n - 1);
    }
  }

  function Rewrite(g: seq<byte>): (r: seq<byte>)
    requires IsGreeting(g)
    ensures |r| == |g|
  {
    var v := VersionLength(g);
    var flags := WithoutBit(WithoutBit(Capabilities(g), 5), 11);
    var r := g[v + 19 := flags % 0x100];
    // One past the packet is its terminating NUL, which stays.
    if v + 20 < |g| then r[v + 20 := flags / 0x100] else r
  }

  method RewriteGreeting(data: seq<byte>) returns (response: seq<byte>)
    requires IsGreeting(data)
    ensures response == Rewrite(data)
  {
    FlagValues();
    var srvLen := VersionLength(data);
    var serverFlags: nat := (ByteAt(data, srvLen + 20) as int) * 0x100 + ByteAt(data, srvLen + 19) as int;
    response := data;
    WithoutBitLowers(serverFlags, 5);
    if Bit(serverFlags, 5) == 1 {
      serverFlags := serverFlags - CON_COMPRESS;
    }
    WithoutBitLowers(serverFlags, 11);
    if Bit(serverFlags, 11) == 1 {
      serverFlags := serverFlags - CON_SSL;
    }
    response := response[srvLen + 19 := serverFlags % 0x100];
    if srvLen + 20 < |response| {
      response := response[srvLen + 20 := serverFlags / 0x100];
    }
  }

  lemma FlagValues()
    ensures Pow2(5) == CON_COMPRESS && Pow2(11) == CON_SSL
  {
    assert Pow2(3) == 8 && Pow2(6) == 64 && Pow2(9) == 512;
  }

  /** Clearing a bit clears that bit and no other. */
  lemma {:induction false} BitCleared(w: nat, n: nat, k: nat)
    ensures Bit(WithoutBit(w, n), k) == if k == n then 0 else Bit(w, k)
    decreases n
  {
    WithoutBitLowers(w, n);
    if n > 0 {
      WithoutBitLowers(w / 2, n - 1);
      assert WithoutBit(w, n) / 2 == WithoutBit(w / 2, n - 1);
      assert WithoutBit(w, n) % 2 == w % 2;
      if k > 0 {
        BitCleared(w / 2, n - 1, k - 1);
      }
    } else if Bit(w, 0) == 1 {
      assert WithoutBit(w, 0) / 2 == w / 2;
    }
  }

  /** The rewritten greeting is the same packet but for its two capability bytes, in which exactly the
      bits 0x20 and 0x800 have been cleared. */
  lemma GreetingRewritten(g: seq<byte>)
    requires IsGreeting(g) && VersionLength(g) + 21 <= |g|
    ensures var r := Rewrite(g);
            && |r| == |g|
            && (forall i :: 0 <= i < |g| && i != VersionLength(g) + 19 && i != VersionLength(g) + 20 ==> r[i] == g[i])
            && IsGreeting(r)
            && (forall k :: Bit(Capabilities(r), k) == if k == 5 || k == 11 then 0 else Bit(Capabilities(g), k))
  {
    var r := Rewrite(g);
    CStringLengthIs(r, 5, VersionLength(g));
    var w := Capabilities(g);
    forall k ensures Bit(Capabilities(r), k) == if k == 5 || k == 11 then 0 else Bit(w, k) {
      BitCleared(w, 5, k);
      BitCleared(WithoutBit(w, 5), 11, k);
    }
  }

  // ---------------------------------------------------------------- the login

  /** What the login packet tells: the two names, and the connection's flags afterwards. */
  datatype Login = Login(user: seq<byte>, database: seq<byte>, firstRequest: bool, secondPacket: bool)

  /** client_flags & MYSQL_CON_PROTOCOL_V41 (0x200). */
  predicate UsesProtocol41(data: seq<byte>)
    requires |data| >= 8
  {
    Bit((data[5] as int) * 0x100 + data[4] as int, 9) == 1
  }

  /** a - b on 64-bit unsigned numbers, for a - b >= -1: zero less one wraps to the largest. */
  function SizeLess(a: nat, b: nat): nat
    requires b <= a + 1
  {
    if b <= a then a - b else 0xFFFF_FFFF_FFFF_FFFF
  }

  function Min(a: nat, b: nat): nat {
    if a <= b then a else b
  }

  /** The 4.1 login: user at offset 36, then the password with its length byte, then the database.
      `data` is the whole buffer, of which the packet is the first `size` bytes. */
  function Login41(data: seq<byte>, size: nat): Login
    requires 36 < size <= |data| < 0x1_0000_0000
  {
    var userLen := CStringLength(data, 36);
    if userLen + 36 > size then Login(data[36..size - 1], [], false, true)
    else if userLen + 36 + 1 >= size then Login([], [], true, false)
    else
      var user := data[36..36 + userLen];
      var pwdSize := data[userLen + 36 + 1] as nat;
      if pwdSize == 0 then
        var dbLen := Min(CStringLength(data, userLen + 38), SizeLess(size - userLen - 37, 2));
        Login(user, data[userLen + 38..userLen + 38 + dbLen], false, true)
      else if userLen + 36 + pwdSize + 2 < size then
        var at := userLen + 36 + pwdSize + 2;
        var dbLen := Min(CStringLength(data, at), size - at - 1);
        Login(user, data[at..at + dbLen], false, true)
      else Login(user, [], false, true)
  }

  /** Length of the text up to the next NUL or the end of the packet. */
  function BoundedLength(data: seq<byte>, from: nat, size: nat): (n: nat)
    requires from <= size <= |data|
    ensures from + n <= size
    decreases size - from
  {
    if from < size && data[from] != 0 then 1 + BoundedLength(data, from + 1, size) else 0
  }

  /** The older login: user at offset 9, then the password, then the database. */
  function LoginOld(data: seq<byte>, size: nat): Login
    requires 10 < size <= |data|
  {
    var userLen := Min(CStringLength(data, 9), size - 9);
    var user := data[9..9 + userLen];
    var at := 9 + userLen + 1;
    if at > size then Login(user, [], false, false)
    else
      var pwdEnd := at + BoundedLength(data, at, size);
      if pwdEnd == size || pwdEnd + 1 == size then Login(user, [], false, false)
      else
        var dbLen := BoundedLength(data, pwdEnd + 1, size);
        Login(user, data[pwdEnd + 1..pwdEnd + 1 + dbLen], false, true)
  }

  function LoginOf(data: seq<byte>, size: nat): Login
    requires 10 <= size <= |data| < 0x1_0000_0000
  {
    if UsesProtocol41(data) && size > 36 then Login41(data, size)
    else if size > 10 then LoginOld(data, size)
    else Login([], [], false, true)
  }

  /** ParseRequestPacket on the first request.  `first` and `second` are first_request and
      SecondPacket afterwards. */
  method ParseLogin(data: seq<byte>, requestSize: nat, oldUser: seq<byte>, oldName: seq<byte>)
    returns (dbUser: seq<byte>, dbName: seq<byte>, first: bool, second: bool)
    requires 4 <= requestSize <= |data| < 0x1_0000_0000
    ensures requestSize < 10 ==> Login(dbUser, dbName, first, second) == Login(oldUser, oldName, true, false)
    ensures requestSize >= 10 ==> Login(dbUser, dbName, first, second) == LoginOf(data, requestSize)
  {
    if requestSize < 10 {
      return oldUser, oldName, true, false;
    }
    if UsesProtocol41(data) && requestSize > 36 {
      dbUser, dbName, first, second := ParseLogin41(data, requestSize);
    } else if requestSize > 10 {
      dbUser, dbName, first, second := ParseLoginOld(data, requestSize);
    } else {
      dbUser, dbName, first, second := [], [], false, true;
    }
  }

  method ParseLogin41(data: seq<byte>, requestSize: nat)
    returns (dbUser: seq<byte>, dbName: seq<byte>, first: bool, second: bool)
    requires 36 < requestSize <= |data| < 0x1_0000_0000
    ensures Login(dbUser, dbName, first, second) == Login41(data, requestSize)
  {
    hide CStringLength;
    dbUser, dbName, first, second := [], [], true, false;
    var userLen := CStringLength(data, 36);
    if userLen + 36 > requestSize {
      userLen := requestSize - 37;
      dbUser := data[36..36 + userLen];
    } else {
      // the user takes up all of the packet
      if userLen + 36 + 1 >= requestSize {
        return;
      }
      dbUser := data[36..36 + userLen];
      var pwdSize := data[userLen + 36 + 1] as nat;
      if pwdSize == 0 {
        var dbNameLen := CStringLength(data, userLen + 36 + 2);
        if dbNameLen > 0 {
          if dbNameLen > SizeLess(requestSize - userLen - 37, 2) {
            dbNameLen := SizeLess(requestSize - userLen - 37, 2);
          }
          dbName := data[userLen + 36 + 2..userLen + 36 + 2 + dbNameLen];
        }
      } else if userLen + 36 + pwdSize + 2 < requestSize {
        var dbNameLen := CStringLength(data, userLen + 36 + pwdSize + 2);
        if dbNameLen > requestSize - userLen - 36 - pwdSize - 3 {
          dbNameLen := requestSize - userLen - 36 - pwdSize - 3;
        }
        dbName := data[userLen + 36 + pwdSize + 2..userLen + 36 + pwdSize + 2 + dbNameLen];
      }
    }
    first, second := false, true;
  }

  method ParseLoginOld(data: seq<byte>, requestSize: nat)
    returns (dbUser: seq<byte>, dbName: seq<byte>, first: bool, second: bool)
    requires 10 < requestSize <= |data|
    ensures Login(dbUser, dbName, first, second) == LoginOld(data, requestSize)
  {
    hide CStringLength, BoundedLength;
    dbUser, dbName, first, second := [], [], false, false;
    var userLen := CStringLength(data, 9);
    if userLen > requestSize - 9 {
      userLen := requestSize - 9;
    }
    if userLen != 0 {
      dbUser := data[9..9 + userLen];
    }
    var temp := 9 + userLen + 1;
    if temp > requestSize {
      return;
    }
    temp := SkipText(data, temp, requestSize);
    if temp == requestSize {
      return;
    }
    temp := temp + 1;
    if temp == requestSize {
      return;
    }
    var end := SkipText(data, temp, requestSize);
    dbName := data[temp..end];
    second := true;
  }

  method SkipText(data: seq<byte>, from: nat, size: nat) returns (end: nat)
    requires from <= size <= |data|
    ensures end == from + BoundedLength(data, from, size)
  {
    end := from;
    while end < size && data[end] != 0
      invariant from <= end <= size
      invariant from + BoundedLength(data, from, size) == end + BoundedLength(data, end, size)
    {
      end := end + 1;
    }
  }

  // ---------------------------------------------------------------- printing a login

  /** The fixed part: the 4.1 flag is set. */
  predicate ValidHeader(header: seq<byte>) {
    |header| == 36 && UsesProtocol41(header)
  }

  /** A login with its database, and whatever the client puts after it. */
  function LoginPacket(header: seq<byte>, user: seq<byte>, password: seq<byte>, database: seq<byte>,
                       more: seq<byte>): seq<byte>
    requires |password| < 256
  {
    header + (user + ([0, |password|] + (password + (database + ([0] + more)))))
  }

  /** A login that names no database ends in the password, apart from what else the client adds. */
  function LoginPacketWithoutDatabase(header: seq<byte>, user: seq<byte>, password: seq<byte>,
                                      more: seq<byte>): seq<byte>
    requires |password| < 256
  {
    header + (user + ([0, |password|] + (password + more)))
  }

  lemma HeaderPart(header: seq<byte>, rest: seq<byte>)
    requires ValidHeader(header)
    ensures UsesProtocol41(header + rest)
  {
    assert (header + rest)[4] == header[4] && (header + rest)[5] == header[5];
  }

  /** Text that is followed by a NUL, or by nothing, is read back from its place. */
  lemma {:induction false} TextAt(before: seq<byte>, text: seq<byte>, after: seq<byte>)
    requires NulFree(text) && (after == [] || after[0] == 0)
    ensures var s := before + (text + after);
            CStringLength(s, |before|) == |text| && s[|before|..|before| + |text|] == text
  {
    var s := before + (text + after);
    assert forall i :: 0 <= i < |text| ==> s[|before| + i] == text[i];
    CStringLengthIs(s, |before|, |text|);
  }

  /** A login read from a buffer gives back the user and the database it was printed with, whatever
      the password, what follows the database and what follows the packet. */
  lemma LoginRoundTrip(header: seq<byte>, user: seq<byte>, password: seq<byte>, database: seq<byte>,
                       more: seq<byte>, next: seq<byte>)
    requires ValidHeader(header) && |password| < 256 && NulFree(user) && NulFree(database)
    requires |LoginPacket(header, user, password, database, more) + next| < 0x1_0000_0000
    ensures var packet := LoginPacket(header, user, password, database, more);
            LoginOf(packet + next, |packet|) == Login(user, database, false, true)
  {
    hide LoginPacket, Login41, CStringLength, Bit;
    var packet := LoginPacket(header, user, password, database, more);
    var data := packet + next;
    var tail := [0] + (more + next);
    var afterUser := [0, |password|] + (password + (database + tail));
    var before := header + (user + ([0, |password|] + password));
    LoginLayout(header, user, password, database, more, next);
    HeaderPart(header, user + afterUser);
    TextAt(header, user, afterUser);
    TextAt(before, database, tail);
    Login41From(data, |packet|, |user|, |password|, |database|);
  }

  /** The places where a login's parts are, once its lengths are known. */
  lemma Login41From(data: seq<byte>, size: nat, u: nat, p: nat, d: nat)
    requires u + 38 + p + d < size <= |data| < 0x1_0000_0000
    requires CStringLength(data, 36) == u && data[u + 37] == p && CStringLength(data, u + 38 + p) == d
    ensures Login41(data, size) == Login(data[36..36 + u], data[u + 38 + p..u + 38 + p + d], false, true)
  {
  }

  lemma LoginLayout(header: seq<byte>, user: seq<byte>, password: seq<byte>, database: seq<byte>,
                    more: seq<byte>, next: seq<byte>)
    requires |header| == 36 && |password| < 256
    ensures var data := LoginPacket(header, user, password, database, more) + next;
            var tail := [0] + (more + next);
            var afterUser := [0, |password|] + (password + (database + tail));
            var before := header + (user + ([0, |password|] + password));
            && data == header + (user + afterUser)
            && data == before + (database + tail)
            && |before| == |user| + 38 + |password|
            && data[36 + |user| + 1] == |password|
  {
    var data := LoginPacket(header, user, password, database, more) + next;
    var afterUser := [0, |password|] + (password + (database + ([0] + (more + next))));
    assert data == header + (user + afterUser);
    assert data[36 + |user| + 1] == afterUser[1];
  }

  /** Without a database the text after the password is taken for one: none is reported exactly when
      nothing, or an empty text, follows.  Where there is no password either, and nothing after it, the
      length limit wraps, and the text is looked for behind the packet. */
  lemma LoginWithoutDatabase(header: seq<byte>, user: seq<byte>, password: seq<byte>, more: seq<byte>, next: seq<byte>)
    requires ValidHeader(header) && |password| < 256 && NulFree(user)
    requires |LoginPacketWithoutDatabase(header, user, password, more) + next| < 0x1_0000_0000
    ensures var packet := LoginPacketWithoutDatabase(header, user, password, more);
            var r := LoginOf(packet + next, |packet|);
            && r.user == user
            && (r.database == [] <==> if password == [] && more == [] then next == [] || next[0] == 0
                                      else |more| <= 1 || more[0] == 0)
  {
    hide LoginPacketWithoutDatabase, Login41, Bit, CStringLength;
    var packet := LoginPacketWithoutDatabase(header, user, password, more);
    var data := packet + next;
    var afterUser := [0, |password|] + (password + (more + next));
    LayoutWithoutDatabase(header, user, password, more, next);
    HeaderPart(header, user + afterUser);
    TextAt(header, user, afterUser);
    Login41Without(data, |packet|, |user|, |password|);
  }

  lemma LayoutWithoutDatabase(header: seq<byte>, user: seq<byte>, password: seq<byte>, more: seq<byte>, next: seq<byte>)
    requires |header| == 36 && |password| < 256
    ensures var packet := LoginPacketWithoutDatabase(header, user, password, more);
            var data := packet + next;
            var at := |user| + 38 + |password|;
            && data == header + (user + ([0, |password|] + (password + (more + next))))
            && |packet| == at + |more| && data[|user| + 37] == |password|
            && (more != [] ==> data[at] == more[0]) && (more == [] && next != [] ==> data[at] == next[0])
  {
    var data := LoginPacketWithoutDatabase(header, user, password, more) + next;
    var afterUser := [0, |password|] + (password + (more + next));
    assert data == header + (user + afterUser);
    assert data[36 + |user| + 1] == afterUser[1];
    var before := header + (user + ([0, |password|] + password));
    assert data == before + (more + next);
    assert more + next != [] ==> data[|before|] == (more + next)[0];
  }

  /** A user of u bytes and a password of p, and then the packet's end or some text. */
  lemma Login41Without(data: seq<byte>, size: nat, u: nat, p: nat)
    requires u + 38 + p <= size <= |data| < 0x1_0000_0000
    requires CStringLength(data, 36) == u && data[u + 37] == p
    ensures var at := u + 38 + p;
            var r := Login41(data, size);
            && r.user == data[36..36 + u]
            && (r.database == [] <==> if p == 0 && size == at then at == |data| || data[at] == 0
                                      else size <= at + 1 || data[at] == 0)
  {
  }

  /** Such a login, with the start of another packet behind it: the database is that packet's first byte. */
  lemma LoginReadsOn(header: seq<byte>)
    requires ValidHeader(header)
    ensures var packet := LoginPacketWithoutDatabase(header, [114], [], []);
            |packet| == 39 && LoginOf(packet + [1, 0, 0, 0, 14], 39).database == [1]
  {
    var packet := LoginPacketWithoutDatabase(header, [114], [], []);
    var data := packet + [1, 0, 0, 0, 14];
    assert data == header + [114, 0, 0, 1, 0, 0, 0, 14];
    HeaderPart(header, [114, 0, 0, 1, 0, 0, 0, 14]);
    CStringLengthIs(data, 36, 1);
    CStringLengthIs(data, 39, 1);
    assert data[39..40] == [1];
  }
}
