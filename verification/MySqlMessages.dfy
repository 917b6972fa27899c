/** MySQL traffic as the packets it is printed from (MySQL Client/Server Protocol, "MySQL Packets" and
    "Connection Phase Packets"): what src/mysql/mysql_con.cpp passes on is said packet by packet. */
module MySqlMessages {
  import opened Sequences
  import opened Wire
  import opened MySqlPackets
  import opened Traffic

  /** The sequence number and the body, whose length three bytes hold. */
  datatype Packet = Packet(id: byte, body: seq<byte>)

  predicate Sendable(p: Packet) {
    |p.body| < 0x100_0000
  }

  /** Low byte first. */
  function Printed(p: Packet): (s: seq<byte>)
    requires Sendable(p)
    ensures |s| == |p.body| + 4
  {
    [|p.body| % 0x100, |p.body| / 0x100 % 0x100, |p.body| / 0x1_0000, p.id] + p.body
  }

  predicate AllSendable(ps: seq<Packet>) {
    forall i :: 0 <= i < |ps| ==> Sendable(ps[i])
  }

  function PrintedAll(ps: seq<Packet>): seq<byte>
    requires AllSendable(ps)
  {
    if ps == [] then [] else Printed(ps[0]) + PrintedAll(ps[1..])
  }

  /** Any packets, and the first `cut` bytes of one more. */
  function Stretch(ps: seq<Packet>, p: Packet, cut: nat): seq<byte>
    requires AllSendable(ps) && Sendable(p) && cut < |Printed(p)|
  {
    PrintedAll(ps) + Printed(p)[..cut]
  }

  lemma LengthBytes(n: nat)
    requires n < 0x100_0000
    ensures n / 0x1_0000 * 0x1_0000 + n / 0x100 % 0x100 * 0x100 + n % 0x100 == n
  {
    var a := n / 0x100;
    assert n == a * 0x100 + n % 0x100;
    assert n / 0x1_0000 == a / 0x100 && a == a / 0x100 * 0x100 + a % 0x100;
  }

  /** At a printed packet the parser reads its own size, also when only its header is there. */
  lemma SizeRead(before: seq<byte>, p: Packet, rest: seq<byte>)
    requires Sendable(p)
    ensures var s := before + (Printed(p) + rest);
            && PacketSize(s, |before|) == |Printed(p)|
            && s[|before|..|before| + |Printed(p)|] == Printed(p) && s[|before| + |Printed(p)|..] == rest
  {
    LengthBytes(|p.body|);
    var s := before + (Printed(p) + rest);
    var n := |before|;
    assert s[n] == Printed(p)[0] && s[n + 1] == Printed(p)[1] && s[n + 2] == Printed(p)[2];
  }

  lemma CutSize(before: seq<byte>, p: Packet, cut: nat)
    requires Sendable(p) && 3 <= cut < |Printed(p)|
    ensures PacketSize(before + Printed(p)[..cut], |before|) == |Printed(p)|
  {
    LengthBytes(|p.body|);
    var s := before + Printed(p)[..cut];
    var n := |before|;
    assert s[n] == Printed(p)[0] && s[n + 1] == Printed(p)[1] && s[n + 2] == Printed(p)[2];
  }

  // ---------------------------------------------------------------- the server's packets

  /** Packets with at least two bytes in their bodies are all stepped over. */
  lemma {:induction false} PacketsStepped(before: seq<byte>, ps: seq<Packet>, p: Packet, cut: nat)
    requires AllSendable(ps) && Sendable(p) && cut < |Printed(p)|
    requires forall i :: 0 <= i < |ps| ==> |ps[i].body| >= 2
    requires ps != [] || cut >= 3
    ensures MySqlPacketsFrom(before + Stretch(ps, p, cut), |before|) == |before| + |PrintedAll(ps)|
    decreases |ps|
  {
    hide PacketSize, Printed;
    var s := before + Stretch(ps, p, cut);
    if ps == [] {
      assert s == before + Printed(p)[..cut];
      CutSize(before, p, cut);
    } else {
      var t := Stretch(ps[1..], p, cut);
      Assoc(Printed(ps[0]), PrintedAll(ps[1..]), Printed(p)[..cut]);
      assert s == before + (Printed(ps[0]) + t);
      SizeRead(before, ps[0], t);
      var further := before + Printed(ps[0]);
      assert further + t == s;
      if |t| > 5 {
        PacketsStepped(further, ps[1..], p, cut);
      } else {
        NoneInFive(ps[1..]);
      }
    }
  }

  lemma NoneInFive(ps: seq<Packet>)
    requires AllSendable(ps) && (forall i :: 0 <= i < |ps| ==> |ps[i].body| >= 2)
    ensures ps == [] || |PrintedAll(ps)| >= 6
  {
  }

  /** A smaller one that comes last waits in the buffer, unless it is alone. */
  lemma SmallOneWaits(p: Packet, small: Packet)
    requires Sendable(p) && |small.body| < 2
    ensures MySqlPacketsFrom(Printed(p) + Printed(small), 0) == |Printed(p)|
    ensures MySqlPacketsFrom(Printed(small), 0) == |Printed(small)|
  {
    SizeRead([], p, Printed(small));
    assert [] + (Printed(p) + Printed(small)) == Printed(p) + Printed(small);
    SizeRead([], small, []);
    assert [] + (Printed(small) + []) == Printed(small);
  }

  lemma FirstSize(ps: seq<Packet>, p: Packet, cut: nat)
    requires AllSendable(ps) && Sendable(p) && cut < |Printed(p)| && |Stretch(ps, p, cut)| >= 3
    ensures PacketSize(Stretch(ps, p, cut), 0) <= |Stretch(ps, p, cut)| <==> ps != []
  {
    hide PacketSize;
    var s := Stretch(ps, p, cut);
    assert [] + s == s;
    if ps == [] {
      assert s == Printed(p)[..cut];
      CutSize([], p, cut);
    } else {
      Assoc(Printed(ps[0]), PrintedAll(ps[1..]), Printed(p)[..cut]);
      SizeRead([], ps[0], Stretch(ps[1..], p, cut));
    }
  }

  /** What a client is shown of a server's packets when no greeting is taken: nothing of fewer than five
      bytes; five or six whatever they are before and right after the login, none of them after a change of
      database or when an error begins the answer to a checked command; otherwise all whole packets. */
  lemma ResponsesShown(q: Parsing, ps: seq<Packet>, p: Packet, cut: nat)
    requires AllSendable(ps) && Sendable(p) && cut < |Printed(p)|
    requires forall i :: 0 <= i < |ps| ==> |ps[i].body| >= 2
    requires q.protocol.MySQL? && q.responseIn == Stretch(ps, p, cut)
    requires |q.responseIn| >= 7 && q.flags.firstRequest ==> !GreetingAt(q.responseIn, 0)
    ensures var s := q.responseIn;
            q.Showing() ==
              if |s| < 5 then []
              else if |s| < 7 && (q.flags.firstRequest || q.flags.secondPacket) then s
              else if |s| < 7 && (q.flags.lastCommand == 2 || (q.flags.startResponse && s[4] == 255)) then []
              else PrintedAll(ps)
    ensures var looks := q.flags.firstRequest || q.flags.secondPacket || q.flags.lastCommand == 2
                         || (q.flags.startResponse && |q.responseIn| > 4 && q.responseIn[4] == 255);
            q.Responded().flags ==
              if |q.responseIn| < 5 then q.flags
              else q.flags.(startResponse := false,
                            secondPacket := q.flags.secondPacket && !(looks && |q.responseIn| >= 7 && ps != []))
  {
    hide Printed, PacketSize, GreetingAt;
    var s := q.responseIn;
    assert [] + s == s;
    if |s| >= 5 {
      PacketsStepped([], ps, p, cut);
      assert s[..|PrintedAll(ps)|] == PrintedAll(ps);
      FirstSize(ps, p, cut);
    }
  }

  // ---------------------------------------------------------------- the client's packets

  /** Requests are taken in portions of the first one's size: how many is decided by what is left, fewer
      bytes than a portion or than seven. */
  lemma {:induction false} PortionsFrom(size: nat, full: nat, start: nat) returns (count: nat)
    requires size >= 4 && start <= full
    ensures var n := MySqlTakesFrom(size, full, start);
            && n == start + count * size && (count == 0 <==> full < start + size)
            && (full - n < size || full - n < 7)
            && (count >= 2 ==> full - (n - size) >= 7)
    decreases full - start
  {
    if start + size > full {
      count := 0;
    } else if start + size == full || start + size + 7 > full {
      count := 1;
    } else {
      var others := PortionsFrom(size, full, start + size);
      count := others + 1;
      assert count * size == others * size + size;
      if others == 1 {
        assert others * size == size;
      }
    }
  }

  /** One whole packet is passed on, whatever its size. */
  lemma RequestTaken(q: Parsing, p: Packet)
    requires Sendable(p) && q.protocol.MySQL? && q.requestIn == Printed(p)
    ensures q.Takes() == Forward(|q.requestIn|) && q.Passing() == q.requestIn && q.Requested().requestIn == []
  {
    SizeRead([], p, []);
    assert [] + (Printed(p) + []) == Printed(p);
  }

  /** Requests of one size from seven bytes on are all passed on, and the start of another one is not. */
  lemma {:induction false} EqualRequests(size: nat, full: nat, count: nat, cut: nat)
    requires size >= 7 && cut < size && full == count * size + cut
    ensures MySqlTakesFrom(size, full, 0) == count * size
  {
    var k := PortionsFrom(size, full, 0);
    if k > count {
      Multiples(size, count + 1, k);
    } else if k < count {
      Multiples(size, k + 1, count);
    }
  }

  lemma Multiples(size: nat, a: nat, b: nat)
    requires a <= b
    ensures a * size <= b * size
    ensures a > 0 ==> a * size == (a - 1) * size + size
  {
    assert b * size - a * size == (b - a) * size;
  }

  /** Part of a packet waits. */
  lemma CutWaits(q: Parsing, p: Packet, cut: nat)
    requires Sendable(p) && cut < |Printed(p)| && q.protocol.MySQL? && q.requestIn == Printed(p)[..cut]
    ensures q.Takes() == Forward(0) && q.Passing() == [] && q.Requested() == q
  {
    assert q.requestIn[0..] == q.requestIn;
    if cut >= 3 {
      CutSize([], p, cut);
      assert [] + Printed(p)[..cut] == Printed(p)[..cut];
    }
  }

  /** After the login a packet's command is kept, and the answer is looked into if it is a query or a
      prepared statement with some text, one of three commands on fields and databases with any argument, or
      the list of processes. */
  lemma CommandTaken(q: Parsing, id: byte, command: byte, args: seq<byte>)
    requires |args| < 0xFF_FFFF && q.protocol.MySQL? && !q.flags.firstRequest
    requires q.requestIn == Printed(Packet(id, [command] + args))
    ensures q.Requested().flags
            == q.flags.(lastCommand := command,
                        startResponse := q.flags.startResponse
                                         || (command in {3, 22} && args != [] && args[0] != 0)
                                         || (command in {4, 5, 6} && args != []) || command == 10)
  {
    var p := Packet(id, [command] + args);
    var s := q.requestIn;
    RequestTaken(q, p);
    SizeRead([], p, []);
    assert [] + (Printed(p) + []) == s;
    assert s == [s[0], s[1], s[2], id, command] + args;
    assert AfterMySqlFrom(q.flags, s, |s|, 0) == AfterMySqlPacket(q.flags, s, |s|);
  }

  /** The login, when it comes as one packet of at least ten bytes, decides two flags. */
  lemma LoginTaken(q: Parsing, p: Packet)
    requires 6 <= |p.body| < 0x100_0000 && q.protocol.MySQL? && q.flags.firstRequest && q.requestIn == Printed(p)
    ensures var login := LoginOf(q.requestIn, |q.requestIn|);
            q.Requested().flags == q.flags.(firstRequest := login.firstRequest,
                                            secondPacket := q.flags.secondPacket || login.secondPacket)
  {
    var s := q.requestIn;
    hide LoginOf;
    RequestTaken(q, p);
    SizeRead([], p, []);
    assert [] + (Printed(p) + []) == s;
    assert AfterMySqlFrom(q.flags, s, |s|, 0) == AfterMySqlPacket(q.flags, s, |s|);
  }

  // ---------------------------------------------------------------- the greeting

  /** Protocol::HandshakeV10: version 10, the server's version, its thread, eight bytes of scramble, a filler
      and the capabilities' low word, low byte first. */
  datatype Greeting = Greeting(id: byte, version: seq<byte>, thread: seq<byte>, scramble: seq<byte>,
                               low: byte, high: byte, more: seq<byte>)

  predicate ValidGreeting(g: Greeting) {
    && NulFree(g.version) && |g.thread| == 4 && |g.scramble| == 8
    && 3 <= |g.version| + |g.more| && |g.version| + |g.more| + 17 < 0x100_0000
  }

  function AfterVersion(g: Greeting): seq<byte> {
    [0] + (g.thread + (g.scramble + ([0, g.low, g.high] + g.more)))
  }

  function Body(g: Greeting): seq<byte> {
    [10] + (g.version + AfterVersion(g))
  }

  function GreetingText(g: Greeting): seq<byte>
    requires ValidGreeting(g)
  {
    Printed(Packet(g.id, Body(g)))
  }

  /** Without the bits 0x20 and 0x800. */
  function Uncompressed(g: Greeting): Greeting {
    g.(low := if g.low / 32 % 2 == 1 then g.low - 32 else g.low,
       high := if g.high / 8 % 2 == 1 then g.high - 8 else g.high)
  }

  /** Where the parts of a greeting are. */
  lemma GreetingLayout(g: Greeting)
    requires ValidGreeting(g)
    ensures var s := GreetingText(g);
            var v := |g.version|;
            && |s| == v + |g.more| + 21
            && s[v + 19] == g.low && s[v + 20] == g.high && VersionLength(s) == v && IsGreeting(s)
            && Capabilities(s) == (g.high as int) * 0x100 + g.low as int
  {
    hide GreetingText, CStringLength, Body;
    var s := GreetingText(g);
    var v := |g.version|;
    var tail := AfterVersion(g);
    GreetingParts(g);
    TextAt(s[..5], g.version, tail);
    assert s[v + 19] == tail[14] && s[v + 20] == tail[15];
  }

  lemma GreetingParts(g: Greeting)
    requires ValidGreeting(g)
    ensures var s := GreetingText(g);
            var tail := AfterVersion(g);
            && |s| == |g.version| + |g.more| + 21 && s == s[..5] + (g.version + tail)
            && |tail| == |g.more| + 16 && tail[0] == 0 && tail[14] == g.low && tail[15] == g.high
  {
  }

  lemma BitsOfWord(low: byte, high: byte)
    ensures var w := (high as int) * 0x100 + low as int;
            && Bit(w, 5) == low / 32 % 2 && Bit(w, 11) == high / 8 % 2
            && Bit(if low / 32 % 2 == 1 then w - 32 else w, 11) == high / 8 % 2
  {
    BitAt5(low, high);
    BitAt11(low, high);
    if low / 32 % 2 == 1 {
      BitAt11(low - 32, high);
    }
  }

  lemma BitFurther(w: nat, k: nat)
    requires k >= 4
    ensures Bit(w, k) == Bit(w / 16, k - 4)
  {
    assert Bit(w, k) == Bit(w / 2, k - 1);
    assert Bit(w / 2, k - 1) == Bit(w / 2 / 2, k - 2);
    assert Bit(w / 2 / 2, k - 2) == Bit(w / 2 / 2 / 2, k - 3);
    assert Bit(w / 2 / 2 / 2, k - 3) == Bit(w / 2 / 2 / 2 / 2, k - 4);
    assert w / 2 / 2 / 2 / 2 == w / 16;
  }

  lemma BitAt5(low: byte, high: byte)
    ensures Bit((high as int) * 0x100 + low as int, 5) == low / 32 % 2
  {
    hide Bit;
    var w: nat := (high as int) * 0x100 + low as int;
    BitFurther(w, 5);
    BitAt1(w / 16);
    assert w / 16 / 2 == w / 32;
    Over32(low, high);
  }

  lemma Over32(low: int, high: int)
    requires 0 <= low < 0x100
    ensures (high * 0x100 + low) / 32 == high * 8 + low / 32
    ensures (high * 0x100 + low) / 32 % 2 == low / 32 % 2
  {
    var d := low / 32;
    assert high * 0x100 + low == 32 * (high * 8 + d) + low % 32;
    assert high * 8 + d == 2 * (high * 4) + d;
  }

  lemma BitAt1(w: nat)
    ensures Bit(w, 1) == w / 2 % 2
  {
    assert Bit(w, 1) == Bit(w / 2, 0);
  }

  lemma BitAt11(low: byte, high: byte)
    ensures Bit((high as int) * 0x100 + low as int, 11) == high / 8 % 2
  {
    var w: nat := (high as int) * 0x100 + low as int;
    BitFurther(w, 11);
    BitFurther(w / 16, 7);
    BitAt3(high);
    assert w / 16 / 16 == high as int;
  }

  lemma BitAt3(b: byte)
    ensures Bit(b, 3) == b / 8 % 2
  {
    assert Bit(b, 3) == Bit(b / 2, 2);
    assert Bit(b / 2, 2) == Bit(b / 2 / 2, 1);
    assert Bit(b / 2 / 2, 1) == Bit(b / 2 / 2 / 2, 0);
  }

  lemma FlagsLowered(g: Greeting)
    ensures var u := Uncompressed(g);
            WithoutBit(WithoutBit((g.high as int) * 0x100 + g.low as int, 5), 11) == (u.high as int) * 0x100 + u.low as int
  {
    hide Bit;
    BitsOfWord(g.low, g.high);
    FlagValues();
  }

  /** The rewritten greeting is the greeting printed without those two bits. */
  lemma GreetingRewrite(g: Greeting)
    requires ValidGreeting(g)
    ensures ValidGreeting(Uncompressed(g)) && IsGreeting(GreetingText(g))
    ensures Rewrite(GreetingText(g)) == GreetingText(Uncompressed(g))
  {
    hide GreetingText, Uncompressed, Bit, VersionLength, Body, WithoutBit, IsGreeting;
    var u := Uncompressed(g);
    UncompressedValid(g);
    GreetingLayout(g);
    FlagsLowered(g);
    SameButCapabilities(g, u);
    var flags := (u.high as int) * 0x100 + u.low as int;
    assert flags % 0x100 == u.low && flags / 0x100 == u.high;
  }

  lemma UncompressedValid(g: Greeting)
    requires ValidGreeting(g)
    ensures var u := Uncompressed(g); ValidGreeting(u) && u == g.(low := u.low, high := u.high)
  {
  }

  lemma SameButCapabilities(g: Greeting, u: Greeting)
    requires ValidGreeting(g) && u == g.(low := u.low, high := u.high)
    ensures var v := |g.version|;
            v + 20 < |GreetingText(g)| && GreetingText(u) == GreetingText(g)[v + 19 := u.low][v + 20 := u.high]
  {
    var front := [10] + (g.version + ([0] + (g.thread + (g.scramble + [0]))));
    assert Body(g) == front + ([g.low, g.high] + g.more);
    assert Body(u) == front + ([u.low, u.high] + g.more);
    assert |front| == |g.version| + 15;
    assert Body(u) == Body(g)[|front| := u.low][|front| + 1 := u.high];
  }

  lemma GreetingStands(g: Greeting, rest: seq<byte>)
    requires ValidGreeting(g)
    ensures var s := GreetingText(g) + rest;
            && PacketSize(s, 0) == |GreetingText(g)| && GreetingAt(s, 0)
            && s[|GreetingText(g)|..] == rest
  {
    hide IsGreeting;
    SizeRead([], Packet(g.id, Body(g)), rest);
    assert [] + (GreetingText(g) + rest) == GreetingText(g) + rest;
    GreetingLayout(g);
  }

  /** Before the login, an event makes the parser take a greeting exactly when a whole one then stands in
      front of at least seven bytes. */
  lemma GreetsIff(p: Parsing, e: Event)
    requires p.protocol.MySQL? && p.flags.firstRequest && Reads(e) && May(p, e) && e.OnBackend?
    ensures var s := p.responseIn + e.input.bytes;
            Greets(p, e) <==> |s| >= 7 && GreetingAt(s, 0)
  {
    hide GreetingAt, NoGreetingFrom, MySqlPacketsFrom;
  }

  lemma GreetingShown(q: Parsing, g: Greeting)
    requires q.protocol.MySQL? && q.flags.firstRequest && ValidGreeting(g) && q.responseIn == GreetingText(g)
    ensures q.ResponsesReady() && q.Releases() == Greet
    ensures q.Showing() == GreetingText(Uncompressed(g)) && q.Responded().responseIn == []
  {
    hide IsGreeting, GreetingAt, NoGreetingFrom, MySqlPacketsFrom, PacketSize, Printed, Rewrite;
    var s := GreetingText(g);
    GreetingStands(g, []);
    assert s + [] == s;
    GreetingLayout(g);
    GreetingRewrite(g);
  }

  /** A server's greeting comes to the client of a new connection as the same packet without those two
      bits, in one read. */
  lemma GreetingDelivered(o: Outcome, canWrite: bool, g: Greeting)
    requires o.parse.protocol.MySQL? && o.parse.flags.firstRequest && o.parse.responseIn == [] && ValidGreeting(g)
    ensures var e := OnBackend(canWrite, true, Data(GreetingText(g)));
            var r := Through(o, [e]);
            && Greets(o.parse, e)
            && r.toClient == o.toClient + GreetingText(Uncompressed(g))
            && r.parse.responseIn == [] && r.lost == o.lost
  {
    hide Parsing.Releases, Parsing.Showing, Parsing.ResponsesReady, Parsing.Responded, GreetingText, ValidGreeting;
    var s := GreetingText(g);
    var e := OnBackend(canWrite, true, Data(s));
    assert o.parse.responseIn + s == s;
    GreetingShown(Fed(o.parse, e), g);
    GreetingNotEmpty(g);
    assert [e][..0] == [];
    assert Through(o, []) == o;
    assert Through(o, [e]) == Follow(o, e);
  }

  /** A greeting of which fewer than five, or more than six, bytes have come is waited for. */
  lemma GreetingWaits(q: Parsing, g: Greeting, cut: nat)
    requires q.protocol.MySQL? && q.flags.firstRequest && ValidGreeting(g) && cut < |GreetingText(g)|
    requires q.responseIn == GreetingText(g)[..cut] && cut != 5 && cut != 6
    ensures q.ResponsesReady() && q.Showing() == [] && q.Losing() == 0
    ensures q.Responded().responseIn == q.responseIn && q.Responded().flags.firstRequest
  {
    hide IsGreeting, Printed, Rewrite;
    var s := q.responseIn;
    assert s[0..] == s && [] + s == s;
    GreetingSmall(g);
    if cut >= 5 {
      CutSize([], Packet(g.id, Body(g)), cut);
    }
  }

  lemma GreetingSmall(g: Greeting)
    requires ValidGreeting(g)
    ensures |GreetingText(g)| < 0x8000_0000
  {
  }

  /** In two reads, unless the first one brings five or six bytes, it comes to the client just the same. */
  lemma GreetingInTwo(o: Outcome, g: Greeting, cut: nat, first: bool, second: bool)
    requires o.parse.protocol.MySQL? && o.parse.flags.firstRequest && o.parse.responseIn == [] && ValidGreeting(g)
    requires 0 < cut < |GreetingText(g)| && cut != 5 && cut != 6
    ensures var es := [OnBackend(first, true, Data(GreetingText(g)[..cut])),
                       OnBackend(second, true, Data(GreetingText(g)[cut..]))];
            var r := Through(o, es);
            && r.toClient == o.toClient + GreetingText(Uncompressed(g))
            && r.parse.responseIn == [] && r.lost == o.lost
  {
    hide Parsing.Releases, Parsing.Showing, Parsing.ResponsesReady, Parsing.Responded, Parsing.Losing, GreetingText, ValidGreeting;
    var s := GreetingText(g);
    var e1, e2 := OnBackend(first, true, Data(s[..cut])), OnBackend(second, true, Data(s[cut..]));
    var es := [e1, e2];
    assert es[..1] == [e1] && es[..0] == [] && [e1][..0] == [];
    assert o.parse.responseIn + s[..cut] == s[..cut];
    GreetingWaits(Fed(o.parse, e1), g, cut);
    var m := Through(o, [e1]);
    assert Through(o, []) == o;
    assert m == Follow(o, e1);
    assert m.parse.responseIn + s[cut..] == s;
    RespondedKeepsProtocol(Fed(o.parse, e1));
    GreetingShown(Fed(m.parse, e2), g);
    GreetLosesNone(Fed(m.parse, e2));
    assert o.toClient + [] == o.toClient;
    assert Through(o, es) == Follow(m, e2);
  }

  lemma RespondedKeepsProtocol(p: Parsing)
    ensures p.Responded().protocol == p.protocol
  {
  }

  lemma GreetLosesNone(p: Parsing)
    requires p.Releases() == Greet
    ensures p.Losing() == 0
  {
  }

  lemma GreetingNotEmpty(g: Greeting)
    requires ValidGreeting(g)
    ensures GreetingText(g) != []
  {
  }

  /** With one to five bytes behind it, the greeting is lost, and only they are shown. */
  lemma GreetingLost(q: Parsing, g: Greeting, rest: seq<byte>)
    requires q.protocol.MySQL? && q.flags.firstRequest && ValidGreeting(g)
    requires q.responseIn == GreetingText(g) + rest && 1 <= |rest| <= 5
    ensures q.Showing() == rest && q.Losing() == |GreetingText(g)| && q.Responded().responseIn == []
  {
    hide IsGreeting, GreetingAt, NoGreetingFrom, MySqlPacketsFrom, PacketSize;
    GreetingLayout(g);
    GreetingStands(g, rest);
  }

  /** Any other bytes meet the conditions, the client's always, the server's after the login. */
  lemma BytesMay(p: Parsing, e: Event)
    requires p.protocol.MySQL? && Reads(e) && e.input.bytes != []
    requires if e.OnClient? then |p.requestIn| + |e.input.bytes| < 0x8000_0000
             else !p.flags.firstRequest && |p.responseIn| + |e.input.bytes| < 0x8000_0000
    ensures May(p, e)
  {
  }

  /** The events of a client that sends packets one by one. */
  function OneByOne(ps: seq<Packet>, canWrite: bool): seq<Event>
    requires AllSendable(ps)
  {
    seq(|ps|, i requires 0 <= i < |ps| => OnClient(canWrite, true, Data(Printed(ps[i]))))
  }

  lemma {:induction false} PrintedLast(ps: seq<Packet>)
    requires AllSendable(ps) && ps != []
    ensures PrintedAll(ps) == PrintedAll(ps[..|ps| - 1]) + Printed(ps[|ps| - 1])
  {
    if |ps| == 1 {
      assert PrintedAll(ps[1..]) == [] && PrintedAll(ps[..0]) == [];
    } else {
      PrintedLast(ps[1..]);
      assert ps[1..][..|ps| - 2] == ps[..|ps| - 1][1..];
      Assoc(Printed(ps[0]), PrintedAll(ps[..|ps| - 1][1..]), Printed(ps[|ps| - 1]));
    }
  }

  /** All that a client sends one by one reaches the backend at once. */
  lemma {:induction false} RequestsDelivered(o: Outcome, ps: seq<Packet>, canWrite: bool)
    requires AllSendable(ps) && o.parse.protocol.MySQL? && o.parse.requestIn == []
    ensures var r := Through(o, OneByOne(ps, canWrite));
            && r.toBackend == o.toBackend + PrintedAll(ps) && r.parse.requestIn == []
            && r.parse.protocol == o.parse.protocol
    decreases |ps|
  {
    hide Parsing.Takes, Parsing.Passing, Follow;
    var es := OneByOne(ps, canWrite);
    if ps == [] {
      assert o.toBackend + [] == o.toBackend;
    } else {
      var before := ps[..|ps| - 1];
      var m := Through(o, OneByOne(before, canWrite));
      RequestsDelivered(o, before, canWrite);
      assert es[..|es| - 1] == OneByOne(before, canWrite);
      FollowOne(m, ps[|ps| - 1], canWrite);
      PrintedLast(ps);
      Assoc(o.toBackend, PrintedAll(before), Printed(ps[|ps| - 1]));
    }
  }

  lemma FollowOne(m: Outcome, p: Packet, canWrite: bool)
    requires Sendable(p) && m.parse.protocol.MySQL? && m.parse.requestIn == []
    ensures var r := Follow(m, OnClient(canWrite, true, Data(Printed(p))));
            && r.toBackend == m.toBackend + Printed(p) && r.parse.requestIn == []
            && r.parse.protocol == m.parse.protocol
  {
    hide Printed, Parsing.Passing, AfterMySqlRequest, MySqlTakes;
    var e := OnClient(canWrite, true, Data(Printed(p)));
    assert m.parse.requestIn + Printed(p) == Printed(p);
    BytesMay(m.parse, e);
    RequestTaken(Fed(m.parse, e), p);
  }

  // ---------------------------------------------------------------- the older login

  /** The 4.1 flag is the second bit of the second byte of the client's flags. */
  lemma Protocol41(data: seq<byte>)
    requires |data| >= 8
    ensures UsesProtocol41(data) <==> data[5] / 2 % 2 == 1
  {
    var w: nat := (data[5] as int) * 0x100 + data[4] as int;
    BitFurther(w, 9);
    BitFurther(w / 16, 5);
    assert w / 16 / 16 == data[5] as int;
    assert Bit(w / 16 / 16, 1) == Bit(w / 16 / 16 / 2, 0);
  }

  /** Nine bytes of header, and three texts, each with its NUL. */
  function OldLogin(header: seq<byte>, user: seq<byte>, password: seq<byte>, database: seq<byte>,
                    more: seq<byte>): seq<byte> {
    header + (user + ([0] + (password + ([0] + (database + ([0] + more))))))
  }

  lemma BoundedLengthIs(s: seq<byte>, from: nat, n: nat, size: nat)
    requires from + n <= size <= |s| && (forall i :: from <= i < from + n ==> s[i] != 0)
    requires from + n < size ==> s[from + n] == 0
    ensures BoundedLength(s, from, size) == n
    decreases n
  {
    if n > 0 {
      BoundedLengthIs(s, from + 1, n - 1, size);
    }
  }

  /** An older login, too, gives back the user and the database. */
  lemma OldLoginRoundTrip(header: seq<byte>, user: seq<byte>, password: seq<byte>, database: seq<byte>,
                          more: seq<byte>, next: seq<byte>)
    requires |header| == 9 && header[5] / 2 % 2 == 0 && NulFree(user) && NulFree(password) && NulFree(database)
    requires |OldLogin(header, user, password, database, more) + next| < 0x1_0000_0000
    ensures var packet := OldLogin(header, user, password, database, more);
            LoginOf(packet + next, |packet|) == Login(user, database, false, true)
  {
    hide CStringLength, BoundedLength, UsesProtocol41, Bit;
    var packet := OldLogin(header, user, password, database, more);
    var data := packet + next;
    var size := |packet|;
    var at := 10 + |user|;
    var db := at + |password| + 1;
    OldLoginLayout(header, user, password, database, more, next);
    Protocol41(data);
    CStringLengthIs(data, 9, |user|);
    BoundedLengthIs(data, at, |password|, size);
    BoundedLengthIs(data, db, |database|, size);
  }

  lemma OldLoginLayout(header: seq<byte>, user: seq<byte>, password: seq<byte>, database: seq<byte>,
                       more: seq<byte>, next: seq<byte>)
    requires |header| == 9 && NulFree(user) && NulFree(password) && NulFree(database)
    ensures var packet := OldLogin(header, user, password, database, more);
            var data := packet + next;
            var at := 10 + |user|;
            var db := at + |password| + 1;
            && |packet| == db + |database| + 1 + |more| && data[5] == header[5]
            && data[9..9 + |user|] == user && data[9 + |user|] == 0
            && data[at + |password|] == 0
            && data[db..db + |database|] == database && data[db + |database|] == 0
            && (forall i :: 9 <= i < 9 + |user| ==> data[i] != 0)
            && (forall i :: at <= i < at + |password| ==> data[i] != 0)
            && (forall i :: db <= i < db + |database| ==> data[i] != 0)
  {
    var packet := OldLogin(header, user, password, database, more);
    var data := packet + next;
    var at := 10 + |user|;
    var db := at + |password| + 1;
    var third := [0] + (more + next);
    var second := [0] + (database + third);
    assert data == header + (user + ([0] + (password + second)));
    assert data == (header + (user + [0])) + (password + second);
    assert data == (header + (user + ([0] + (password + [0])))) + (database + third);
    assert forall i :: 0 <= i < |user| ==> data[9 + i] == user[i];
    assert forall i :: 0 <= i < |password| ==> data[at + i] == password[i];
    assert forall i :: 0 <= i < |database| ==> data[db + i] == database[i];
    assert data[9 + |user|] == 0 && data[at + |password|] == second[0] && data[db + |database|] == third[0];
  }

  /** Without a database the server is not expected to send a second packet, unless the packet is only ten
      bytes long; then there is no user either. */
  lemma OldLoginWithoutDatabase(header: seq<byte>, user: seq<byte>, password: seq<byte>, next: seq<byte>)
    requires |header| == 9 && header[5] / 2 % 2 == 0 && NulFree(user) && NulFree(password)
    requires |header + (user + ([0] + password)) + next| < 0x1_0000_0000
    ensures var packet := header + (user + ([0] + password));
            LoginOf(packet + next, |packet|) == Login(user, [], false, user == [] && password == [])
  {
    hide CStringLength, BoundedLength, UsesProtocol41, Bit;
    var packet := header + (user + ([0] + password));
    var data := packet + next;
    var at := 10 + |user|;
    assert data == header + (user + ([0] + (password + next)));
    assert data[5] == header[5];
    Protocol41(data);
    assert forall i :: 0 <= i < |user| ==> data[9 + i] == user[i];
    assert data[9 + |user|] == 0;
    assert forall i :: 0 <= i < |password| ==> data[at + i] == password[i];
    CStringLengthIs(data, 9, |user|);
    BoundedLengthIs(data, at, |password|, |packet|);
    assert data[9..9 + |user|] == user;
  }
}
