/** PostgreSQL traffic as the messages it is printed from (Frontend/Backend Protocol, section 55.7
    "Message Formats"): what src/pgsql/pgsql_con.cpp passes on is said message by message. */
module PgMessages {
  import opened Sequences
  import opened Wire
  import opened PgFrames
  import opened Traffic

  /** A type byte and what follows the length. */
  datatype Message = Message(kind: byte, payload: seq<byte>)

  /** A length that an int holds with one added. */
  predicate Sendable(m: Message) {
    |m.payload| + 4 < 0x7FFF_FFFF
  }

  /** A 32-bit number, high byte first. */
  function Int32(n: nat): (s: seq<byte>)
    requires n < 0x1_0000_0000
    ensures |s| == 4
  {
    [n / 0x100_0000, n / 0x1_0000 % 0x100, n / 0x100 % 0x100, n % 0x100]
  }

  function Printed(m: Message): (s: seq<byte>)
    requires Sendable(m)
    ensures |s| == |m.payload| + 5
  {
    [m.kind] + (Int32(|m.payload| + 4) + m.payload)
  }

  predicate AllSendable(ms: seq<Message>) {
    forall i :: 0 <= i < |ms| ==> Sendable(ms[i])
  }

  function PrintedAll(ms: seq<Message>): seq<byte>
    requires AllSendable(ms)
  {
    if ms == [] then [] else Printed(ms[0]) + PrintedAll(ms[1..])
  }

  /** Any messages, and the first `cut` bytes of one more. */
  function Stretch(ms: seq<Message>, m: Message, cut: nat): seq<byte>
    requires AllSendable(ms) && Sendable(m) && cut < |Printed(m)|
  {
    PrintedAll(ms) + Printed(m)[..cut]
  }

  // ---------------------------------------------------------------- the length that is read

  lemma Int32Value(n: nat)
    requires n < 0x1_0000_0000
    ensures var s := Int32(n);
            (s[0] as int) * 0x100_0000 + (s[1] as int) * 0x1_0000 + (s[2] as int) * 0x100 + s[3] as int == n
  {
    var a, b := n / 0x100, n / 0x1_0000;
    assert n == a * 0x100 + n % 0x100;
    assert b == a / 0x100 && a == b * 0x100 + a % 0x100;
    assert n / 0x100_0000 == b / 0x100 && b == b / 0x100 * 0x100 + b % 0x100;
  }

  lemma Int32Bytes(a: byte, b: byte, c: byte, d: byte)
    ensures var n := (a as int) * 0x100_0000 + (b as int) * 0x1_0000 + (c as int) * 0x100 + d as int;
            n < 0x1_0000_0000 && Int32(n) == [a, b, c, d]
  {
    var n := (a as int) * 0x100_0000 + (b as int) * 0x1_0000 + (c as int) * 0x100 + d as int;
    var x := (a as int) * 0x100 + b as int;
    var y := x * 0x100 + c as int;
    assert n == y * 0x100 + d as int;
    assert n / 0x100 == y && n % 0x100 == d as int;
    assert y / 0x100 == x && y % 0x100 == c as int;
    assert n / 0x1_0000 == x && x % 0x100 == b as int && x / 0x100 == a as int;
    assert n / 0x100_0000 == a as int;
  }

  /** At a printed message the parser reads its type and its own length, and then what comes after it. */
  lemma MessageRead(m: Message, rest: seq<byte>)
    requires Sendable(m)
    ensures var s := Printed(m) + rest;
            && |s| >= 5 && s[0] == m.kind && DeclaredLength(s) == |m.payload| + 4
            && MessageSize(s) == |Printed(m)| && s[MessageSize(s)..] == rest
  {
    var s := Printed(m) + rest;
    var head := Int32(|m.payload| + 4);
    Int32Value(|m.payload| + 4);
    assert s[1] == head[0] && s[2] == head[1] && s[3] == head[2] && s[4] == head[3];
    assert s[|Printed(m)|..] == rest;
  }

  /** Part of one is no whole message. */
  lemma CutRead(m: Message, cut: nat)
    requires Sendable(m) && cut < |Printed(m)|
    ensures var s := Printed(m)[..cut];
            && (cut >= 5 ==> MessageSize(s) > cut)
            && Framed(s) && WholePrefix(s) == 0 && !HasPassword(s) && (Whole(s) <==> cut == 0)
  {
    if cut >= 5 {
      MessageRead(m, []);
      assert Printed(m) + [] == Printed(m);
      SameHeader(Printed(m), cut);
      assert DeclaredLength(Printed(m)[..cut]) == |m.payload| + 4;
    }
  }

  /** The bytes left behind when the first message is taken away. */
  lemma StretchNext(ms: seq<Message>, m: Message, cut: nat)
    requires AllSendable(ms) && Sendable(m) && cut < |Printed(m)| && ms != []
    ensures Stretch(ms, m, cut) == Printed(ms[0]) + Stretch(ms[1..], m, cut)
  {
    Assoc(Printed(ms[0]), PrintedAll(ms[1..]), Printed(m)[..cut]);
  }

  /** Exactly the whole messages make up the whole prefix. */
  lemma {:induction false} StretchFramed(ms: seq<Message>, m: Message, cut: nat)
    requires AllSendable(ms) && Sendable(m) && cut < |Printed(m)|
    ensures var s := Stretch(ms, m, cut);
            && Framed(s) && WholePrefix(s) == |PrintedAll(ms)| && (Whole(s) <==> cut == 0)
    decreases |ms|
  {
    hide Printed, DeclaredLength, MessageSize;
    CutRead(m, cut);
    if ms == [] {
      assert Stretch(ms, m, cut) == Printed(m)[..cut];
    } else {
      StretchNext(ms, m, cut);
      MessageRead(ms[0], Stretch(ms[1..], m, cut));
      StretchFramed(ms[1..], m, cut);
      FramedStep(Stretch(ms, m, cut));
    }
  }

  lemma FramedStep(s: seq<byte>)
    requires |s| >= 5 && MessageSize(s) <= |s|
    ensures Framed(s) <==> 4 <= DeclaredLength(s) < 0x7FFF_FFFF && Framed(s[MessageSize(s)..])
    ensures WholePrefix(s) == MessageSize(s) + WholePrefix(s[MessageSize(s)..])
    ensures Whole(s) <==> Whole(s[MessageSize(s)..])
  {
  }

  lemma PrintedWhole(ms: seq<Message>)
    requires AllSendable(ms)
    ensures Whole(PrintedAll(ms)) && Framed(PrintedAll(ms)) && WholePrefix(PrintedAll(ms)) == |PrintedAll(ms)|
  {
    var m := Message(0, []);
    StretchFramed(ms, m, 0);
    assert Stretch(ms, m, 0) == PrintedAll(ms);
  }

  // ---------------------------------------------------------------- every framed stream is printed

  /** The message that s starts with, or starts to be: the rest of its payload filled up with zeros. */
  function FirstMessage(s: seq<byte>): Message
    requires |s| >= 5 && 4 <= DeclaredLength(s)
  {
    var n := DeclaredLength(s) - 4;
    Message(s[0], if n <= |s| - 5 then s[5..5 + n] else s[5..] + seq(n - (|s| - 5), i => 0))
  }

  lemma FirstMessagePrinted(s: seq<byte>)
    requires |s| >= 5 && 4 <= DeclaredLength(s) < 0x7FFF_FFFF
    ensures var m := FirstMessage(s);
            && Sendable(m) && |Printed(m)| == MessageSize(s)
            && (if MessageSize(s) <= |s| then s == Printed(m) + s[MessageSize(s)..] else s == Printed(m)[..|s|])
  {
    var m := FirstMessage(s);
    Int32Bytes(s[1], s[2], s[3], s[4]);
    assert Int32(|m.payload| + 4) == [s[1], s[2], s[3], s[4]];
    var p := Printed(m);
    assert p == [s[0], s[1], s[2], s[3], s[4]] + m.payload;
  }

  predicate Begins(rest: seq<byte>, m: Message) {
    Sendable(m) && rest < Printed(m)
  }

  ghost predicate PrintedFrom(s: seq<byte>, ms: seq<Message>, rest: seq<byte>) {
    AllSendable(ms) && s == PrintedAll(ms) + rest && (|rest| < 5 || exists m :: Begins(rest, m))
  }

  lemma {:induction false} Print(s: seq<byte>) returns (ms: seq<Message>, rest: seq<byte>)
    requires Framed(s)
    ensures PrintedFrom(s, ms, rest)
    ensures Whole(s) ==> rest == []
    decreases |s|
  {
    if |s| < 5 {
      ms, rest := [], s;
      assert PrintedAll(ms) + rest == s;
    } else {
      FirstMessagePrinted(s);
      var m := FirstMessage(s);
      if MessageSize(s) > |s| {
        ms, rest := [], s;
        assert PrintedAll(ms) + rest == s;
        assert Begins(rest, m);
      } else {
        var tail;
        tail, rest := Print(s[MessageSize(s)..]);
        ms := [m] + tail;
        assert ms[1..] == tail;
        Assoc(Printed(m), PrintedAll(tail), rest);
      }
    }
  }

  /** The bytes the parsers are given are messages, printed one after the other, and the start of another. */
  lemma {:induction false} FramedIff(s: seq<byte>)
    ensures Framed(s) <==> exists ms, rest :: PrintedFrom(s, ms, rest)
  {
    if Framed(s) {
      var ms, rest := Print(s);
    } else if ms, rest :| PrintedFrom(s, ms, rest) {
      if |rest| < 5 {
        FewBytes(ms, rest);
      } else {
        var m :| Begins(rest, m);
        assert Printed(m)[..|rest|] == rest;
        StretchFramed(ms, m, |rest|);
      }
    }
  }

  lemma FewBytes(ms: seq<Message>, rest: seq<byte>)
    requires AllSendable(ms) && |rest| < 5
    ensures Framed(PrintedAll(ms) + rest)
    decreases |ms|
  {
    if ms == [] {
      assert PrintedAll(ms) + rest == rest;
    } else {
      FewBytes(ms[1..], rest);
      Assoc(Printed(ms[0]), PrintedAll(ms[1..]), rest);
      MessageRead(ms[0], PrintedAll(ms[1..]) + rest);
    }
  }

  /** Whole are exactly the bytes of messages, one after the other. */
  lemma {:induction false} WholeIff(s: seq<byte>)
    ensures Whole(s) && Framed(s) <==> exists ms :: AllSendable(ms) && s == PrintedAll(ms)
  {
    if Whole(s) && Framed(s) {
      var ms, rest := Print(s);
      assert PrintedAll(ms) + rest == PrintedAll(ms);
    } else if ms :| AllSendable(ms) && s == PrintedAll(ms) {
      PrintedWhole(ms);
    }
  }

  lemma NoneInFour(ms: seq<Message>)
    requires AllSendable(ms)
    ensures ms == [] || |PrintedAll(ms)| >= 5
  {
  }

  // ---------------------------------------------------------------- what is passed on

  /** Both paths of parseResponse release the whole messages, but the one that looks into them waits while
      it sees the header of one that is incomplete. */
  lemma StretchReleased(ms: seq<Message>, m: Message, cut: nat)
    requires AllSendable(ms) && Sendable(m) && cut < |Printed(m)|
    ensures var s := Stretch(ms, m, cut);
            && SteadyRelease(s) == |PrintedAll(ms)|
            && CarefulRelease(s) == (if cut < 5 then |PrintedAll(ms)| else 0)
            && (CarefullyDone(s) <==> cut < 5 && (ms != [] || cut >= 3))
            && s[..|PrintedAll(ms)|] == PrintedAll(ms) && s[|PrintedAll(ms)|..] == Printed(m)[..cut]
  {
    StretchFramed(ms, m, cut);
    if ms != [] {
      assert |PrintedAll(ms)| == |Printed(ms[0])| + |PrintedAll(ms[1..])|;
    }
  }

  /** Whole messages in front of such bytes are the first so many of them. */
  lemma {:induction false} FirstMessages(ms: seq<Message>, m: Message, cut: nat, n: nat) returns (k: nat)
    requires AllSendable(ms) && Sendable(m) && cut < |Printed(m)|
    requires n <= |Stretch(ms, m, cut)| && Whole(Stretch(ms, m, cut)[..n])
    ensures k <= |ms| && Stretch(ms, m, cut)[..n] == PrintedAll(ms[..k])
    decreases |ms|
  {
    var s := Stretch(ms, m, cut);
    if n == 0 {
      k := 0;
      return;
    }
    assert n >= 5;
    if ms == [] {
      assert s == Printed(m)[..cut];
      CutRead(m, cut);
      SameHeader(s, n);
      assert false;
    } else {
      var one := |Printed(ms[0])|;
      StretchNext(ms, m, cut);
      MessageRead(ms[0], Stretch(ms[1..], m, cut));
      SameHeader(s, n);
      var t := Stretch(ms[1..], m, cut);
      assert s[..n][one..] == t[..n - one];
      var rest := FirstMessages(ms[1..], m, cut, n - one);
      k := rest + 1;
      assert ms[..k][1..] == ms[1..][..rest];
      assert s[..n] == Printed(ms[0]) + t[..n - one];
    }
  }

  /** However a server's messages are cut into reads: the client is shown the first so many of them, all of
      them when nothing is incomplete or the last read is only stepped over. */
  lemma MessagesDelivered(arrivals: seq<Arrival>, ms: seq<Message>, m: Message, cut: nat) returns (k: nat)
    requires AllSendable(ms) && Sendable(m) && cut < |Printed(m)|
    requires BytesOf(arrivals) == Stretch(ms, m, cut)
    ensures k <= |ms| && ReceiveAll(Stream([], []), arrivals).released == PrintedAll(ms[..k])
    ensures cut == 0 || (arrivals != [] && !arrivals[|arrivals| - 1].careful) ==>
              ReceiveAll(Stream([], []), arrivals).released == PrintedAll(ms)
  {
    var s := Stretch(ms, m, cut);
    StretchFramed(ms, m, cut);
    StretchReleased(ms, m, cut);
    ChunkingIndependence(arrivals);
    var st := ReceiveAll(Stream([], []), arrivals);
    assert s[..|st.released|] == st.released;
    k := FirstMessages(ms, m, cut, |st.released|);
    if cut == 0 {
      assert Printed(m)[..cut] == [];
      assert st.released == s == PrintedAll(ms);
    }
  }

  /** Of a client's messages all that are complete are passed on, and only they. */
  lemma RequestsTaken(p: Parsing, ms: seq<Message>, m: Message, cut: nat)
    requires AllSendable(ms) && Sendable(m) && cut < |Printed(m)|
    requires p.protocol.PgSQL? && !p.flags.firstRequest && p.requestIn == Stretch(ms, m, cut)
    requires |p.requestIn| != 8 && |p.requestIn| < 0x8000_0000
    ensures p.RequestsReady()
    ensures p.Passing() == PrintedAll(ms) && p.Requested().requestIn == Printed(m)[..cut]
    ensures p.Requested().flags
            == p.flags.(secondPacket := p.flags.secondPacket
                                        || exists i :: 0 <= i < |ms| && ms[i].kind == 'p' as int && |ms[i].payload| != 11)
  {
    hide Printed, Framed, WholePrefix, HasPassword, MessageSize, DeclaredLength;
    StretchReleased(ms, m, cut);
    StretchFramed(ms, m, cut);
    PasswordSeen(ms, m, cut);
    NoneInFour(ms);
  }

  /** A password is a message of type p; only with a payload of eleven bytes it goes unnoticed. */
  lemma {:induction false} PasswordSeen(ms: seq<Message>, m: Message, cut: nat)
    requires AllSendable(ms) && Sendable(m) && cut < |Printed(m)|
    ensures HasPassword(Stretch(ms, m, cut)) <==>
            exists i :: 0 <= i < |ms| && ms[i].kind == 'p' as int && |ms[i].payload| != 11
    decreases |ms|
  {
    hide Printed, DeclaredLength, MessageSize, IsPassword;
    CutRead(m, cut);
    if ms == [] {
      assert Stretch(ms, m, cut) == Printed(m)[..cut];
    } else {
      var t := Stretch(ms[1..], m, cut);
      StretchNext(ms, m, cut);
      MessageRead(ms[0], t);
      PasswordSeen(ms[1..], m, cut);
      PasswordRead(ms[0], t);
      assert forall i :: 0 <= i < |ms| ==> ms[i] == if i == 0 then ms[0] else ms[1..][i - 1];
      assert forall i :: 0 <= i < |ms[1..]| ==> ms[1..][i] == ms[i + 1];
    }
  }

  lemma PasswordRead(m: Message, rest: seq<byte>)
    requires Sendable(m)
    ensures IsPassword(Printed(m) + rest, |Printed(m)|) <==> m.kind == 'p' as int && |m.payload| != 11
  {
    var s := Printed(m) + rest;
    assert s[0] == m.kind;
  }

  /** Of a server's messages as many are shown, unless the parser looks into them and sees the header of
      one that is incomplete; it looks into them before the startup message, after a password, and when the
      first one is of type R or E. */
  lemma ResponsesShown(p: Parsing, ms: seq<Message>, m: Message, cut: nat)
    requires AllSendable(ms) && Sendable(m) && cut < |Printed(m)|
    requires p.protocol.PgSQL? && p.responseIn == Stretch(ms, m, cut) && |p.responseIn| < 0x8000_0000
    ensures p.ResponsesReady()
    ensures var first := if ms == [] then m.kind else ms[0].kind;
            var looks := p.flags.firstRequest || p.flags.secondPacket || first == 'R' as int || first == 'E' as int;
            && p.Showing() == (if looks && cut >= 5 then [] else PrintedAll(ms))
            && p.Responded().responseIn == (if looks && cut >= 5 then p.responseIn else Printed(m)[..cut])
            && (cut < 5 && |p.responseIn| >= 3 ==>
                  p.Responded().flags == p.flags.(firstResponse := false, secondPacket := p.flags.secondPacket && !looks))
            && (cut >= 5 ==> p.Responded().flags == p.flags.(firstResponse := false))
  {
    hide Printed, Framed, WholePrefix, MessageSize, DeclaredLength, SteadyRelease, CarefulRelease, CarefullyDone;
    StretchReleased(ms, m, cut);
    StretchFramed(ms, m, cut);
    if ms != [] {
      StretchNext(ms, m, cut);
      MessageRead(ms[0], Stretch(ms[1..], m, cut));
    } else {
      assert p.responseIn == Printed(m)[..cut];
      if cut == 0 { assert p.responseIn == []; }
    }
  }

  /** A startup message that says it is n bytes long: it is waited for while it is longer than what there is,
      refused if it is shorter than thirteen bytes, and otherwise all there is is passed on and the next
      bytes are messages. */
  lemma StartupTaken(p: Parsing, n: nat, rest: seq<byte>)
    requires n < 0x1_0000_0000 && p.requestIn == Int32(n) + rest && |p.requestIn| < 0x8000_0000
    requires p.protocol.PgSQL? && p.flags.firstRequest && rest != [] && |rest| != 4
    ensures p.Takes() == if n > |p.requestIn| then Forward(0) else if n < 13 then Refuse else Forward(|p.requestIn|)
    ensures 13 <= n <= |p.requestIn| ==>
              p.Passing() == p.requestIn && p.Requested() == p.(flags := p.flags.(firstRequest := false), requestIn := [])
    ensures n > |p.requestIn| ==> p.Passing() == [] && p.Requested() == p
  {
    Int32Value(n);
    var s := p.requestIn;
    var head := Int32(n);
    assert s[0] == head[0] && s[1] == head[1] && s[2] == head[2] && s[3] == head[3];
    assert s[|s|..] == [] && s[0..] == s;
  }

  /** Eight bytes are a probe, whatever they are, and its answer is the letter N. */
  lemma ProbeAnswered(p: Parsing)
    requires p.protocol.PgSQL? && |p.requestIn| == 8
    ensures p.Takes() == Probe && p.Passing() == [] && p.Requested().requestIn == []
    ensures p.responseIn == [] ==> p.Replying() == ['N' as int] && p.Requested().responseIn == []
    ensures p.responseIn != [] ==> p.Requested().responseIn == p.responseIn + ['N' as int]
  {
  }

  /** Fewer than five bytes are always waited with. */
  lemma TooFew(p: Parsing)
    requires p.protocol.PgSQL? && |p.requestIn| < 5
    ensures p.Passing() == [] && p.Requested() == p
  {
    assert p.requestIn[0..] == p.requestIn;
  }

  // ---------------------------------------------------------------- over a run

  /** Bytes that continue such messages meet the conditions, from either side. */
  lemma MessagesMay(p: Parsing, e: Event, ms: seq<Message>, m: Message, cut: nat)
    requires AllSendable(ms) && Sendable(m) && cut < |Printed(m)|
    requires p.protocol.PgSQL? && Reads(e) && e.input.bytes != []
    requires var waiting := if e.OnClient? then p.requestIn else p.responseIn;
             waiting + e.input.bytes == Stretch(ms, m, cut) && |Stretch(ms, m, cut)| < 0x8000_0000
    requires e.OnClient? ==> !p.flags.firstRequest && |Stretch(ms, m, cut)| != 8
    ensures May(p, e)
  {
    StretchFramed(ms, m, cut);
  }

  lemma {:induction false} NoneEverWaits(o: Outcome, es: seq<Event>)
    requires o.parse.protocol.PgSQL? && !o.parse.flags.firstRequest && WholePrefix(o.parse.requestIn) == 0
    ensures WholePrefix(Through(o, es).parse.requestIn) == 0
    decreases |es|
  {
    if es != [] {
      hide Framed, WholePrefix, HasPassword;
      var before := es[..|es| - 1];
      var e := es[|es| - 1];
      NoneEverWaits(o, before);
      ThroughPastGreeting(o, before);
      ThroughProtocol(o, before);
      var p := Through(o, before).parse;
      if Reads(e) && May(p, e) && e.OnClient? {
        NoneWaits(Fed(p, e));
      }
    }
  }

  /** After the startup message, and without probes: however the client's messages are cut into reads, the
      backend has been sent exactly those that are complete. */
  lemma RequestsDelivered(o: Outcome, es: seq<Event>, ms: seq<Message>, m: Message, cut: nat)
    requires AllSendable(ms) && Sendable(m) && cut < |Printed(m)|
    requires o.parse.protocol.PgSQL? && !o.parse.flags.firstRequest && o.parse.requestIn == []
    requires Through(o, es).probes == o.probes
    requires Through(o, es).fromClient == o.fromClient + Stretch(ms, m, cut)
    ensures Through(o, es).toBackend == o.toBackend + PrintedAll(ms)
    ensures Through(o, es).parse.requestIn == Printed(m)[..cut]
  {
    hide Through, Follow, Framed;
    var r := Through(o, es);
    var s := Stretch(ms, m, cut);
    NoneEverWaits(o, es);
    ThroughForwards(o, es);
    ThroughPassesWhole(o, es);
    StretchReleased(ms, m, cut);
    assert r.fromClient[|o.fromClient|..] == s;
    assert o.toBackend + o.parse.requestIn == o.toBackend;
    var sent := r.toBackend[|o.toBackend|..];
    assert r.toBackend == o.toBackend + sent;
    Assoc(o.toBackend, sent, r.parse.requestIn);
    assert sent + r.parse.requestIn == (o.toBackend + s)[|o.toBackend|..] == s;
    AfterWhole(sent, r.parse.requestIn);
    assert s[..|sent|] == sent && s[|sent|..] == r.parse.requestIn;
  }

  /** What has been shown since o, and what waits. */
  function Since(o: Outcome, r: Outcome): Stream
    requires |o.toClient| <= |r.toClient|
  {
    Stream(r.toClient[|o.toClient|..], r.parse.responseIn)
  }

  ghost predicate Steps(o: Outcome, r: Outcome) {
    && o.toClient <= r.toClient && o.fromBackend <= r.fromBackend
    && InStep(Since(o, r), r.fromBackend[|o.fromBackend|..])
  }

  lemma FollowSteps(o: Outcome, m: Outcome, e: Event)
    requires Steps(o, m) && m.parse.protocol.PgSQL? && Follow(m, e).probes == m.probes
    ensures Steps(o, Follow(m, e))
  {
    hide Whole, Framed, WholePrefix, HasPassword;
    var r := Follow(m, e);
    if Reads(e) && May(m.parse, e) && e.OnBackend? {
      var st := Since(o, m);
      var p := Fed(m.parse, e);
      ReceiveOne(st, Arrival(e.input.bytes, p.LooksInto()));
      BackendStep(o, m, e);
      Assoc(st.released, st.pending, e.input.bytes);
      assert r.fromBackend[|o.fromBackend|..] == m.fromBackend[|o.fromBackend|..] + e.input.bytes;
    } else {
      assert m.toClient + [] == m.toClient;
      assert r.toClient == m.toClient && r.fromBackend == m.fromBackend && r.parse.responseIn == m.parse.responseIn;
    }
  }

  lemma BackendStep(o: Outcome, m: Outcome, e: Event)
    requires m.parse.protocol.PgSQL? && o.toClient <= m.toClient
    requires Reads(e) && May(m.parse, e) && e.OnBackend?
    ensures o.toClient <= Follow(m, e).toClient
    ensures Since(o, Follow(m, e)) == Receive(Since(o, m), Arrival(e.input.bytes, Fed(m.parse, e).LooksInto()))
  {
    hide Parsing.LooksInto, CarefulRelease, SteadyRelease, Framed;
    var p := Fed(m.parse, e);
    var n := PgReleases(p.LooksInto(), p.responseIn);
    ReleaseFits(p.responseIn, p.LooksInto());
    assert Follow(m, e).toClient == m.toClient + p.responseIn[..n];
    assert (m.toClient + p.responseIn[..n])[|o.toClient|..] == m.toClient[|o.toClient|..] + p.responseIn[..n];
  }

  lemma ReleaseFits(s: seq<byte>, careful: bool)
    ensures PgReleases(careful, s) <= |s|
  {
  }

  lemma {:induction false} ThroughSteps(o: Outcome, es: seq<Event>)
    requires o.parse.protocol.PgSQL? && o.parse.responseIn == [] && Through(o, es).probes == o.probes
    ensures Steps(o, Through(o, es))
    decreases |es|
  {
    hide Follow, InStep;
    if es == [] {
      InStepNothing();
      assert o.toClient[|o.toClient|..] == [] && o.fromBackend[|o.fromBackend|..] == [];
    } else {
      var before := es[..|es| - 1];
      NoProbeBefore(o, es);
      ThroughSteps(o, before);
      ThroughProtocol(o, before);
      FollowSteps(o, Through(o, before), es[|es| - 1]);
    }
  }

  lemma InStepNothing()
    ensures InStep(Stream([], []), [])
  {
  }

  /** Over any run without probes, however the server's messages are cut into reads: the client has been sent
      the first so many of them, and all of them where none is incomplete. */
  lemma ResponsesDelivered(o: Outcome, es: seq<Event>, ms: seq<Message>, m: Message, cut: nat) returns (k: nat)
    requires AllSendable(ms) && Sendable(m) && cut < |Printed(m)|
    requires o.parse.protocol.PgSQL? && o.parse.responseIn == [] && Through(o, es).probes == o.probes
    requires Through(o, es).fromBackend == o.fromBackend + Stretch(ms, m, cut)
    ensures k <= |ms| && Through(o, es).toClient == o.toClient + PrintedAll(ms[..k])
    ensures cut == 0 ==> Through(o, es).toClient == o.toClient + PrintedAll(ms)
  {
    hide Through, Whole;
    var r := Through(o, es);
    var s := Stretch(ms, m, cut);
    ThroughSteps(o, es);
    StretchFramed(ms, m, cut);
    assert r.fromBackend[|o.fromBackend|..] == s;
    var st := Since(o, r);
    assert st.released + st.pending == s;
    assert s[..|st.released|] == st.released;
    k := FirstMessages(ms, m, cut, |st.released|);
    assert r.toClient == o.toClient + st.released;
    if cut == 0 {
      assert Printed(m)[..cut] == [];
      assert s == PrintedAll(ms) && st.pending == [];
      assert st.released == s;
    }
  }
}
