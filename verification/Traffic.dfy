/** What the two protocols' parsers make of the bytes that arrive, as one value and steps on it: the
    parseRequest and parseResponse of src/pgsql/pgsql_con.cpp and src/mysql/mysql_con.cpp. */
module Traffic {
  import opened Sequences
  import opened Wire
  import opened PgFrames
  import opened MySqlPackets

  datatype Protocol = MySQL | PgSQL

  /** socket_read: some bytes, EAGAIN, or an error or end of file. */
  datatype ReadOutcome = Data(bytes: seq<byte>) | WouldBlock | Broken

  /** libevent reports that a socket can be written, can be read, or both. */
  datatype Event = OnClient(canWrite: bool, canRead: bool, input: ReadOutcome)
                 | OnBackend(canWrite: bool, canRead: bool, input: ReadOutcome)

  /** The flags that steer the parsers. */
  datatype Flags = Flags(firstRequest: bool, firstResponse: bool, secondPacket: bool,
                         startResponse: bool, lastCommand: byte)

  // ---------------------------------------------------------------- what a parser takes

  /** What parseRequest does with the bytes it finds. */
  datatype Taking = Forward(n: nat) | Probe | Refuse

  const SSL_REFUSED: seq<byte> := [78]

  /** The length of a startup message: a signed int turned into a 64-bit size. */
  function StartupSize(s: seq<byte>): (n: nat)
    requires |s| >= 4
  {
    var n := (s[0] as int) * 0x100_0000 + (s[1] as int) * 0x1_0000 + (s[2] as int) * 0x100 + s[3] as int;
    if n < 0x8000_0000 then n else 0xFFFF_FFFF_0000_0000 + n
  }

  function PgTakes(first: bool, s: seq<byte>): Taking {
    if |s| < 5 then Forward(0)
    else if |s| == 8 then Probe
    else if first then
      if StartupSize(s) > |s| then Forward(0) else if StartupSize(s) < 13 then Refuse else Forward(|s|)
    else Forward(WholePrefix(s))
  }

  const CANCEL: seq<byte> := [0, 0, 0, 15, 4, 210, 22, 223]

  /** A password message; one of sixteen bytes is passed by when it does not look like a cancel request. */
  predicate IsPassword(s: seq<byte>, size: nat) {
    s != [] && s[0] == 0x70 && (size == 16 ==> CANCEL <= s)
  }

  /** Is one of the whole messages at the start of s a password? */
  predicate HasPassword(s: seq<byte>)
    decreases |s|
  {
    |s| >= 5 && MessageSize(s) <= |s| && (IsPassword(s, MessageSize(s)) || HasPassword(s[MessageSize(s)..]))
  }

  function AfterPgRequest(f: Flags, s: seq<byte>): Flags {
    if |s| < 5 || |s| == 8 then f
    else if f.firstRequest then f.(firstRequest := !PgTakes(true, s).Forward? || StartupSize(s) > |s|)
    else f.(secondPacket := f.secondPacket || HasPassword(s))
  }

  /** Once whole messages are gone, none is left at the start. */
  lemma {:induction false} NoneLeft(s: seq<byte>)
    ensures WholePrefix(s[WholePrefix(s)..]) == 0
    decreases |s|
  {
    if WholePrefix(s) == 0 {
      assert s[0..] == s;
    } else {
      var t := s[MessageSize(s)..];
      NoneLeft(t);
      assert s[WholePrefix(s)..] == t[WholePrefix(t)..];
    }
  }

  /** The loop of MySQL's parseRequest: its packet size is always that of the first packet. */
  function MySqlTakesFrom(size: nat, full: nat, start: nat): (n: nat)
    requires size >= 4 && start <= full
    ensures start <= n <= full
    decreases full - start
  {
    if start + size > full then start
    else if start + size == full || start + size + 7 > full then start + size
    else MySqlTakesFrom(size, full, start + size)
  }

  function MySqlTakes(s: seq<byte>): Taking {
    if |s| < 3 then Forward(0) else Forward(MySqlTakesFrom(PacketSize(s, 0), |s|, 0))
  }

  /** COM_QUERY, COM_STMT_PREPARE and the commands that are checked like queries. */
  predicate StartsResponse(s: seq<byte>, size: nat) {
    |s| > 4 &&
    if s[4] == 3 || s[4] == 0x16 then |s| > 5 && s[5] != 0
    else ((s[4] == 4 || s[4] == 5 || s[4] == 6) && size > 5) || s[4] == 0xa
  }

  function AfterMySqlPacket(f: Flags, s: seq<byte>, size: nat): Flags
    requires 4 <= size <= |s| < 0x1_0000_0000
  {
    if !f.firstRequest then
      f.(lastCommand := ByteAt(s, 4), startResponse := f.startResponse || StartsResponse(s, size))
    else if size < 10 then f
    else
      var login := LoginOf(s, size);
      f.(firstRequest := login.firstRequest, secondPacket := f.secondPacket || login.secondPacket)
  }

  function AfterMySqlFrom(f: Flags, s: seq<byte>, size: nat, start: nat): Flags
    requires 4 <= size && start <= |s| < 0x1_0000_0000
    decreases |s| - start
  {
    if start + size > |s| then f
    else if start + size == |s| || start + size + 7 > |s| then AfterMySqlPacket(f, s, size)
    else AfterMySqlFrom(AfterMySqlPacket(f, s, size), s, size, start + size)
  }

  function AfterMySqlRequest(f: Flags, s: seq<byte>): Flags
    requires |s| < 0x1_0000_0000
  {
    if |s| < 3 then f else AfterMySqlFrom(f, s, PacketSize(s, 0), 0)
  }

  /** The loops of MySQL's parseResponse, with at least six bytes left to read another header. */
  function MySqlPacketsFrom(s: seq<byte>, start: nat): (n: nat)
    requires start + 3 <= |s|
    ensures start <= n <= |s|
    decreases |s| - start
  {
    var next := start + PacketSize(s, start);
    if next > |s| then start
    else if next + 5 < |s| then MySqlPacketsFrom(s, next)
    else next
  }

  /** Whole MySQL packets, one after the other. */
  predicate WholePackets(s: seq<byte>)
    decreases |s|
  {
    s == [] || (|s| >= 4 && PacketSize(s, 0) <= |s| && WholePackets(s[PacketSize(s, 0)..]))
  }

  /** The loops of MySQL's parseResponse never cut a packet; they hold back at most five bytes of a
      header, or one incomplete packet. */
  lemma {:induction false} MySqlReleasesWholePackets(s: seq<byte>, start: nat)
    requires start + 3 <= |s|
    ensures var n := MySqlPacketsFrom(s, start);
            && WholePackets(s[start..n])
            && (n + 5 >= |s| || (n + 3 <= |s| && n + PacketSize(s, n) > |s|))
    decreases |s| - start
  {
    hide WholePackets, PacketSize;
    var next := start + PacketSize(s, start);
    var n := MySqlPacketsFrom(s, start);
    NoPackets(s[n..n]);
    if next <= |s| {
      if next + 5 < |s| {
        MySqlReleasesWholePackets(s, next);
      }
      PacketBefore(s, start, n);
    }
  }

  lemma NoPackets(s: seq<byte>)
    requires s == []
    ensures WholePackets(s)
  {
  }

  /** A packet in front of whole packets. */
  lemma PacketBefore(s: seq<byte>, start: nat, n: nat)
    requires start + 3 <= |s| && start + PacketSize(s, start) <= n <= |s|
    requires WholePackets(s[start + PacketSize(s, start)..n])
    ensures WholePackets(s[start..n])
  {
    var size := PacketSize(s, start);
    var t := s[start..n];
    assert t[0] == s[start] && t[1] == s[start + 1] && t[2] == s[start + 2];
    assert t[size..] == s[start + size..n];
  }

  // ---------------------------------------------------------------- what a parser releases

  /** Does a whole greeting stand at `start`? */
  predicate GreetingAt(s: seq<byte>, start: nat)
    requires start + 3 <= |s|
  {
    start + PacketSize(s, start) <= |s| && IsGreeting(s[start..start + PacketSize(s, start)])
  }

  /** None of the packets from `start` on is one. */
  predicate NoGreetingFrom(s: seq<byte>, start: nat)
    requires start + 3 <= |s|
    decreases |s| - start
  {
    var next := start + PacketSize(s, start);
    next <= |s| ==> !GreetingAt(s, start) && (next + 5 < |s| ==> NoGreetingFrom(s, next))
  }

  /** One packet further. */
  lemma PacketStep(s: seq<byte>, start: nat)
    requires start + 3 <= |s|
    ensures var next := start + PacketSize(s, start);
            if next > |s| then MySqlPacketsFrom(s, start) == start && !GreetingAt(s, start)
            else
              && MySqlPacketsFrom(s, start) == (if next + 5 < |s| then MySqlPacketsFrom(s, next) else next)
              && (NoGreetingFrom(s, start) ==>
                    !GreetingAt(s, start) && (next + 5 < |s| ==> NoGreetingFrom(s, next)))
  {
  }

  lemma GreetingInFront(s: seq<byte>)
    requires |s| >= 3 && GreetingAt(s, 0)
    ensures 23 < PacketSize(s, 0) <= |s| && IsGreeting(s[..PacketSize(s, 0)])
  {
    assert s[0..PacketSize(s, 0)] == s[..PacketSize(s, 0)];
  }

  /** What parseResponse releases: bytes as they are, or a rewritten greeting, or, where one to five
      bytes follow the greeting, those bytes instead of it. */
  datatype Releasing = Raw(n: nat) | Greet | Lose

  function MySqlReleases(careful: bool, first: bool, second: bool, s: seq<byte>): Releasing {
    if |s| < 5 then Raw(0)
    else if !careful then Raw(MySqlPacketsFrom(s, 0))
    else if |s| < 7 then Raw(if first || second then |s| else 0)
    else if first && GreetingAt(s, 0) then (if PacketSize(s, 0) == |s| then Greet else Lose)
    else Raw(MySqlPacketsFrom(s, 0))
  }

  function PgReleases(careful: bool, s: seq<byte>): nat {
    if careful then CarefulRelease(s) else SteadyRelease(s)
  }

  function AfterPgResponse(careful: bool, f: Flags, s: seq<byte>): Flags {
    f.(firstResponse := false, secondPacket := f.secondPacket && !(careful && CarefullyDone(s)))
  }

  function AfterMySqlResponse(careful: bool, f: Flags, s: seq<byte>): Flags {
    if |s| < 5 then f
    else if careful && |s| >= 7 && PacketSize(s, 0) <= |s| then f.(startResponse := false, secondPacket := false)
    else f.(startResponse := false)
  }

  // ---------------------------------------------------------------- the state of parsing

  /** The bytes that wait in both directions, and the flags. */
  datatype Parsing = Parsing(protocol: Protocol, flags: Flags, requestIn: seq<byte>, responseIn: seq<byte>) {

    /** What happens to the bytes waiting in request_in. */
    function Takes(): Taking {
      if protocol.PgSQL? then PgTakes(flags.firstRequest, requestIn) else MySqlTakes(requestIn)
    }

    /** Does parseResponse look into the packets instead of only stepping over them? */
    predicate LooksInto() {
      match protocol
      case PgSQL =>
        flags.firstRequest || ByteAt(responseIn, 0) == 0x52 || ByteAt(responseIn, 0) == 0x45 || flags.secondPacket
      case MySQL =>
        |responseIn| >= 5 &&
        ((flags.startResponse && responseIn[4] == 0xff) || flags.lastCommand == 2
         || flags.firstRequest || flags.secondPacket)
    }

    /** What it takes out of response_in. */
    function Releases(): Releasing {
      match protocol
      case PgSQL => Raw(PgReleases(LooksInto(), responseIn))
      case MySQL => MySqlReleases(LooksInto(), flags.firstRequest, flags.secondPacket, responseIn)
    }

    /** The conditions on the bytes of requests: buffers of less than 2^31 bytes; in PostgreSQL, lengths
        from 4 on that an int holds with one added, and a probe when its answer can be framed. */
    predicate RequestsReady() {
      && |requestIn| < 0x8000_0000
      && (protocol.PgSQL? && |requestIn| == 8 ==>
            |responseIn| < 0x7FFF_FFFF && (responseIn == [] || Framed(responseIn + SSL_REFUSED)))
      && (protocol.PgSQL? && |requestIn| >= 5 && |requestIn| != 8 && !flags.firstRequest ==> Framed(requestIn))
    }

    /** Those on the bytes of responses: the same sizes and lengths; in MySQL before the login, nothing
        that the parser would read through a pointer to bytes it has moved: a greeting comes first and has at most
        five bytes after it, or there is none. */
    predicate ResponsesReady() {
      && |responseIn| < 0x8000_0000
      && (protocol.PgSQL? ==> Framed(responseIn))
      && (protocol.MySQL? && flags.firstRequest && |responseIn| >= 7 ==>
            if GreetingAt(responseIn, 0) then |responseIn| <= PacketSize(responseIn, 0) + 5
            else NoGreetingFrom(responseIn, 0))
    }

    /** After parseRequest. */
    function Requested(): Parsing
      requires |requestIn| < 0x8000_0000
    {
      match Takes()
      case Forward(n) =>
        this.(flags := if protocol.PgSQL? then AfterPgRequest(flags, requestIn) else AfterMySqlRequest(flags, requestIn),
              requestIn := Rest(requestIn, n))
      case Probe =>
        this.(requestIn := [], responseIn := if responseIn == [] then [] else responseIn + SSL_REFUSED)
      case Refuse => this
    }

    /** After parseResponse. */
    function Responded(): Parsing {
      this.(flags := if protocol.PgSQL? then AfterPgResponse(LooksInto(), flags, responseIn)
                     else AfterMySqlResponse(LooksInto(), flags, responseIn),
            responseIn := match Releases() case Raw(n) => Rest(responseIn, n) case Greet => [] case Lose => [])
    }

    /** What parseRequest passes on to the backend. */
    function Passing(): seq<byte> {
      match Takes()
      case Forward(n) => Take(requestIn, n)
      case _ => []
    }

    /** What parseResponse shows to the client: the bytes it takes out, a greeting rewritten, or only what
        follows it. */
    function Showing(): seq<byte> {
      match Releases()
      case Raw(n) => Take(responseIn, n)
      case Greet => if IsGreeting(responseIn) then Rewrite(responseIn) else responseIn
      case Lose => Rest(responseIn, PacketSize(responseIn, 0))
    }

    /** How many bytes of a greeting it loses. */
    function Losing(): nat {
      if Releases().Lose? then PacketSize(responseIn, 0) else 0
    }

    /** After both, where the first one has put its answer to a probe before the second one. */
    function Answered(): Parsing
      requires |requestIn| < 0x8000_0000
    {
      if Takes().Probe? && responseIn != [] then Requested().Responded() else Requested()
    }

    /** What the client is shown meanwhile: after a probe its answer, behind the bytes of the server's that
        it is parsed with. */
    function Replying(): seq<byte>
      requires |requestIn| < 0x8000_0000
    {
      if !Takes().Probe? then [] else if responseIn == [] then SSL_REFUSED else Requested().Showing()
    }
  }

  /** After the startup message, parseRequest leaves no whole message. */
  lemma NoneWaits(p: Parsing)
    requires p.protocol.PgSQL? && p.RequestsReady()
    ensures var q := p.Answered(); !q.flags.firstRequest ==> WholePrefix(q.requestIn) == 0
  {
    NoneLeft(p.requestIn);
  }

  // ---------------------------------------------------------------- runs

  /** What has come of a connection so far: where parsing stands, all bytes received from either side and
      all passed on to either, written or waiting to be; how many probes were seen, and how many bytes of
      greetings were lost. */
  datatype Outcome = Outcome(parse: Parsing, fromClient: seq<byte>, fromBackend: seq<byte>,
                             toClient: seq<byte>, toBackend: seq<byte>, probes: nat, lost: nat)

  /** Does the event bring bytes? */
  predicate Reads(e: Event) {
    e.canRead && e.input.Data?
  }

  /** With the event's bytes at the end of their buffer. */
  function Fed(p: Parsing, e: Event): Parsing
    requires Reads(e)
  {
    if e.OnClient? then p.(requestIn := p.requestIn + e.input.bytes)
    else p.(responseIn := p.responseIn + e.input.bytes)
  }

  /** Do the bytes it brings meet the conditions? */
  predicate May(p: Parsing, e: Event) {
    Reads(e) ==>
      e.input.bytes != [] && if e.OnClient? then Fed(p, e).RequestsReady() else Fed(p, e).ResponsesReady()
  }

  /** Does it make the bytes that wait an SSL probe, or a startup message that is refused? */
  predicate Probing(p: Parsing, e: Event) {
    Reads(e) && e.OnClient? && Fed(p, e).Takes().Probe?
  }

  predicate Refused(p: Parsing, e: Event) {
    Reads(e) && e.OnClient? && Fed(p, e).Takes().Refuse?
  }

  /** How many bytes of a greeting it makes the parser lose. */
  function Loss(p: Parsing, e: Event): nat {
    if Reads(e) && e.OnBackend? then Fed(p, e).Losing() else 0
  }

  /** What comes of one event; one that does not meet the conditions is passed over. */
  function Follow(o: Outcome, e: Event): Outcome {
    if !Reads(e) || !May(o.parse, e) then o
    else if e.OnClient? then
      o.(parse := Fed(o.parse, e).Answered(), fromClient := o.fromClient + e.input.bytes,
         toBackend := o.toBackend + Fed(o.parse, e).Passing(), toClient := o.toClient + Fed(o.parse, e).Replying(),
         probes := o.probes + if Probing(o.parse, e) then 1 else 0)
    else
      o.(parse := Fed(o.parse, e).Responded(), fromBackend := o.fromBackend + e.input.bytes,
         toClient := o.toClient + Fed(o.parse, e).Showing(),
         lost := o.lost + Loss(o.parse, e))
  }

  lemma FollowIdle(o: Outcome, e: Event)
    requires !Reads(e)
    ensures Follow(o, e) == o
  {
  }

  function Through(o: Outcome, es: seq<Event>): Outcome
    decreases |es|
  {
    if es == [] then o else Follow(Through(o, es[..|es| - 1]), es[|es| - 1])
  }

  lemma NothingYet(o: Outcome, es: seq<Event>)
    ensures Through(o, es[..0]) == o
  {
  }

  /** One more event. */
  lemma ThroughNext(o: Outcome, es: seq<Event>, n: nat)
    requires n < |es|
    ensures Through(o, es[..n + 1]) == Follow(Through(o, es[..n]), es[n])
    ensures !May(Through(o, es[..n]).parse, es[n]) ==> Through(o, es[..n + 1]) == Through(o, es[..n])
  {
    assert es[..n + 1][..n] == es[..n];
  }

  /** Probes and losses are never taken back, and bytes received stay. */
  lemma {:induction false} ThroughGrows(o: Outcome, es: seq<Event>, n: nat)
    requires n <= |es|
    ensures Through(o, es[..n]).probes <= Through(o, es).probes && Through(o, es[..n]).lost <= Through(o, es).lost
    ensures Through(o, es[..n]).fromClient <= Through(o, es).fromClient
    ensures Through(o, es[..n]).fromBackend <= Through(o, es).fromBackend
    decreases |es|
  {
    if n < |es| {
      ThroughGrows(o, es[..|es| - 1], n);
      assert es[..|es| - 1][..n] == es[..n];
    } else {
      assert es[..n] == es;
    }
  }

  /** MySQL has no probes, and PostgreSQL no greetings. */
  lemma {:induction false} ThroughProtocol(o: Outcome, es: seq<Event>)
    ensures var r := Through(o, es);
            && r.parse.protocol == o.parse.protocol
            && (o.parse.protocol.MySQL? ==> r.probes == o.probes)
            && (o.parse.protocol.PgSQL? ==> r.lost == o.lost)
    decreases |es|
  {
    if es != [] {
      ThroughProtocol(o, es[..|es| - 1]);
    }
  }

  // ---------------------------------------------------------------- what is passed on

  /** Does the event make the parser take a greeting, to rewrite or to lose it? */
  predicate Greets(p: Parsing, e: Event) {
    Reads(e) && May(p, e) && e.OnBackend? && !Fed(p, e).Releases().Raw?
  }

  function Greetings(o: Outcome, es: seq<Event>): nat
    decreases |es|
  {
    if es == [] then 0
    else
      var before := es[..|es| - 1];
      Greetings(o, before) + if Greets(Through(o, before).parse, es[|es| - 1]) then 1 else 0
  }

  /** From o on, the server's bytes have come out as they went in, or wait in response_in. */
  predicate Relays(o: Outcome, r: Outcome) {
    && o.fromBackend <= r.fromBackend
    && r.toClient + r.parse.responseIn == o.toClient + o.parse.responseIn + r.fromBackend[|o.fromBackend|..]
  }

  /** And so have the client's. */
  predicate Forwards(o: Outcome, r: Outcome) {
    && o.fromClient <= r.fromClient
    && r.toBackend + r.parse.requestIn == o.toBackend + o.parse.requestIn + r.fromClient[|o.fromClient|..]
  }

  /** With `sent` passed on and `held` back, n more of the bytes held are passed on, after `more` came in. */
  lemma PassedOn(sent: seq<byte>, held: seq<byte>, more: seq<byte>, n: nat)
    ensures sent + Take(held + more, n) + Rest(held + more, n) == sent + held + more
  {
    var s := held + more;
    if n <= |s| {
      MoveBytes(sent, s, n);
    }
    Assoc(sent, held, more);
  }

  lemma Added(before: seq<byte>, more: seq<byte>)
    ensures before <= before + more && (before + more)[|before|..] == more
  {
  }

  lemma FollowRelays(o: Outcome, e: Event)
    requires !Greets(o.parse, e) && Follow(o, e).probes == o.probes
    ensures Relays(o, Follow(o, e))
  {
    hide Parsing.Takes, Parsing.Releases, May;
    var r := Follow(o, e);
    if Reads(e) && May(o.parse, e) && e.OnBackend? {
      PassedOn(o.toClient, o.parse.responseIn, e.input.bytes, Fed(o.parse, e).Releases().n);
      Added(o.fromBackend, e.input.bytes);
    } else {
      Added(o.fromBackend, []);
      assert o.fromBackend + [] == o.fromBackend;
      assert o.toClient + [] == o.toClient;
    }
  }

  lemma NoProbeFromBackend(o: Outcome, e: Event)
    requires e.OnBackend?
    ensures Follow(o, e).probes == o.probes
  {
  }

  lemma FollowForwards(o: Outcome, e: Event)
    requires Follow(o, e).probes == o.probes
    ensures Forwards(o, Follow(o, e))
  {
    hide Parsing.Takes, Parsing.Releases, Parsing.LooksInto, May;
    var r := Follow(o, e);
    if Reads(e) && May(o.parse, e) && e.OnClient? {
      var p := Fed(o.parse, e);
      PassedOn(o.toBackend, o.parse.requestIn, e.input.bytes, if p.Takes().Forward? then p.Takes().n else 0);
      Added(o.fromClient, e.input.bytes);
    } else {
      Added(o.fromClient, []);
      assert o.fromClient + [] == o.fromClient;
    }
  }

  lemma RelaysOn(o: Outcome, m: Outcome, r: Outcome)
    requires Relays(o, m) && Relays(m, r)
    ensures Relays(o, r)
  {
    var n := |o.fromBackend|;
    assert r.fromBackend[n..] == m.fromBackend[n..] + r.fromBackend[|m.fromBackend|..];
    Assoc(o.toClient + o.parse.responseIn, m.fromBackend[n..], r.fromBackend[|m.fromBackend|..]);
  }

  lemma ForwardsOn(o: Outcome, m: Outcome, r: Outcome)
    requires Forwards(o, m) && Forwards(m, r)
    ensures Forwards(o, r)
  {
    var n := |o.fromClient|;
    assert r.fromClient[n..] == m.fromClient[n..] + r.fromClient[|m.fromClient|..];
    Assoc(o.toBackend + o.parse.requestIn, m.fromClient[n..], r.fromClient[|m.fromClient|..]);
  }

  /** Over a run without greetings and probes the client is shown exactly the server's bytes. */
  lemma {:induction false} ThroughRelays(o: Outcome, es: seq<Event>)
    requires Greetings(o, es) == 0 && Through(o, es).probes == o.probes
    ensures Relays(o, Through(o, es))
    decreases |es|
  {
    hide Follow, Relays, Greets;
    if es == [] {
      RelaysItself(o);
    } else {
      var before := es[..|es| - 1];
      NoProbeBefore(o, es);
      ThroughRelays(o, before);
      FollowRelays(Through(o, before), es[|es| - 1]);
      RelaysOn(o, Through(o, before), Through(o, es));
    }
  }

  lemma RelaysItself(o: Outcome)
    ensures Relays(o, o) && Forwards(o, o)
  {
  }

  lemma NoProbeBefore(o: Outcome, es: seq<Event>)
    requires es != [] && Through(o, es).probes == o.probes
    ensures Through(o, es[..|es| - 1]).probes == o.probes
  {
    ThroughGrows(o, es, |es| - 1);
    ThroughGrows(o, es[..|es| - 1], 0);
    NothingYet(o, es[..|es| - 1]);
  }

  /** Over a run without probes the backend is sent exactly the client's bytes. */
  lemma {:induction false} ThroughForwards(o: Outcome, es: seq<Event>)
    requires Through(o, es).probes == o.probes
    ensures Forwards(o, Through(o, es))
    decreases |es|
  {
    hide Follow, Forwards;
    if es == [] {
      RelaysItself(o);
    } else {
      var before := es[..|es| - 1];
      NoProbeBefore(o, es);
      ThroughForwards(o, before);
      FollowForwards(Through(o, before), es[|es| - 1]);
      ForwardsOn(o, Through(o, before), Through(o, es));
    }
  }

  /** After the login no greeting is taken any more, and none ever in PostgreSQL. */
  predicate PastGreeting(p: Parsing) {
    p.protocol.PgSQL? || !p.flags.firstRequest
  }

  lemma {:induction false} NeverFirstAgain(f: Flags, s: seq<byte>, size: nat, start: nat)
    requires 4 <= size && start <= |s| < 0x1_0000_0000 && !f.firstRequest
    ensures !AfterMySqlFrom(f, s, size, start).firstRequest
    decreases |s| - start
  {
    if start + size <= |s| && !(start + size == |s| || start + size + 7 > |s|) {
      NeverFirstAgain(AfterMySqlPacket(f, s, size), s, size, start + size);
    }
  }

  lemma FollowPastGreeting(o: Outcome, e: Event)
    requires PastGreeting(o.parse)
    ensures PastGreeting(Follow(o, e).parse) && !Greets(o.parse, e)
    ensures !o.parse.flags.firstRequest ==> !Follow(o, e).parse.flags.firstRequest
  {
    hide GreetingAt, NoGreetingFrom, MySqlPacketsFrom, Framed, WholePrefix, AfterMySqlFrom, HasPassword;
    if Reads(e) && May(o.parse, e) && e.OnClient? && !o.parse.flags.firstRequest {
      var s := Fed(o.parse, e).requestIn;
      if |s| >= 3 && o.parse.protocol.MySQL? {
        NeverFirstAgain(o.parse.flags, s, PacketSize(s, 0), 0);
      }
    }
  }

  lemma {:induction false} ThroughPastGreeting(o: Outcome, es: seq<Event>)
    requires PastGreeting(o.parse)
    ensures PastGreeting(Through(o, es).parse) && Greetings(o, es) == 0
    ensures !o.parse.flags.firstRequest ==> !Through(o, es).parse.flags.firstRequest
    decreases |es|
  {
    hide Follow, Greets, PastGreeting;
    if es != [] {
      var before := es[..|es| - 1];
      ThroughPastGreeting(o, before);
      FollowPastGreeting(Through(o, before), es[|es| - 1]);
    }
  }

  /** Whole PostgreSQL requests have been passed on since o. */
  predicate PassesWhole(o: Outcome, r: Outcome) {
    o.toBackend <= r.toBackend && Whole(r.toBackend[|o.toBackend|..])
  }

  lemma FollowPassesWhole(o: Outcome, e: Event)
    requires o.parse.protocol.PgSQL? && !o.parse.flags.firstRequest && Follow(o, e).probes == o.probes
    ensures PassesWhole(o, Follow(o, e))
  {
    hide Parsing.Responded, Framed, Whole;
    var r := Follow(o, e);
    EmptyIsWhole();
    if Reads(e) && May(o.parse, e) && e.OnClient? {
      var s := Fed(o.parse, e).requestIn;
      Added(o.toBackend, Fed(o.parse, e).Passing());
      if |s| >= 5 {
        WholePrefixIsWhole(s);
      } else {
        assert s[..0] == [];
      }
    } else {
      Added(o.toBackend, []);
      assert o.toBackend + [] == o.toBackend;
    }
  }

  lemma EmptyIsWhole()
    ensures Whole([])
  {
  }

  /** After the startup message and without probes, only whole messages are passed on to the backend. */
  lemma {:induction false} ThroughPassesWhole(o: Outcome, es: seq<Event>)
    requires o.parse.protocol.PgSQL? && !o.parse.flags.firstRequest && Through(o, es).probes == o.probes
    ensures PassesWhole(o, Through(o, es))
    decreases |es|
  {
    hide Follow, Whole;
    if es == [] {
      EmptyIsWhole();
    } else {
      var before := es[..|es| - 1];
      var m, r := Through(o, before), Through(o, es);
      NoProbeBefore(o, es);
      ThroughPassesWhole(o, before);
      ThroughProtocol(o, before);
      ThroughPastGreeting(o, before);
      FollowPassesWhole(m, es[|es| - 1]);
      AfterWhole(m.toBackend[|o.toBackend|..], r.toBackend[|m.toBackend|..]);
      assert r.toBackend[|o.toBackend|..] == m.toBackend[|o.toBackend|..] + r.toBackend[|m.toBackend|..];
    }
  }

  lemma {:induction false} GreetingsGrow(o: Outcome, es: seq<Event>, n: nat)
    requires n <= |es|
    ensures Greetings(o, es[..n]) <= Greetings(o, es)
    decreases |es|
  {
    if n < |es| {
      GreetingsGrow(o, es[..|es| - 1], n);
      assert es[..|es| - 1][..n] == es[..n];
    } else {
      assert es[..n] == es;
    }
  }

  /** Everything above for a run that may have ended after n events. */
  lemma UpTo(o: Outcome, es: seq<Event>, n: nat)
    requires n <= |es|
    ensures var r := Through(o, es[..n]);
            && o.fromClient <= r.fromClient && o.fromBackend <= r.fromBackend
            && (PastGreeting(o.parse) ==> Greetings(o, es) == 0)
            && (Through(o, es).probes == o.probes ==> Forwards(o, r))
            && (Through(o, es).probes == o.probes && Greetings(o, es) == 0 ==> Relays(o, r))
            && (Through(o, es).probes == o.probes && o.parse.protocol.PgSQL? && !o.parse.flags.firstRequest ==>
                  PassesWhole(o, r))
  {
    hide Through, Forwards, Relays, PassesWhole, PastGreeting, Greetings;
    ThroughGrows(o, es[..n], 0);
    NothingYet(o, es[..n]);
    ThroughGrows(o, es, n);
    GreetingsGrow(o, es, n);
    if PastGreeting(o.parse) {
      ThroughPastGreeting(o, es);
    }
    if Through(o, es).probes == o.probes {
      ThroughForwards(o, es[..n]);
      if Greetings(o, es) == 0 {
        ThroughRelays(o, es[..n]);
      }
      if o.parse.protocol.PgSQL? && !o.parse.flags.firstRequest {
        ThroughPassesWhole(o, es[..n]);
      }
    }
  }
}
