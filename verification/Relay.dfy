/** One proxied connection: the callbacks of src/greensql.cpp over the four buffers, with the
    parseRequest and parseResponse of both protocols.  Sockets answer as they please; queries are
    accepted by check_query. */
module Relay {
  import opened Sequences
  import opened Wire
  import opened PgFrames
  import opened MySqlPackets
  import opened Traffic

  /** A call of socket_write: the bytes it was given, and how many of them went out. */
  datatype SocketCall = SocketCall(toClient: bool, offered: seq<byte>, ok: bool, sent: nat)

  predicate ValidCall(c: SocketCall) {
    c.sent <= |c.offered| && (!c.ok ==> c.sent == 0)
  }

  /** One more call of socket_write, with all of `data`, unless there is none. */
  predicate Offered(before: seq<SocketCall>, after: seq<SocketCall>, toClient: bool, data: seq<byte>) {
    if data == [] then after == before
    else
      && |after| == |before| + 1 && before <= after && ValidCall(after[|before|])
      && after[|before|].toClient == toClient && after[|before|].offered == data
  }

  // ---------------------------------------------------------------- histories

  /** What became of the bytes taken from the client. */
  datatype Request = Forwarded(bytes: seq<byte>) | Swallowed(bytes: seq<byte>)

  function TakenBytes(rs: seq<Request>): seq<byte>
    decreases |rs|
  {
    if rs == [] then [] else TakenBytes(rs[..|rs| - 1]) + rs[|rs| - 1].bytes
  }

  function PassedBytes(rs: seq<Request>): seq<byte>
    decreases |rs|
  {
    if rs == [] then []
    else PassedBytes(rs[..|rs| - 1]) + if rs[|rs| - 1].Forwarded? then rs[|rs| - 1].bytes else []
  }

  /** What became of the bytes taken from the server, and what was added to them. */
  datatype Reply = Relayed(bytes: seq<byte>) | Greeting(packet: seq<byte>) | Injected(bytes: seq<byte>)
                 | Lost(packet: seq<byte>, rest: seq<byte>)

  function Drawn(r: Reply): seq<byte> {
    match r
    case Relayed(b) => b
    case Greeting(g) => g
    case Injected(_) => []
    case Lost(g, rest) => g + rest
  }

  function Shown(r: Reply): seq<byte> {
    match r
    case Relayed(b) => b
    case Greeting(g) => if IsGreeting(g) then Rewrite(g) else g
    case Injected(b) => b
    case Lost(_, rest) => rest
  }

  function DrawnBytes(rs: seq<Reply>): seq<byte>
    decreases |rs|
  {
    if rs == [] then [] else DrawnBytes(rs[..|rs| - 1]) + Drawn(rs[|rs| - 1])
  }

  function ShownBytes(rs: seq<Reply>): seq<byte>
    decreases |rs|
  {
    if rs == [] then [] else ShownBytes(rs[..|rs| - 1]) + Shown(rs[|rs| - 1])
  }

  /** How many bytes of greetings the client was never shown. */
  function LostBytes(rs: seq<Reply>): nat
    decreases |rs|
  {
    if rs == [] then 0 else LostBytes(rs[..|rs| - 1]) + if rs[|rs| - 1].Lost? then |rs[|rs| - 1].packet| else 0
  }

  function Probes(rs: seq<Request>): nat
    decreases |rs|
  {
    if rs == [] then 0 else Probes(rs[..|rs| - 1]) + if rs[|rs| - 1].Swallowed? then 1 else 0
  }

  /** Only the eight bytes of a probe are ever swallowed. */
  ghost predicate OnlyProbesSwallowed(rs: seq<Request>) {
    forall r :: r in rs && r.Swallowed? ==> |r.bytes| == 8
  }

  /** Only answers to a probe are injected, and only MySQL greetings are rewritten or lost. */
  ghost predicate OnlyGreetingsRewritten(rs: seq<Reply>, probed: bool, protocol: Protocol) {
    && (forall r :: r in rs && r.Injected? ==> probed)
    && (forall r :: r in rs && (r.Greeting? || r.Lost?) ==> protocol.MySQL? && IsGreeting(r.packet))
  }

  ghost predicate NoGreetings(rs: seq<Reply>) {
    forall r :: r in rs ==> !r.Greeting? && !r.Lost?
  }

  lemma RequestAdded(rs: seq<Request>, r: Request)
    requires OnlyProbesSwallowed(rs) && (r.Swallowed? ==> |r.bytes| == 8)
    ensures TakenBytes(rs + [r]) == TakenBytes(rs) + r.bytes
    ensures PassedBytes(rs + [r]) == PassedBytes(rs) + if r.Forwarded? then r.bytes else []
    ensures Probes(rs + [r]) == Probes(rs) + if r.Swallowed? then 1 else 0
    ensures OnlyProbesSwallowed(rs + [r])
  {
    assert (rs + [r])[..|rs|] == rs;
  }

  lemma ReplyAdded(rs: seq<Reply>, r: Reply, probed: bool, protocol: Protocol)
    requires OnlyGreetingsRewritten(rs, probed, protocol)
    requires (r.Injected? ==> probed) && (r.Greeting? || r.Lost? ==> protocol.MySQL? && IsGreeting(r.packet))
    ensures DrawnBytes(rs + [r]) == DrawnBytes(rs) + Drawn(r)
    ensures LostBytes(rs + [r]) == LostBytes(rs) + if r.Lost? then |r.packet| else 0
    ensures ShownBytes(rs + [r]) == ShownBytes(rs) + Shown(r)
    ensures OnlyGreetingsRewritten(rs + [r], probed, protocol)
  {
    assert (rs + [r])[..|rs|] == rs;
  }

  lemma DrawnFrom(d: seq<byte>, s: seq<byte>, taken: seq<byte>, left: seq<byte>)
    requires s == taken + left
    ensures d + [] + s == d + taken + left && d + s == d + taken + left
    ensures taken == s[..|taken|] && left == s[|taken|..]
  {
    assert d + [] == d;
    Assoc(d, taken, left);
  }

  /** A release from whole messages on. */
  lemma ReleasedWhole(released: seq<byte>, s: seq<byte>, careful: bool)
    requires Whole(released) && Framed(s)
    ensures var n := PgReleases(careful, s);
            n <= |s| && Whole(released + s[..n]) && (Whole(released + s) ==> s[n..] == [])
  {
    assert [] + s == s;
    ReceiveOne(Stream(released, []), Arrival(s, careful));
  }

  /** What a reply stands for, given what the parser does with the bytes s. */
  predicate Fits(reply: Reply, releasing: Releasing, s: seq<byte>) {
    match releasing
    case Raw(n) => reply == Relayed(Take(s, n))
    case Greet => reply == Greeting(s) && IsGreeting(s)
    case Lose =>
      reply.Lost? && reply.packet + reply.rest == s && IsGreeting(reply.packet)
      && |s| >= 3 && |reply.packet| == PacketSize(s, 0)
  }

  lemma RelayedIs(bytes: seq<byte>)
    ensures Shown(Relayed(bytes)) == bytes
  {
  }

  lemma FitsShowing(reply: Reply, p: Parsing)
    requires Fits(reply, p.Releases(), p.responseIn)
    ensures Shown(reply) == p.Showing()
  {
    if reply.Lost? {
      assert p.responseIn[|reply.packet|..] == reply.rest;
    }
  }

  /** A PostgreSQL reply after whole messages keeps them whole, and leaves nothing at a boundary. */
  lemma RepliedWhole(released: seq<byte>, p: Parsing, reply: Reply, left: seq<byte>)
    requires p.protocol.PgSQL? && p.ResponsesReady() && Whole(released)
    requires Fits(reply, p.Releases(), p.responseIn) && p.responseIn == Drawn(reply) + left
    ensures Whole(released + Drawn(reply)) && (Whole(released + p.responseIn) ==> left == [])
  {
    var n := PgReleases(p.LooksInto(), p.responseIn);
    ReleasedWhole(released, p.responseIn, p.LooksInto());
    assert Drawn(reply) == p.responseIn[..n];
    assert left == p.responseIn[n..];
  }

  /** Eight bytes go missing per probe, and nothing else. */
  lemma {:induction false} TakenAndPassed(rs: seq<Request>)
    requires OnlyProbesSwallowed(rs)
    ensures |TakenBytes(rs)| == |PassedBytes(rs)| + 8 * Probes(rs)
    ensures Probes(rs) == 0 ==> TakenBytes(rs) == PassedBytes(rs)
    decreases |rs|
  {
    if rs != [] {
      TakenAndPassed(rs[..|rs| - 1]);
      assert rs[|rs| - 1] in rs;
    }
  }

  /** Without a probe the client is shown as many bytes as the server sent, but for the greetings lost,
      and the very same ones where no greetings were taken. */
  lemma {:induction false} DrawnAndShown(rs: seq<Reply>, protocol: Protocol)
    requires OnlyGreetingsRewritten(rs, false, protocol)
    ensures |DrawnBytes(rs)| == |ShownBytes(rs)| + LostBytes(rs)
    ensures protocol.PgSQL? ==> NoGreetings(rs)
    ensures NoGreetings(rs) ==> DrawnBytes(rs) == ShownBytes(rs) && LostBytes(rs) == 0
    decreases |rs|
  {
    if rs != [] {
      DrawnAndShown(rs[..|rs| - 1], protocol);
      assert rs[|rs| - 1] in rs;
      assert forall r :: r in rs[..|rs| - 1] ==> r in rs;
    }
  }

  // ---------------------------------------------------------------- the connection

  class Connection {
    const protocol: Protocol
    const requestIn: Buffer
    const requestOut: Buffer
    const responseIn: Buffer
    const responseOut: Buffer
    var firstRequest: bool
    var firstResponse: bool
    var secondPacket: bool
    var startResponse: bool
    var lastCommand: byte
    /** Is the writer event of the client's, or of the backend's, socket added? */
    var proxyWriter: bool
    var backendWriter: bool
    var closed: bool

    ghost var clientReceived: seq<byte>
    ghost var clientSent: seq<byte>
    ghost var backendReceived: seq<byte>
    ghost var backendSent: seq<byte>
    ghost var requests: seq<Request>
    ghost var replies: seq<Reply>
    /** Has an SSL probe been answered, and did writing that answer fail? */
    ghost var probed: bool
    ghost var probeFailed: bool
    /** Every call of socket_write, in order. */
    ghost var calls: seq<SocketCall>

    function Mode(): Flags
      reads this`firstRequest, this`firstResponse, this`secondPacket, this`startResponse, this`lastCommand
    {
      Flags(firstRequest, firstResponse, secondPacket, startResponse, lastCommand)
    }

    /** Where parsing stands. */
    function Parse(): Parsing
      reads this`firstRequest, this`firstResponse, this`secondPacket, this`startResponse, this`lastCommand
      reads requestIn, responseIn
    {
      Parsing(protocol, Mode(), requestIn.buff, responseIn.buff)
    }

    /** What has been passed on to either side, written or waiting to be. */
    ghost function ToClient(): seq<byte>
      reads this`clientSent, responseOut
    {
      clientSent + responseOut.buff
    }

    ghost function ToBackend(): seq<byte>
      reads this`backendSent, requestOut
    {
      backendSent + requestOut.buff
    }

    ghost function Come(): Outcome
      reads this`firstRequest, this`firstResponse, this`secondPacket, this`startResponse, this`lastCommand
      reads this`clientReceived, this`clientSent, this`backendReceived, this`backendSent, this`requests, this`replies
      reads requestIn, requestOut, responseIn, responseOut
    {
      Outcome(Parse(), clientReceived, backendReceived, ToClient(), ToBackend(), Probes(requests), LostBytes(replies))
    }

    /** Since `before`, a call of socket_write was made and the last one failed. */
    ghost predicate WriteFailed(before: seq<SocketCall>)
      reads this
    {
      |before| < |calls| && !calls[|calls| - 1].ok
    }

    /** And it is one that ends the connection: the backend's failures do not before its first response. */
    ghost predicate WriteFatal(before: seq<SocketCall>, early: bool)
      reads this
    {
      WriteFailed(before) && (calls[|calls| - 1].toClient || !early)
    }

    /** Since `before`, the first call of socket_write was given all of `data`, if there is any. */
    ghost predicate OfferedFirst(before: seq<SocketCall>, toClient: bool, data: seq<byte>)
      reads this
    {
      && before <= calls
      && (data != [] ==> |before| < |calls| && calls[|before|].toClient == toClient && calls[|before|].offered == data)
    }

    ghost predicate Valid()
      reads this
    {
      && requestIn != requestOut && requestIn != responseIn && requestIn != responseOut
      && requestOut != responseIn && requestOut != responseOut && responseIn != responseOut
    }

    /** Every byte received is accounted for, in order; `request` is on its way from request_in to
        request_out, and `drawn` has left response_in. */
    ghost predicate AccountedBut(request: seq<byte>, drawn: seq<byte>)
      reads this`clientReceived, this`clientSent, this`backendReceived, this`backendSent
      reads this`requests, this`replies, this`probed, this`probeFailed, requestIn, requestOut, responseIn, responseOut
    {
      && clientReceived == TakenBytes(requests) + request + requestIn.buff
      && PassedBytes(requests) == backendSent + requestOut.buff
      && ShownBytes(replies) == clientSent + responseOut.buff
      && (!probed ==> backendReceived == DrawnBytes(replies) + drawn + responseIn.buff)
      && (probed <==> Probes(requests) > 0) && OnlyProbesSwallowed(requests) && (probeFailed ==> probed)
      && OnlyGreetingsRewritten(replies, probed, protocol)
    }

    ghost predicate Accounted()
      reads this`clientReceived, this`clientSent, this`backendReceived, this`backendSent
      reads this`requests, this`replies, this`probed, this`probeFailed, requestIn, requestOut, responseIn, responseOut
    {
      AccountedBut([], [])
    }

    /** No lost wake-up: each writer event is added exactly while its buffer has bytes to write. */
    ghost predicate Awake()
      reads this`proxyWriter, this`backendWriter, this`probeFailed, requestOut, responseOut
    {
      && (backendWriter <==> requestOut.buff != [])
      && (!probeFailed ==> (proxyWriter <==> responseOut.buff != []))
    }

    /** PostgreSQL responses: only whole messages have been taken out of response_in, and whenever what
        the server sent ends on a message boundary nothing is held back. */
    ghost predicate Settled()
      reads this`replies, this`probed, this`backendReceived, responseIn
    {
      protocol.PgSQL? && !probed ==>
        Whole(DrawnBytes(replies)) && (Whole(backendReceived) ==> responseIn.buff == [])
    }

    /** PostgreSQL requests: after the startup message, no whole message waits in request_in. */
    ghost predicate Prompt()
      reads this`firstRequest, requestIn
    {
      protocol.PgSQL? && !firstRequest ==> WholePrefix(requestIn.buff) == 0
    }

    constructor (protocol: Protocol)
      ensures Valid() && Accounted() && Awake() && Settled() && Prompt() && !closed
      ensures this.protocol == protocol && firstRequest && !probed && !probeFailed
      ensures fresh(requestIn) && fresh(requestOut) && fresh(responseIn) && fresh(responseOut)
      ensures clientReceived == clientSent == backendReceived == backendSent == []
      ensures Come() == Outcome(Parsing(protocol, Flags(true, true, false, false, 0), [], []), [], [], [], [], 0, 0)
    {
      this.protocol := protocol;
      requestIn := new Buffer();
      requestOut := new Buffer();
      responseIn := new Buffer();
      responseOut := new Buffer();
      firstRequest, firstResponse, secondPacket, startResponse := true, true, false, false;
      lastCommand := 0;
      proxyWriter, backendWriter, closed := false, false, false;
      clientReceived, clientSent, backendReceived, backendSent := [], [], [], [];
      requests, replies, probed, probeFailed, calls := [], [], false, false, [];
    }

    /** socket_write: an error, or some number of bytes, none on EAGAIN. */
    method SocketWrite(proxy: bool, data: seq<byte>) returns (ok: bool, sent: nat)
      modifies this`calls
      ensures calls == old(calls) + [SocketCall(proxy, data, ok, sent)] && ValidCall(calls[|calls| - 1])
    {
      if * {
        ok, sent := false, 0;
      } else {
        sent :| 0 <= sent <= |data|;
        ok := true;
      }
      calls := calls + [SocketCall(proxy, data, ok, sent)];
    }

    /** enable_event_writer and disable_event_writer: the event is initialised and its socket open. */
    method EnableEventWriter(proxy: bool)
      modifies this`proxyWriter, this`backendWriter
      ensures proxyWriter == (proxy || old(proxyWriter)) && backendWriter == (!proxy || old(backendWriter))
    {
      if proxy {
        if !proxyWriter {
          proxyWriter := true;
        }
      } else if !backendWriter {
        backendWriter := true;
      }
    }

    method DisableEventWriter(proxy: bool)
      modifies this`proxyWriter, this`backendWriter
      ensures proxyWriter == (!proxy && old(proxyWriter)) && backendWriter == (proxy && old(backendWriter))
    {
      if proxy {
        if proxyWriter {
          proxyWriter := false;
        }
      } else if backendWriter {
        backendWriter := false;
      }
    }

    method ProxyWriteCb() returns (ok: bool)
      requires Valid()
      modifies this`proxyWriter, this`backendWriter, this`clientSent, this`calls, responseOut
      ensures backendWriter == old(backendWriter)
      ensures ToClient() == old(ToClient()) && old(clientSent) <= clientSent
      ensures Offered(old(calls), calls, true, old(responseOut.buff))
      ensures |clientSent| == |old(clientSent)| + if old(responseOut.buff) == [] then 0 else calls[|calls| - 1].sent
      ensures ok ==> (proxyWriter <==> responseOut.buff != [])
      ensures !ok <==> WriteFailed(old(calls))
      ensures !ok ==> proxyWriter == old(proxyWriter) && responseOut.buff == old(responseOut.buff)
    {
      ok := true;
      var len := responseOut.Size();
      if len == 0 {
        DisableEventWriter(true);
        return;
      }
      var sent;
      ok, sent := SocketWrite(true, responseOut.buff);
      if !ok {
        return false;
      }
      MoveBytes(clientSent, responseOut.buff, sent);
      clientSent := clientSent + responseOut.buff[..sent];
      responseOut.ChopBack(sent);
      len := responseOut.Size();
      if len == 0 {
        DisableEventWriter(true);
      } else {
        EnableEventWriter(true);
      }
    }

    method BackendWriteCb() returns (ok: bool)
      requires Valid()
      modifies this`proxyWriter, this`backendWriter, this`backendSent, this`calls, requestOut
      ensures proxyWriter == old(proxyWriter)
      ensures ToBackend() == old(ToBackend()) && old(backendSent) <= backendSent
      ensures Offered(old(calls), calls, false, old(requestOut.buff))
      ensures |backendSent| == |old(backendSent)| + if old(requestOut.buff) == [] then 0 else calls[|calls| - 1].sent
      ensures ok ==> (backendWriter <==> requestOut.buff != [])
      ensures !ok <==> WriteFailed(old(calls)) && !firstResponse
    {
      ok := true;
      var len := requestOut.Size();
      if len == 0 {
        DisableEventWriter(false);
        return;
      }
      var sent;
      ok, sent := SocketWrite(false, requestOut.buff);
      if !ok {
        if firstResponse {
          // tried again once the socket can be written
          EnableEventWriter(false);
          return true;
        }
        return false;
      }
      MoveBytes(backendSent, requestOut.buff, sent);
      backendSent := backendSent + requestOut.buff[..sent];
      requestOut.ChopBack(sent);
      len := requestOut.Size();
      if len == 0 {
        DisableEventWriter(false);
      } else {
        EnableEventWriter(false);
      }
    }

    // -------------------------------------------------------------- requests

    method ParseRequest() returns (ok: bool, request: seq<byte>, hasResponse: bool)
      requires Valid() && Accounted() && Awake() && Parse().RequestsReady()
      modifies this`firstRequest, this`secondPacket, this`startResponse, this`lastCommand
      modifies this`requests, this`replies, this`probed
      modifies requestIn, responseIn, responseOut
      ensures AccountedBut(request, []) && Parse() == old(Parse().Requested())
      ensures Requests(old(Parse().Takes()), old(requestIn.buff), ok, request, hasResponse)
      ensures Probes(requests) == old(Probes(requests)) + if hasResponse then 1 else 0
      ensures !hasResponse ==>
                && replies == old(replies) && probed == old(probed)
                && responseIn.buff == old(responseIn.buff) && responseOut.buff == old(responseOut.buff)
      ensures hasResponse ==> Answering(old(Parse()), old(responseOut.buff))
      ensures ToClient() == old(ToClient()) + (if hasResponse && old(responseIn.buff) == [] then SSL_REFUSED else [])
      ensures LostBytes(replies) == old(LostBytes(replies))
      ensures (backendWriter <==> requestOut.buff != []) && (!hasResponse || responseIn.buff != [] ==> Awake())
    {
      hide AccountedBut, Parse, Probes, LostBytes, ToClient;
      assert ToClient() + [] == ToClient();
      if protocol.PgSQL? {
        ok, request, hasResponse := PgParseRequest();
      } else {
        ok, request, hasResponse := MySqlParseRequest();
      }
    }

    /** What parseRequest returns. */
    static predicate Requests(taking: Taking, s: seq<byte>, ok: bool, request: seq<byte>, hasResponse: bool) {
      && (ok <==> !taking.Refuse?)
      && (hasResponse <==> taking.Probe?)
      && request == if taking.Forward? then Take(s, taking.n) else []
    }

    /** The answer to a probe waits in response_in or in response_out. */
    ghost predicate Answering(before: Parsing, out: seq<byte>)
      reads this, requestIn, responseIn, responseOut
    {
      && probed
      && responseOut.buff == out + (if before.responseIn == [] then SSL_REFUSED else [])
      && (responseIn.buff == [] <==> before.responseIn == [])
      && (before.responseIn != [] ==> Parse().ResponsesReady() && Parse().Losing() == 0)
    }

    method PgParseRequest() returns (ok: bool, request: seq<byte>, hasResponse: bool)
      requires Valid() && Accounted() && Parse().RequestsReady() && protocol.PgSQL?
      modifies this`firstRequest, this`secondPacket, this`requests, this`replies, this`probed
      modifies requestIn, responseIn, responseOut
      ensures AccountedBut(request, []) && Parse() == old(Parse().Requested())
      ensures Requests(old(Parse().Takes()), old(requestIn.buff), ok, request, hasResponse)
      ensures Probes(requests) == old(Probes(requests)) + if hasResponse then 1 else 0
      ensures !hasResponse ==>
                && replies == old(replies) && probed == old(probed)
                && responseIn.buff == old(responseIn.buff) && responseOut.buff == old(responseOut.buff)
      ensures hasResponse ==> Answering(old(Parse()), old(responseOut.buff))
      ensures ToClient() == old(ToClient()) + (if hasResponse && old(responseIn.buff) == [] then SSL_REFUSED else [])
      ensures LostBytes(replies) == old(LostBytes(replies))
    {
      hide AccountedBut, Probes, LostBytes, Framed, WholePrefix, HasPassword, ToClient;
      assert ToClient() + [] == ToClient();
      ok, request, hasResponse := true, [], false;
      var fullSize := requestIn.Size();
      if fullSize < 5 {
        return;
      }
      if fullSize == 8 {
        AnswerProbe();
        return true, [], true;
      }
      if firstRequest {
        var requestSize := StartupSize(requestIn.buff);
        if requestSize > fullSize {
          return;
        }
        if requestSize < 13 {
          return false, [], false;
        }
        firstRequest := false;
        request := PopRequest(fullSize);
        return;
      }
      var start := PgStepOverRequests();
      request := PopRequest(start);
    }

    /** Take the first n bytes waiting in request_in. */
    method PopRequest(n: nat) returns (request: seq<byte>)
      requires Valid() && Accounted()
      modifies requestIn
      ensures AccountedBut(request, [])
      ensures request == Take(old(requestIn.buff), n) && requestIn.buff == Rest(old(requestIn.buff), n)
    {
      hide TakenBytes, PassedBytes, Probes, DrawnBytes, ShownBytes, LostBytes;
      hide OnlyProbesSwallowed, OnlyGreetingsRewritten;
      Assoc(TakenBytes(requests), Take(requestIn.buff, n), Rest(requestIn.buff, n));
      assert TakenBytes(requests) + [] == TakenBytes(requests);
      request := requestIn.Pop([], n, false);
    }

    /** Eight bytes in the buffer are taken for an SSL probe: drop them and answer "N". */
    method AnswerProbe()
      requires Valid() && Accounted() && |requestIn.buff| == 8 && protocol.PgSQL?
      modifies this`requests, this`replies, this`probed, requestIn, responseIn, responseOut
      ensures Accounted() && probed && Probes(requests) == old(Probes(requests)) + 1
      ensures LostBytes(replies) == old(LostBytes(replies))
      ensures requestIn.buff == []
      ensures responseIn.buff == if old(responseIn.buff) == [] then [] else old(responseIn.buff) + SSL_REFUSED
      ensures responseOut.buff == old(responseOut.buff) + (if old(responseIn.buff) == [] then SSL_REFUSED else [])
      ensures ToClient() == old(ToClient()) + (if old(responseIn.buff) == [] then SSL_REFUSED else [])
    {
      hide TakenBytes, PassedBytes, Probes, DrawnBytes, ShownBytes, LostBytes, OnlyProbesSwallowed;
      assert OnlyGreetingsRewritten(replies, true, protocol);
      hide OnlyGreetingsRewritten;
      if responseIn.buff != [] {
        // behind what the server sent, to be parsed with it
        responseIn.Append(SSL_REFUSED, 1);
      } else {
        Assoc(clientSent, responseOut.buff, SSL_REFUSED);
        responseOut.Append(SSL_REFUSED, 1);
        ReplyAdded(replies, Injected(SSL_REFUSED), true, protocol);
        replies := replies + [Injected(SSL_REFUSED)];
      }
      var request := requestIn.Pop([], 8, false);
      RequestAdded(requests, Swallowed(request));
      requests, probed := requests + [Swallowed(request)], true;
    }

    /** The loop over the messages in request_in. */
    method PgStepOverRequests() returns (start: nat)
      requires |requestIn.buff| >= 5 && Framed(requestIn.buff)
      modifies this`secondPacket
      ensures start == WholePrefix(requestIn.buff)
      ensures secondPacket == (old(secondPacket) || HasPassword(requestIn.buff))
    {
      var data := requestIn.buff;
      start := 0;
      assert data[0..] == data;
      var size := Int32At(data, 0) + 1;
      while start + size <= |data|
        invariant start <= |data|
        invariant WholePrefix(data) == start + WholePrefix(data[start..])
        invariant |data| - start >= 5 && size == MessageSize(data[start..]) && Framed(data[start..])
        invariant (old(secondPacket) || HasPassword(data)) == (secondPacket || HasPassword(data[start..]))
        decreases |data| - start
      {
        assert data[start..][size..] == data[start + size..];
        InspectPgRequest(data[start..], size);
        start := start + size;
        if start == |data| {
          break;
        }
        if start + 5 > |data| {
          return;
        }
        size := Int32At(data, start) + 1;
      }
    }

    /** parse_request on a message after the first, for the flag it sets. */
    method InspectPgRequest(data: seq<byte>, size: nat)
      requires 0 < size <= |data|
      modifies this`secondPacket
      ensures secondPacket == (old(secondPacket) || IsPassword(data, size))
    {
      if size == 16 && data[..8] != CANCEL {
        return;
      }
      if data[0] == 0x70 {
        secondPacket := true;
      }
    }

    method MySqlParseRequest() returns (ok: bool, request: seq<byte>, hasResponse: bool)
      requires Valid() && Accounted() && Parse().RequestsReady() && protocol.MySQL?
      modifies this`firstRequest, this`secondPacket, this`startResponse, this`lastCommand, requestIn
      ensures AccountedBut(request, []) && Parse() == old(Parse().Requested())
      ensures Requests(old(Parse().Takes()), old(requestIn.buff), ok, request, hasResponse) && !hasResponse
    {
      hide AccountedBut;
      ok, request, hasResponse := true, [], false;
      var fullSize := requestIn.Size();
      if fullSize < 3 {
        return;
      }
      if PacketSize(requestIn.buff, 0) > fullSize {
        return;
      }
      var start := MySqlStepOverRequests();
      request := PopRequest(start);
    }

    /** The loop over the packets in request_in, which reads each header at the start of the buffer. */
    method MySqlStepOverRequests() returns (start: nat)
      requires 3 <= |requestIn.buff| < 0x8000_0000
      modifies this`firstRequest, this`secondPacket, this`startResponse, this`lastCommand
      ensures start == MySqlTakesFrom(PacketSize(requestIn.buff, 0), |requestIn.buff|, 0)
      ensures Mode() == AfterMySqlRequest(old(Mode()), requestIn.buff)
    {
      start := 0;
      var data := requestIn.buff;
      var fullSize := |data|;
      var requestSize := PacketSize(data, 0);
      while start + requestSize <= fullSize
        invariant start <= fullSize && data == requestIn.buff && requestSize == PacketSize(data, 0)
        invariant MySqlTakesFrom(requestSize, fullSize, 0) == MySqlTakesFrom(requestSize, fullSize, start)
        invariant AfterMySqlRequest(old(Mode()), data) == AfterMySqlFrom(Mode(), data, requestSize, start)
        decreases fullSize - start
      {
        InspectMySqlRequest(data, requestSize);
        start := start + requestSize;
        if start == fullSize {
          break;
        }
        if start + 7 > fullSize {
          return;
        }
        data := requestIn.buff;
        requestSize := PacketSize(data, 0);
      }
    }

    /** ParseRequestPacket, for the flags it sets. */
    method InspectMySqlRequest(data: seq<byte>, size: nat)
      requires 4 <= size <= |data| < 0x8000_0000
      modifies this`firstRequest, this`secondPacket, this`startResponse, this`lastCommand
      ensures Mode() == AfterMySqlPacket(old(Mode()), data, size)
    {
      if firstRequest {
        var user, name, second;
        user, name, firstRequest, second := ParseLogin(data, size, [], []);
        secondPacket := secondPacket || second;
        return;
      }
      var kind := ByteAt(data, 4);
      lastCommand := kind;
      if kind == 3 || kind == 0x16 {
        if data[5..] != [] && data[5] != 0 {
          startResponse := true;
        }
      } else if ((kind == 4 || kind == 5 || kind == 6) && size > 5) || kind == 0xa {
        startResponse := true;
      }
    }

    // -------------------------------------------------------------- responses

    /** `reply` says what was taken out of response_in, and `response` is what the client gets for it. */
    method ParseResponse() returns (response: seq<byte>, ghost reply: Reply)
      requires Valid() && Accounted() && Parse().ResponsesReady()
      modifies this`firstResponse, this`secondPacket, this`startResponse, responseIn
      ensures AccountedBut([], Drawn(reply))
      ensures response == Shown(reply) == old(Parse().Showing()) && old(responseIn.buff) == Drawn(reply) + responseIn.buff
      ensures Fits(reply, old(Parse().Releases()), old(responseIn.buff)) && (protocol.PgSQL? ==> reply.Relayed?)
      ensures Parse() == old(Parse().Responded())
    {
      hide TakenBytes, PassedBytes, Probes, DrawnBytes, ShownBytes, LostBytes;
      hide OnlyProbesSwallowed, OnlyGreetingsRewritten;
      hide Fits, Shown, Parsing.Releases, Parsing.Responded, Parsing.ResponsesReady, Parsing.Showing;
      ghost var before, parse := responseIn.buff, Parse();
      if protocol.PgSQL? {
        response := PgParseResponse();
        reply := Relayed(response);
        RelayedIs(response);
      } else {
        response, reply := MySqlParseResponse();
      }
      FitsShowing(reply, parse);
      DrawnFrom(DrawnBytes(replies), before, Drawn(reply), responseIn.buff);
    }

    method PgParseResponse() returns (response: seq<byte>)
      requires Valid() && Parse().ResponsesReady() && protocol.PgSQL?
      modifies this`firstResponse, this`secondPacket, responseIn
      ensures old(responseIn.buff) == response + responseIn.buff
      ensures Fits(Relayed(response), old(Parse().Releases()), old(responseIn.buff))
      ensures Parse() == old(Parse().Responded())
    {
      hide Framed, Whole, DeclaredLength, GreetingAt, NoGreetingFrom, MySqlReleases, AfterMySqlResponse;
      response := [];
      var data := responseIn.buff;
      firstResponse := false;
      if !(firstRequest || ByteAt(data, 0) == 0x52 || ByteAt(data, 0) == 0x45 || secondPacket) {
        if |data| < 5 {
          return;
        }
        var start := StepOverMessages(data);
        response := responseIn.Pop(response, start, false);
        return;
      }
      var complete, used := StepOverCarefully(data);
      if !complete {
        return;
      }
      secondPacket := false;
      response := responseIn.Pop(response, used, false);
    }

    method MySqlParseResponse() returns (response: seq<byte>, ghost reply: Reply)
      requires Valid() && Parse().ResponsesReady() && protocol.MySQL?
      modifies this`secondPacket, this`startResponse, responseIn
      ensures response == Shown(reply) && old(responseIn.buff) == Drawn(reply) + responseIn.buff
      ensures Fits(reply, old(Parse().Releases()), old(responseIn.buff))
      ensures Parse() == old(Parse().Responded())
    {
      hide MySqlPacketsFrom, PacketSize, VersionLength, NoGreetingFrom;
      response, reply := [], Relayed([]);
      var fullSize := responseIn.Size();
      if fullSize < 5 {
        return;
      }
      var data := responseIn.buff;
      if !((startResponse && data[4] == 0xff) || lastCommand == 2 || firstRequest || secondPacket) {
        var start := StepOverPackets(data);
        response := responseIn.Pop(response, start, false);
        reply := Relayed(response);
        startResponse := false;
        return;
      }
      startResponse := false;
      if fullSize < 7 {
        if firstRequest || secondPacket {
          response := responseIn.Pop(response, fullSize, false);
          reply := Relayed(response);
        }
        return;
      }
      response, reply := MySqlParsePackets(data);
    }

    /** The rest of it: look into the packets, and take out what was stepped over. */
    method MySqlParsePackets(data: seq<byte>) returns (response: seq<byte>, ghost reply: Reply)
      requires Valid() && |data| >= 7 && data == responseIn.buff
      requires firstRequest ==>
                 if GreetingAt(data, 0) then |data| <= PacketSize(data, 0) + 5 else NoGreetingFrom(data, 0)
      modifies this`secondPacket, responseIn
      ensures response == Shown(reply) && data == Drawn(reply) + responseIn.buff
      ensures firstRequest && GreetingAt(data, 0) ==>
                responseIn.buff == [] && Fits(reply, if PacketSize(data, 0) == |data| then Greet else Lose, data)
      ensures !(firstRequest && GreetingAt(data, 0)) ==>
                reply == Relayed(data[..MySqlPacketsFrom(data, 0)]) && responseIn.buff == data[MySqlPacketsFrom(data, 0)..]
      ensures secondPacket == (old(secondPacket) && PacketSize(data, 0) > |data|)
    {
      hide PacketSize, MySqlPacketsFrom, NoGreetingFrom, GreetingAt, IsGreeting, VersionLength, Rewrite;
      var start;
      start, response := LookIntoPackets(data);
      if firstRequest && GreetingAt(data, 0) {
        GreetingInFront(data);
        reply := if start == |data| then Greeting(data) else Lost(data[..start], data[start..]);
        assert data[..|data|] == data;
      } else {
        reply := Relayed(data[..start]);
      }
      if |responseIn.buff| > 0 {
        // this overwrites a greeting that is already there
        response := responseIn.Pop(response, start, false);
      }
    }

    /** The loop that only steps over packets. */
    method StepOverPackets(data: seq<byte>) returns (start: nat)
      requires |data| >= 5
      ensures start == MySqlPacketsFrom(data, 0)
    {
      start := 0;
      var size := PacketSize(data, 0);
      while start + size <= |data|
        invariant start + 3 <= |data| && size == PacketSize(data, start)
        invariant MySqlPacketsFrom(data, 0) == MySqlPacketsFrom(data, start)
        decreases |data| - start
      {
        start := start + size;
        if start + 5 < |data| {
          size := PacketSize(data, start);
        } else {
          break;
        }
      }
    }

    /** The loop that calls ParseResponsePacket, which takes a greeting out of the buffer itself. */
    method LookIntoPackets(data: seq<byte>) returns (start: nat, response: seq<byte>)
      requires Valid() && |data| >= 7 && data == responseIn.buff
      requires firstRequest ==>
                 if GreetingAt(data, 0) then |data| <= PacketSize(data, 0) + 5 else NoGreetingFrom(data, 0)
      modifies this`secondPacket, responseIn
      ensures firstRequest && GreetingAt(data, 0) ==>
                start == PacketSize(data, 0) && response == Rewrite(data[..start]) && responseIn.buff == data[start..]
      ensures !(firstRequest && GreetingAt(data, 0)) ==>
                responseIn.buff == data && response == [] && start == MySqlPacketsFrom(data, 0)
      ensures secondPacket == (old(secondPacket) && PacketSize(data, 0) > |data|)
    {
      hide PacketSize, MySqlPacketsFrom, NoGreetingFrom, GreetingAt, Rewrite;
      start, response := 0, [];
      var size := PacketSize(data, 0);
      while start + size <= |data|
        invariant start + 3 <= |data| && size == PacketSize(data, start)
        invariant firstRequest && GreetingAt(data, 0) ==> start == 0
        invariant firstRequest && !GreetingAt(data, 0) ==> NoGreetingFrom(data, start)
        invariant secondPacket == (old(secondPacket) && start == 0)
        invariant start > 0 ==> PacketSize(data, 0) <= |data|
        invariant responseIn.buff == data && response == []
        invariant MySqlPacketsFrom(data, 0) == MySqlPacketsFrom(data, start)
        decreases |data| - start
      {
        PacketStep(data, start);
        response := ParseResponsePacket(data, start, size, response);
        secondPacket := false;
        start := start + size;
        if start + 5 < |data| {
          size := PacketSize(data, start);
        } else {
          break;
        }
      }
      if start + 3 <= |data| {
        PacketStep(data, start);
      }
    }

    /** The packet at `start`; a greeting is popped from the buffer's front. */
    method ParseResponsePacket(data: seq<byte>, start: nat, size: nat, before: seq<byte>) returns (response: seq<byte>)
      requires start + 3 <= |data| && size == PacketSize(data, start) && start + size <= |data|
      requires firstRequest && GreetingAt(data, start) ==> start == 0 && data == responseIn.buff
      modifies responseIn
      ensures firstRequest && GreetingAt(data, start) ==>
                response == Rewrite(data[..size]) && responseIn.buff == data[size..]
      ensures !(firstRequest && GreetingAt(data, start)) ==> response == before && responseIn.buff == old(responseIn.buff)
    {
      response := before;
      if firstRequest && size > 23 {
        var srvLen := CStringLength(data, start + 5);
        if srvLen > size - 5 {
          srvLen := size - 5;
        }
        VersionInPacket(data, start, size);
        if srvLen + 20 > size {
          return;
        }
        response := responseIn.Pop(response, size, false);
        response := RewriteGreeting(response);
      }
    }

    /** strlen runs on past the packet; cut to the packet it is the version's length there. */
    static lemma VersionInPacket(data: seq<byte>, start: nat, size: nat)
      requires 5 < size && start + size <= |data|
      ensures VersionLength(data[start..start + size]) == Min(CStringLength(data, start + 5), size - 5)
    {
      var packet := data[start..start + size];
      var n := Min(CStringLength(data, start + 5), size - 5);
      forall i | 5 <= i < 5 + n ensures packet[i] != 0 {
        assert packet[i] == data[start + i];
      }
      CStringLengthIs(packet, 5, n);
    }

    // -------------------------------------------------------------- callbacks

    lemma ReceivedSoFar()
      requires Accounted() && !probed
      ensures backendReceived == DrawnBytes(replies) + responseIn.buff
    {
      assert DrawnBytes(replies) + [] == DrawnBytes(replies);
    }

    lemma ComeMeans()
      ensures Come().parse == Parse() && Parse().protocol == protocol && Parse().flags.firstRequest == firstRequest
      ensures Come().parse.requestIn == requestIn.buff && Come().parse.responseIn == responseIn.buff
      ensures Come().fromClient == clientReceived && Come().fromBackend == backendReceived
      ensures Come().toClient == ToClient() && Come().toBackend == ToBackend()
    {
    }

    /** Push what parseResponse releases to response_out and try to write it. */
    method ProxyValidateServerResponse() returns (ok: bool)
      requires Valid() && Accounted() && Awake() && Parse().ResponsesReady()
      requires protocol.PgSQL? && !probed ==> Whole(DrawnBytes(replies))
      modifies this`firstResponse, this`secondPacket, this`startResponse, this`replies
      modifies this`proxyWriter, this`backendWriter, this`clientSent, this`calls, responseIn, responseOut
      ensures Accounted() && Settled() && (ok ==> Awake())
      ensures Parse() == old(Parse().Responded())
      ensures ToClient() == old(ToClient()) + old(Parse().Showing())
      ensures LostBytes(replies) == old(LostBytes(replies)) + old(Parse().Losing())
      ensures old(clientSent) <= clientSent && old(calls) <= calls
      ensures !ok <==> WriteFailed(old(calls))
      ensures |calls| > |old(calls)| ==> calls[|calls| - 1].toClient
    {
      hide AccountedBut, Probes, LostBytes, DrawnBytes, Whole, PacketSize, IsGreeting, OnlyGreetingsRewritten;
      hide Parsing.Releases, Parsing.LooksInto, Parsing.Responded, Parsing.ResponsesReady, Parsing.Showing, ToClient;
      ghost var before := Parse();
      if !probed {
        ReceivedSoFar();
      }
      var response, reply := ParseResponse();
      if protocol.PgSQL? && !probed {
        RepliedWhole(DrawnBytes(replies), before, reply, responseIn.buff);
      }
      ok := PushResponse(response, reply);
    }

    /** The rest of it: account for the reply, and send it if there is anything to send. */
    method PushResponse(response: seq<byte>, ghost reply: Reply) returns (ok: bool)
      requires Valid() && AccountedBut([], Drawn(reply)) && Awake() && response == Shown(reply)
      requires (reply.Injected? ==> probed) && (reply.Greeting? || reply.Lost? ==> protocol.MySQL? && IsGreeting(reply.packet))
      modifies this`replies, this`proxyWriter, this`backendWriter, this`clientSent, this`calls, responseOut
      ensures Accounted() && (ok ==> Awake())
      ensures old(clientSent) <= clientSent
      ensures Offered(old(calls), calls, true, if response == [] then [] else old(responseOut.buff) + response)
      ensures !ok <==> WriteFailed(old(calls))
      ensures replies == old(replies) + [reply] && DrawnBytes(replies) == DrawnBytes(old(replies)) + Drawn(reply)
      ensures LostBytes(replies) == LostBytes(old(replies)) + if reply.Lost? then |reply.packet| else 0
      ensures ToClient() == old(ToClient()) + response
    {
      hide TakenBytes, PassedBytes, Probes, DrawnBytes, ShownBytes, LostBytes;
      hide OnlyProbesSwallowed, OnlyGreetingsRewritten;
      ReplyAdded(replies, reply, probed, protocol);
      replies := replies + [reply];
      if |response| == 0 {
        assert ShownBytes(old(replies)) + response == ShownBytes(old(replies));
        assert ToClient() + response == ToClient();
        return true;
      }
      ok := SendResponse(response);
    }

    method SendResponse(response: seq<byte>) returns (ok: bool)
      requires Valid() && response != []
      modifies this`proxyWriter, this`backendWriter, this`clientSent, this`calls, responseOut
      ensures backendWriter == old(backendWriter)
      ensures ToClient() == old(ToClient()) + response
      ensures old(clientSent) <= clientSent
      ensures Offered(old(calls), calls, true, old(responseOut.buff) + response)
      ensures ok ==> (proxyWriter <==> responseOut.buff != [])
      ensures !ok <==> WriteFailed(old(calls))
    {
      Assoc(clientSent, responseOut.buff, response);
      responseOut.Append(response, |response|);
      assert response[..|response|] == response;
      ok := ProxyWriteCb();
    }

    /** Parse what is in request_in, push it to request_out and try to write it. */
    method ProxyValidateClientRequest() returns (ok: bool)
      requires Valid() && Accounted() && Awake() && Parse().RequestsReady()
      modifies this`firstRequest, this`firstResponse, this`secondPacket, this`startResponse, this`lastCommand
      modifies this`requests, this`replies, this`probed, this`probeFailed, this`proxyWriter, this`backendWriter
      modifies this`clientSent, this`backendSent, this`calls, requestIn, requestOut, responseIn, responseOut
      ensures Accounted() && (ok ==> Awake())
      ensures Parse() == old(Parse().Answered())
      ensures Probes(requests) == old(Probes(requests)) + if old(Parse().Takes()).Probe? then 1 else 0
      ensures probed == (old(probed) || old(Parse().Takes()).Probe?)
      ensures !probed ==> replies == old(replies) && responseIn.buff == old(responseIn.buff)
      ensures ToBackend() == old(ToBackend()) + old(Parse().Passing())
      ensures ToClient() == old(ToClient()) + old(Parse().Replying())
      ensures LostBytes(replies) == old(LostBytes(replies))
      ensures old(clientSent) <= clientSent && old(backendSent) <= backendSent && old(calls) <= calls
      ensures Ended(ok, old(Parse().Takes()), old(calls), old(firstResponse))
      ensures probeFailed ==> old(probeFailed) || (old(Parse().Takes()).Probe? && WriteFailed(old(calls)))
    {
      hide AccountedBut, Awake, Probes, LostBytes;
      hide Parsing.Takes, Parsing.Requested, Parsing.Responded, Parsing.RequestsReady, Parsing.ResponsesReady;
      hide Parsing.Losing, Parsing.Showing, ToClient, ToBackend;
      ghost var parse := Parse();
      var request, hasResponse;
      ok, request, hasResponse := ParseRequest();
      assert request == parse.Passing();
      assert ToClient() + [] == ToClient() && ToBackend() + [] == ToBackend();
      if !ok {
        return false;
      }
      if hasResponse {
        ok := PushProbeAnswer();
        if !ok {
          return false;
        }
      }
      if |request| <= 0 {
        return true;
      }
      ok := PushRequest(request);
    }

    /** Handling a request fails for a refused startup message or a fatal write, and without a probe
        always then. */
    ghost predicate Ended(ok: bool, taking: Taking, before: seq<SocketCall>, early: bool)
      reads this
    {
      && (taking.Refuse? ==> !ok)
      && (!ok ==> taking.Refuse? || WriteFatal(before, early))
      && (!taking.Probe? ==>
            && (WriteFailed(before) && !early ==> !ok)
            && (|calls| > |before| ==> !calls[|calls| - 1].toClient))
    }

    /** Response parsing takes the answer to a probe along if the server's bytes wait before it;
        otherwise it is written at once. */
    method PushProbeAnswer() returns (ok: bool)
      requires Valid() && Accounted() && probed
      requires responseIn.buff != [] ==> Parse().ResponsesReady() && Parse().Losing() == 0 && Awake()
      requires responseIn.buff == [] ==> responseOut.buff != []
      requires backendWriter <==> requestOut.buff != []
      modifies this`firstResponse, this`secondPacket, this`startResponse, this`replies
      modifies this`proxyWriter, this`backendWriter, this`clientSent, this`probeFailed, this`calls
      modifies responseIn, responseOut
      ensures Accounted() && (ok ==> Awake())
      ensures Parse() == old(if responseIn.buff != [] then Parse().Responded() else Parse())
      ensures ToClient() == old(ToClient()) + old(if responseIn.buff != [] then Parse().Showing() else [])
      ensures LostBytes(replies) == old(LostBytes(replies))
      ensures old(clientSent) <= clientSent && old(calls) <= calls && (!ok ==> WriteFatal(old(calls), true))
      ensures probeFailed ==> old(probeFailed) || WriteFailed(old(calls))
    {
      hide AccountedBut, Awake, LostBytes, DrawnBytes, ToClient;
      hide Parsing.Responded, Parsing.ResponsesReady, Parsing.Losing, Parsing.Showing;
      assert ToClient() + [] == ToClient();
      ok := true;
      var n := responseIn.Size();
      var m := responseOut.Size();
      if n != 0 {
        ok := ProxyValidateServerResponse();
      } else if m != 0 {
        WriteProbeAnswer();
      }
    }

    /** A failure to write it is not looked at. */
    method WriteProbeAnswer()
      requires Valid() && Accounted() && probed && responseOut.buff != [] && (backendWriter <==> requestOut.buff != [])
      modifies this`proxyWriter, this`backendWriter, this`clientSent, this`probeFailed, this`calls, responseOut
      ensures Accounted() && Awake() && ToClient() == old(ToClient())
      ensures old(clientSent) <= clientSent && old(calls) <= calls
      ensures probeFailed ==> old(probeFailed) || WriteFailed(old(calls))
    {
      hide TakenBytes, PassedBytes, Probes, DrawnBytes, ShownBytes, LostBytes;
      hide OnlyProbesSwallowed, OnlyGreetingsRewritten;
      var written := ProxyWriteCb();
      probeFailed := probeFailed || !written;
    }

    method PushRequest(request: seq<byte>) returns (ok: bool)
      requires Valid() && AccountedBut(request, []) && Awake()
      modifies this`requests, this`proxyWriter, this`backendWriter, this`backendSent, this`calls, requestOut
      ensures Accounted() && (ok ==> Awake())
      ensures old(backendSent) <= backendSent
      ensures Probes(requests) == old(Probes(requests))
      ensures ToBackend() == old(ToBackend()) + request
      ensures Offered(old(calls), calls, false, old(requestOut.buff) + request)
      ensures !ok <==> WriteFailed(old(calls)) && !firstResponse
    {
      hide TakenBytes, PassedBytes, Probes, DrawnBytes, ShownBytes, LostBytes;
      hide OnlyProbesSwallowed, OnlyGreetingsRewritten;
      RequestAdded(requests, Forwarded(request));
      Assoc(backendSent, requestOut.buff, request);
      requests := requests + [Forwarded(request)];
      requestOut.Append(request, |request|);
      assert request[..|request|] == request;
      ok := BackendWriteCb();
    }

    method CloseConnection()
      modifies this`closed
      ensures closed
    {
      closed := true;
    }

    /** What every callback keeps. */
    ghost predicate Kept()
      reads this, requestIn, requestOut, responseIn, responseOut
    {
      Accounted() && Settled() && Prompt() && (!closed ==> Awake())
    }

    /** The bytes read go to the end of request_in. */
    method TakeFromClient(data: seq<byte>)
      requires Valid() && Accounted()
      modifies this`clientReceived, requestIn
      ensures Accounted() && requestIn.buff == old(requestIn.buff) + data && clientReceived == old(clientReceived) + data
    {
      hide TakenBytes, PassedBytes, Probes, DrawnBytes, ShownBytes, LostBytes;
      hide OnlyProbesSwallowed, OnlyGreetingsRewritten;
      requestIn.Append(data, |data|);
      assert data[..|data|] == data;
      Assoc(TakenBytes(requests), old(requestIn.buff), data);
      assert TakenBytes(requests) + [] == TakenBytes(requests);
      clientReceived := clientReceived + data;
    }

    /** And those of the server's to the end of response_in. */
    method TakeFromBackend(data: seq<byte>)
      requires Valid() && Accounted()
      modifies this`backendReceived, responseIn
      ensures Accounted() && responseIn.buff == old(responseIn.buff) + data && backendReceived == old(backendReceived) + data
    {
      hide TakenBytes, PassedBytes, Probes, DrawnBytes, ShownBytes, LostBytes;
      hide OnlyProbesSwallowed, OnlyGreetingsRewritten;
      responseIn.Append(data, |data|);
      assert data[..|data|] == data;
      Assoc(DrawnBytes(replies), old(responseIn.buff), data);
      assert DrawnBytes(replies) + [] == DrawnBytes(replies);
      backendReceived := backendReceived + data;
    }

    /** Proxy_cb once the bytes of the event e are there. */
    method ProxyRead(data: seq<byte>, ghost e: Event) returns (ok: bool)
      requires Valid() && Kept() && !closed && May(Parse(), e) && Reads(e) && e.OnClient? && data == e.input.bytes
      modifies this, requestIn, requestOut, responseIn, responseOut
      ensures Accounted() && Settled() && Prompt() && (ok ==> Awake())
      ensures Come() == Follow(old(Come()), e)
      ensures probed == (old(probed) || old(Probing(Parse(), e)))
      ensures Ended(ok, old(Fed(Parse(), e).Takes()), old(calls), old(firstResponse))
      ensures probeFailed ==> old(probeFailed) || (old(Probing(Parse(), e)) && WriteFailed(old(calls)))
      ensures old(clientSent) <= clientSent && old(backendSent) <= backendSent && old(calls) <= calls
      ensures closed == old(closed)
    {
      hide AccountedBut, Awake, Probes, LostBytes, Whole, WholePrefix, DrawnBytes, ToClient, ToBackend;
      hide Parsing.Takes, Parsing.Answered, Parsing.RequestsReady, Parsing.Passing, Parsing.Replying;
      TakeFromClient(data);
      if protocol.PgSQL? {
        NoneWaits(Parse());
      }
      ok := ProxyValidateClientRequest();
    }

    /** Backend_cb once the bytes of the event e are there. */
    method BackendRead(data: seq<byte>, ghost e: Event) returns (ok: bool)
      requires Valid() && Kept() && !closed && May(Parse(), e) && Reads(e) && e.OnBackend? && data == e.input.bytes
      modifies this, responseIn, responseOut
      ensures Accounted() && Settled() && Prompt() && (ok ==> Awake())
      ensures Come() == Follow(old(Come()), e)
      ensures probed == old(probed) && probeFailed == old(probeFailed)
      ensures !ok <==> WriteFailed(old(calls))
      ensures |calls| > |old(calls)| ==> calls[|calls| - 1].toClient
      ensures old(clientSent) <= clientSent && backendSent == old(backendSent) && old(calls) <= calls
      ensures closed == old(closed)
    {
      hide AccountedBut, Awake, Probes, LostBytes, Whole, WholePrefix, DrawnBytes, ToClient, ToBackend;
      hide Parsing.Responded, Parsing.ResponsesReady, Parsing.Losing, Parsing.Showing;
      TakeFromBackend(data);
      ok := ProxyValidateServerResponse();
    }

    /** The write callbacks, where nothing is on its way between the buffers. */
    method ProxyFlush() returns (ok: bool)
      requires Valid() && Accounted() && Awake()
      modifies this`proxyWriter, this`backendWriter, this`clientSent, this`calls, responseOut
      ensures Accounted() && Awake() && old(clientSent) <= clientSent && Come() == old(Come())
      ensures Offered(old(calls), calls, true, old(responseOut.buff)) && (!ok <==> WriteFailed(old(calls)))
    {
      hide TakenBytes, PassedBytes, Probes, DrawnBytes, ShownBytes, LostBytes;
      hide OnlyProbesSwallowed, OnlyGreetingsRewritten;
      ok := ProxyWriteCb();
    }

    method BackendFlush() returns (ok: bool)
      requires Valid() && Accounted() && Awake()
      modifies this`proxyWriter, this`backendWriter, this`backendSent, this`calls, requestOut
      ensures Accounted() && (ok ==> Awake()) && old(backendSent) <= backendSent && Come() == old(Come())
      ensures Offered(old(calls), calls, false, old(requestOut.buff)) && (!ok <==> WriteFailed(old(calls)) && !firstResponse)
    {
      hide TakenBytes, PassedBytes, Probes, DrawnBytes, ShownBytes, LostBytes;
      hide OnlyProbesSwallowed, OnlyGreetingsRewritten;
      ok := BackendWriteCb();
    }

    /** Does the event itself end the connection? */
    static predicate Ends(p: Parsing, e: Event) {
      (e.canRead && e.input.Broken?) || Refused(p, e)
    }

    /** Either event of the client's socket fired. */
    method ProxyCb(canWrite: bool, canRead: bool, input: ReadOutcome)
      requires Valid() && Kept() && !closed && May(Parse(), OnClient(canWrite, canRead, input))
      modifies this, requestIn, requestOut, responseIn, responseOut
      ensures Kept()
      ensures var e := OnClient(canWrite, canRead, input);
              Come() == Follow(old(Come()), e) || (closed && Come() == old(Come()))
      ensures var e := OnClient(canWrite, canRead, input);
              && (closed ==> WriteFatal(old(calls), old(firstResponse)) || Ends(old(Parse()), e))
              && (Ends(old(Parse()), e) ==> closed)
              && (WriteFatal(old(calls), old(firstResponse)) && !Probing(old(Parse()), e) ==> closed)
              && (probeFailed ==> old(probeFailed) || Probing(old(Parse()), e))
      ensures canWrite ==> OfferedFirst(old(calls), true, old(responseOut.buff))
      ensures old(clientSent) <= clientSent && old(backendSent) <= backendSent && old(calls) <= calls
    {
      hide AccountedBut, Awake, Settled, Prompt, Parse, Come, Follow, May;
      hide Fed, Parsing.Takes;
      ghost var e := OnClient(canWrite, canRead, input);
      if canWrite {
        var ok := ProxyFlush();
        if !ok {
          CloseConnection();
          return;
        }
      }
      if !(canRead && input.Data?) {
        FollowIdle(Come(), e);
      }
      if !canRead {
        return;
      }
      match input
      case Broken => CloseConnection();
      case WouldBlock =>
      case Data(data) =>
        var ok := ProxyRead(data, e);
        if !ok {
          CloseConnection();
        }
    }

    /** Either event of the backend's socket fired. */
    method BackendCb(canWrite: bool, canRead: bool, input: ReadOutcome)
      requires Valid() && Kept() && !closed && May(Parse(), OnBackend(canWrite, canRead, input))
      modifies this, requestOut, responseIn, responseOut
      ensures Kept()
      ensures var e := OnBackend(canWrite, canRead, input);
              Come() == Follow(old(Come()), e) || (closed && Come() == old(Come()))
      ensures !Greets(old(Parse()), OnBackend(canWrite, canRead, input)) ==>
                && old(backendReceived) <= backendReceived
                && ToClient() + responseIn.buff
                   == old(ToClient() + responseIn.buff) + backendReceived[|old(backendReceived)|..]
      ensures closed <==> WriteFatal(old(calls), old(firstResponse)) || (canRead && input.Broken?)
      ensures probed == old(probed) && probeFailed == old(probeFailed)
      ensures canWrite ==> OfferedFirst(old(calls), false, old(requestOut.buff))
      ensures old(clientSent) <= clientSent && old(backendSent) <= backendSent && old(calls) <= calls
    {
      hide AccountedBut, Awake, Settled, Prompt, Parse, Come, Follow, May, Relays, Greets, ToClient;
      ghost var e := OnBackend(canWrite, canRead, input);
      ghost var start := Come();
      ComeMeans();
      if !Greets(Parse(), e) {
        NoProbeFromBackend(start, e);
        FollowRelays(start, e);
        RelaysItself(start);
      }
      if canWrite {
        var ok := BackendFlush();
        if !ok {
          CloseConnection();
          RelayedSince(start);
          return;
        }
      }
      if !(canRead && input.Data?) {
        FollowIdle(Come(), e);
      }
      if canRead {
        match input {
          case Broken => CloseConnection();
          case WouldBlock =>
          case Data(data) =>
            var ok := BackendRead(data, e);
            if !ok {
              CloseConnection();
            }
        }
      }
      RelayedSince(start);
    }

    /** Relays, in terms of the fields. */
    lemma RelayedSince(o: Outcome)
      ensures Relays(o, Come()) ==>
                && o.fromBackend <= backendReceived
                && ToClient() + responseIn.buff
                   == o.toClient + o.parse.responseIn + backendReceived[|o.fromBackend|..]
    {
    }

    /** What the accounts come to: the client's bytes all reach the backend, in order, exactly as long
        as no eight of them were taken for a probe; then the server's bytes all reach the client, the same
        number of them but for the greetings lost, and unchanged where no greeting was taken. */
    ghost predicate Conserved()
      reads this, requestIn, requestOut, responseIn, responseOut
    {
      && (Probes(requests) == 0 <==> clientReceived == backendSent + requestOut.buff + requestIn.buff)
      && (Probes(requests) == 0 ==>
            |backendReceived| == |clientSent| + |responseOut.buff| + |responseIn.buff| + LostBytes(replies))
      && (Probes(requests) == 0 && (protocol.PgSQL? || NoGreetings(replies)) ==>
            backendReceived == clientSent + responseOut.buff + responseIn.buff)
    }

    lemma AccountedMeansConserved()
      requires Accounted()
      ensures Conserved()
      ensures Come().probes == Probes(requests) && Come().lost == LostBytes(replies)
      ensures Probes(requests) == 0 ==> !probeFailed
    {
      TakenAndPassed(requests);
      assert TakenBytes(requests) + [] == TakenBytes(requests);
      assert DrawnBytes(replies) + [] == DrawnBytes(replies);
      if !probed {
        DrawnAndShown(replies, protocol);
      }
    }

    /** Any run: the event loop calls the callbacks in any order, with any chunks, short writes and
        errors.  An event that does not meet the conditions is passed over.  What has come of the
        connection is what the events say, all of them unless it is closed; then up to the last one
        handled, which may have failed before its bytes were read. */
    method Run(events: seq<Event>) returns (handled: nat)
      requires Valid() && Kept() && !closed
      modifies this, requestIn, requestOut, responseIn, responseOut
      ensures Kept() && Conserved()
      ensures handled <= |events| && (!closed ==> handled == |events|)
      ensures Come() == Through(old(Come()), events[..handled])
           || (closed && handled > 0 && Come() == Through(old(Come()), events[..handled - 1]))
      ensures closed ==> handled > 0 && (WriteFailed(old(calls)) ||
                                         Ends(Through(old(Come()), events[..handled - 1]).parse, events[handled - 1]))
      ensures Delivers(old(Come()), events)
      ensures old(clientSent) <= clientSent && old(backendSent) <= backendSent
    {
      hide AccountedBut, Awake, Settled, Prompt, Conserved, Through, Follow, May, Refused, Probes, LostBytes, Parse;
      hide Come, Delivers;
      handled := 0;
      ghost var start := Come();
      ComeMeans();
      NothingYet(start, events);
      while handled < |events| && !closed
        decreases |events| - handled
        invariant handled <= |events| && Valid() && Kept() && old(calls) <= calls
        invariant Come() == Through(start, events[..handled])
               || (closed && handled > 0 && Come() == Through(start, events[..handled - 1]))
        invariant closed ==> handled > 0 && (WriteFailed(old(calls)) ||
                                             Ends(Through(start, events[..handled - 1]).parse, events[handled - 1]))
        invariant old(clientSent) <= clientSent && old(backendSent) <= backendSent
      {
        ThroughNext(start, events, handled);
        match events[handled] {
          case OnClient(canWrite, canRead, input) =>
            ComeMeans();
            if May(Parse(), events[handled]) {
              ProxyCb(canWrite, canRead, input);
            }
          case OnBackend(canWrite, canRead, input) =>
            ComeMeans();
            if May(Parse(), events[handled]) {
              BackendCb(canWrite, canRead, input);
            }
        }
        handled := handled + 1;
      }
      assert Accounted();
      AccountedMeansConserved();
      if Come() == Through(start, events[..handled]) {
        RunDelivers(start, events, handled);
      } else {
        RunDelivers(start, events, handled - 1);
      }
      assert events[..|events|] == events;
    }

    /** What a run of events from o on delivers, however writes were answered and wherever the run ended. */
    ghost predicate Delivers(o: Outcome, events: seq<Event>)
      reads this, requestIn, requestOut, responseIn, responseOut
    {
      var all := Through(o, events);
      && o.fromClient <= clientReceived && o.fromBackend <= backendReceived
      // probes are there in PostgreSQL only, greetings in MySQL before the login only
      && (protocol.MySQL? ==> all.probes == o.probes)
      && (protocol.PgSQL? || !o.parse.flags.firstRequest ==> Greetings(o, events) == 0)
      && (protocol.PgSQL? ==> all.lost == o.lost)
      // where the events make no probe, the backend gets the client's bytes, and in whole messages
      && (all.probes == o.probes ==>
            ToBackend() + requestIn.buff == o.toBackend + o.parse.requestIn + clientReceived[|o.fromClient|..])
      && (all.probes == o.probes && protocol.PgSQL? && !o.parse.flags.firstRequest ==>
            o.toBackend <= ToBackend() && Whole(ToBackend()[|o.toBackend|..]))
      // where they also make no greeting be taken, the client gets the server's bytes
      && (all.probes == o.probes && Greetings(o, events) == 0 ==>
            ToClient() + responseIn.buff == o.toClient + o.parse.responseIn + backendReceived[|o.fromBackend|..])
      // in MySQL after the login, bytes conserved so far are conserved
      && (protocol.MySQL? && !o.parse.flags.firstRequest && o.fromBackend == o.toClient + o.parse.responseIn ==>
            backendReceived == ToClient() + responseIn.buff)
      // where there never was a probe, all bytes are, but for greetings, and no wake-up is lost
      && (all.probes == 0 ==>
            && clientReceived == ToBackend() + requestIn.buff
            && (!closed ==> (proxyWriter <==> responseOut.buff != []))
            && (protocol.PgSQL? ==> backendReceived == ToClient() + responseIn.buff)
            && |backendReceived| == |ToClient()| + |responseIn.buff| + LostBytes(replies)
            && LostBytes(replies) <= all.lost)
    }

    lemma RunDelivers(o: Outcome, events: seq<Event>, n: nat)
      requires n <= |events| && Come() == Through(o, events[..n]) && o.parse.protocol == protocol
      requires Accounted() && (!closed ==> Awake())
      ensures Delivers(o, events)
    {
      hide AccountedBut, Settled, Prompt, Through, Follow, May, Probes, LostBytes, Greetings;
      ThroughGrows(o, events, n);
      ThroughProtocol(o, events);
      UpTo(o, events, n);
      ComeMeans();
      AccountedMeansConserved();
      if o.fromBackend == o.toClient + o.parse.responseIn && o.fromBackend <= backendReceived {
        assert backendReceived == o.fromBackend + backendReceived[|o.fromBackend|..];
      }
    }
  }
}
