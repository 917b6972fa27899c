/** Message framing of PostgreSQL traffic: one type byte, then a 32-bit length that counts itself
    (Frontend/Backend Protocol, section 55.7 "Message Formats"). */
module PgFrames {
  import opened Sequences
  import opened Wire

  /** The header's 32-bit big-endian length; five bytes must be there. */
  function DeclaredLength(s: seq<byte>): (n: nat)
    requires |s| >= 5
    ensures n < 0x1_0000_0000
  {
    (s[1] as int) * 0x100_0000 + (s[2] as int) * 0x1_0000 + (s[3] as int) * 0x100 + s[4] as int
  }

  /** Bytes of the message that starts s, its type byte included. */
  function MessageSize(s: seq<byte>): (n: nat)
    requires |s| >= 5
    ensures n >= 1
  {
    DeclaredLength(s) + 1
  }

  /** Every header reached in s declares a length from 4 to below 2^31 - 1: the protocol's lower
      bound, and the range in which the source's int arithmetic is defined. */
  predicate Framed(s: seq<byte>)
    decreases |s|
  {
    |s| < 5 ||
    (4 <= DeclaredLength(s) < 0x7FFF_FFFF && (MessageSize(s) <= |s| ==> Framed(s[MessageSize(s)..])))
  }

  /** s is a concatenation of whole messages. */
  predicate Whole(s: seq<byte>)
    decreases |s|
  {
    s == [] || (|s| >= 5 && MessageSize(s) <= |s| && Whole(s[MessageSize(s)..]))
  }

  /** Length of the longest prefix made of whole messages. */
  function WholePrefix(s: seq<byte>): (n: nat)
    ensures n <= |s|
    decreases |s|
  {
    if |s| < 5 || MessageSize(s) > |s| then 0 else MessageSize(s) + WholePrefix(s[MessageSize(s)..])
  }

  /** What the steady path of parseResponse releases. */
  function SteadyRelease(s: seq<byte>): nat {
    WholePrefix(s)
  }

  /** What the other path, through parse_response, releases: nothing while a message whose header
      is there is incomplete. */
  function CarefulRelease(s: seq<byte>): nat {
    if |s| - WholePrefix(s) >= 5 then 0 else WholePrefix(s)
  }

  /** Has the other path come to the end of what there is? */
  predicate CarefullyDone(s: seq<byte>) {
    |s| >= 3 && |s| - WholePrefix(s) < 5
  }

  /** The two loops that step over whole messages, as parseRequest and the steady path of
      parseResponse run them. */
  method StepOverMessages(data: seq<byte>) returns (start: nat)
    requires |data| >= 5 && Framed(data)
    ensures start == WholePrefix(data)
  {
    start := 0;
    assert data[0..] == data;
    var size := Int32At(data, 0) + 1;
    while start + size <= |data|
      invariant start <= |data|
      invariant WholePrefix(data) == start + WholePrefix(data[start..])
      invariant |data| - start >= 5 && size == MessageSize(data[start..]) && Framed(data[start..])
      decreases |data| - start
    {
      var at := data[start..];
      assert at[size..] == data[start + size..];
      start := start + size;
      if start + 4 < |data| {
        size := Int32At(data, start) + 1;
      } else {
        break;
      }
    }
  }

  /** The loop of parse_response; `complete` is what it returns. */
  method StepOverCarefully(data: seq<byte>) returns (complete: bool, used: nat)
    requires Framed(data)
    ensures complete <==> CarefullyDone(data)
    ensures complete ==> used == CarefulRelease(data)
    ensures !complete ==> CarefulRelease(data) == 0
  {
    complete, used := false, 0;
    if |data| < 3 {
      return;
    }
    var start := 0;
    assert data[0..] == data;
    while start + 4 < |data|
      invariant start <= |data|
      invariant WholePrefix(data) == start + WholePrefix(data[start..])
      invariant Framed(data[start..])
    {
      var at := data[start..];
      var size := Int32At(data, start);
      assert size == DeclaredLength(at);
      if start + size + 1 > |data| || size == 0 {
        return;
      }
      assert at[size + 1..] == data[start + size + 1..];
      start := start + size + 1;
    }
    complete, used := true, start;
  }

  /** The length in the header at `start`, high byte first. */
  function Int32At(data: seq<byte>, start: nat): (n: nat)
    requires start + 5 <= |data|
    ensures n == DeclaredLength(data[start..])
  {
    (data[start + 1] as int) * 0x100_0000 + (data[start + 2] as int) * 0x1_0000
    + (data[start + 3] as int) * 0x100 + data[start + 4] as int
  }

  // ---------------------------------------------------------------- whole messages

  lemma {:induction false} WholePrefixIsWhole(s: seq<byte>)
    requires Framed(s)
    ensures Whole(s[..WholePrefix(s)])
    decreases |s|
  {
    if |s| >= 5 && MessageSize(s) <= |s| {
      var m := MessageSize(s);
      var t := s[m..];
      WholePrefixIsWhole(t);
      SameHeader(s, WholePrefix(s));
      assert s[..WholePrefix(s)][m..] == t[..WholePrefix(t)];
    }
  }

  /** A prefix that holds the header has the same message size. */
  lemma SameHeader(s: seq<byte>, n: nat)
    requires 5 <= n <= |s|
    ensures MessageSize(s[..n]) == MessageSize(s)
  {
  }

  lemma {:induction false} WholeIffAllReleased(s: seq<byte>)
    ensures Whole(s) <==> WholePrefix(s) == |s|
    decreases |s|
  {
    if |s| >= 5 && MessageSize(s) <= |s| {
      WholeIffAllReleased(s[MessageSize(s)..]);
    }
  }

  /** After whole messages the rest is framed, released and whole on its own. */
  lemma {:induction false} AfterWhole(a: seq<byte>, b: seq<byte>)
    requires Whole(a)
    ensures WholePrefix(a + b) == |a| + WholePrefix(b)
    ensures Whole(a + b) <==> Whole(b)
    ensures Framed(a + b) ==> Framed(b)
    decreases |a|
  {
    if a == [] {
      assert a + b == b;
    } else {
      var m := MessageSize(a);
      assert MessageSize(a + b) == m;
      assert (a + b)[m..] == a[m..] + b;
      AfterWhole(a[m..], b);
    }
  }

  // ---------------------------------------------------------------- any chunking

  /** One read from the backend; `careful` says which of the two paths parses it. */
  datatype Arrival = Arrival(bytes: seq<byte>, careful: bool)

  /** What has been released to the client and what is still in response_in. */
  datatype Stream = Stream(released: seq<byte>, pending: seq<byte>)

  function Receive(st: Stream, a: Arrival): Stream {
    var s := st.pending + a.bytes;
    var n := if a.careful then CarefulRelease(s) else SteadyRelease(s);
    Stream(st.released + s[..n], s[n..])
  }

  function ReceiveAll(st: Stream, arrivals: seq<Arrival>): Stream
    decreases |arrivals|
  {
    if arrivals == [] then st
    else Receive(ReceiveAll(st, arrivals[..|arrivals| - 1]), arrivals[|arrivals| - 1])
  }

  function BytesOf(arrivals: seq<Arrival>): seq<byte>
    decreases |arrivals|
  {
    if arrivals == [] then [] else BytesOf(arrivals[..|arrivals| - 1]) + arrivals[|arrivals| - 1].bytes
  }

  /** Nothing of `all` is lost or reordered, only whole messages are released, and all of it is
      when it ends on a message boundary. */
  predicate InStep(st: Stream, all: seq<byte>) {
    && st.released + st.pending == all
    && Whole(st.released)
    && (Whole(all) ==> st.pending == [])
  }

  /** However the backend's bytes are cut into reads, and whichever path parses each of them: nothing
      is lost or reordered, only whole messages are released, and whenever the bytes received end on
      a message boundary all of them are out. */
  lemma {:induction false} ChunkingIndependence(arrivals: seq<Arrival>)
    requires Framed(BytesOf(arrivals))
    ensures InStep(ReceiveAll(Stream([], []), arrivals), BytesOf(arrivals))
    ensures arrivals != [] && !arrivals[|arrivals| - 1].careful ==>
              ReceiveAll(Stream([], []), arrivals).released == BytesOf(arrivals)[..WholePrefix(BytesOf(arrivals))]
    decreases |arrivals|
  {
    if arrivals != [] {
      var before := arrivals[..|arrivals| - 1];
      var a := arrivals[|arrivals| - 1];
      FramedPrefix(BytesOf(before), a.bytes);
      ChunkingIndependence(before);
      var st := ReceiveAll(Stream([], []), before);
      Assoc(st.released, st.pending, a.bytes);
      AfterWhole(st.released, st.pending + a.bytes);
      ReceiveOne(st, a);
    }
  }

  lemma ReceiveOne(st: Stream, a: Arrival)
    requires Whole(st.released) && Framed(st.pending + a.bytes)
    ensures var all := st.released + (st.pending + a.bytes);
            var next := Receive(st, a);
            && InStep(next, all)
            && (!a.careful ==> next.released == all[..WholePrefix(all)])
  {
    var s := st.pending + a.bytes;
    AfterWhole(st.released, s);
    WholePrefixIsWhole(s);
    WholeIffAllReleased(s);
    ReleaseFrom(st.released, s, if a.careful then CarefulRelease(s) else SteadyRelease(s));
  }

  /** Moving n bytes from the pending ones to the released ones. */
  lemma {:induction false} ReleaseFrom(released: seq<byte>, s: seq<byte>, n: nat)
    requires Whole(released) && n <= |s| && (n == 0 || Whole(s[..n]))
    ensures (released + s[..n]) + s[n..] == released + s
    ensures Whole(released + s[..n])
    ensures (released + s)[..|released| + n] == released + s[..n]
  {
    MoveBytes(released, s, n);
    if n != 0 {
      AfterWhole(released, s[..n]);
    } else {
      assert released + s[..n] == released;
    }
  }

  lemma MoveBytes(r: seq<byte>, s: seq<byte>, n: nat)
    requires n <= |s|
    ensures (r + s[..n]) + s[n..] == r + s
    ensures (r + s)[..|r| + n] == r + s[..n]
  {
  }

  lemma {:induction false} FramedPrefix(a: seq<byte>, b: seq<byte>)
    requires Framed(a + b)
    ensures Framed(a)
    decreases |a|
  {
    if |a| >= 5 {
      assert DeclaredLength(a + b) == DeclaredLength(a);
      if MessageSize(a) <= |a| {
        assert (a + b)[MessageSize(a)..] == a[MessageSize(a)..] + b;
        FramedPrefix(a[MessageSize(a)..], b);
      }
    }
  }
}
