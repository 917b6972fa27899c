/** The parameters of a PostgreSQL StartupMessage (Frontend/Backend Protocol, section 55.7): the
    first-request branch of parse_request and pg_parse_protocol_params (src/pgsql/pgsql_con.cpp). */
module PgStartup {
  import opened Wire

  const USER: seq<byte> := [117, 115, 101, 114]
  const DATABASE: seq<byte> := [100, 97, 116, 97, 98, 97, 115, 101]
  const OPTIONS: seq<byte> := [111, 112, 116, 105, 111, 110, 115]

  lemma NamesAre()
    ensures USER == ['u' as int, 's' as int, 'e' as int, 'r' as int]
    ensures DATABASE
            == ['d' as int, 'a' as int, 't' as int, 'a' as int, 'b' as int, 'a' as int, 's' as int, 'e' as int]
    ensures OPTIONS == ['o' as int, 'p' as int, 't' as int, 'i' as int, 'o' as int, 'n' as int, 's' as int]
  {
  }

  /** The three values that are kept, each the last non-empty one seen. */
  datatype Params = Params(user: seq<byte>, database: seq<byte>, options: seq<byte>)

  /** Where the text that contains `ind` ends, inside the first `size` bytes. */
  function EndOfText(data: seq<byte>, ind: nat, size: nat): (end: nat)
    requires size <= |data|
    ensures ind <= end && (ind <= size ==> end <= size)
    decreases size - ind
  {
    if ind < size && data[ind] != 0 then EndOfText(data, ind + 1, size) else ind
  }

  /** pg_parse_protocol_params: skip an option's name by its length and take what follows as its
      value.  The name is compared with the start of the message, not with the place `ind`; where the
      message does begin with it, the value is skipped. */
  function ValueAfter(data: seq<byte>, size: nat, ind: nat, name: seq<byte>): (value: seq<byte>)
    requires size <= |data|
  {
    var from := ind + |name| + 1;
    if from < size && !(name <= data) then data[from..EndOfText(data, from, size)] else []
  }

  function NextAfter(data: seq<byte>, size: nat, ind: nat, name: seq<byte>): (next: nat)
    requires size <= |data|
    ensures next > ind || next == size
  {
    if ind + |name| > size then size
    else EndOfText(data, ind + |name| + 1, size) + if name <= data then 0 else 1
  }

  function Or(value: seq<byte>, before: seq<byte>): seq<byte> {
    if value != [] then value else before
  }

  /** The loop over the parameters, from index `ind` on. */
  function Scan(data: seq<byte>, size: nat, ind: nat, p: Params): Params
    requires size <= |data|
    decreases size - ind
  {
    if ind >= size then p
    else if data[ind] == USER[0] then
      Scan(data, size, NextAfter(data, size, ind, USER), p.(user := Or(ValueAfter(data, size, ind, USER), p.user)))
    else if data[ind] == DATABASE[0] then
      Scan(data, size, NextAfter(data, size, ind, DATABASE),
           p.(database := Or(ValueAfter(data, size, ind, DATABASE), p.database)))
    else if data[ind] == OPTIONS[0] then
      Scan(data, size, NextAfter(data, size, ind, OPTIONS),
           p.(options := Or(ValueAfter(data, size, ind, OPTIONS), p.options)))
    else
      Scan(data, size, SkipUnknown(data, size, ind), p)
  }

  function SkipUnknown(data: seq<byte>, size: nat, ind: nat): (next: nat)
    requires ind < size <= |data|
    ensures ind < next
  {
    var end := EndOfText(data, ind, size);
    if ByteAt(data, end) == 0 then end + 1 else end
  }

  method ParseProtocolParams(data: seq<byte>, requestSize: nat, ind: nat, option: seq<byte>, result: seq<byte>)
    returns (next: nat, value: seq<byte>)
    requires ind < requestSize <= |data|
    ensures next == NextAfter(data, requestSize, ind, option)
    ensures value == Or(ValueAfter(data, requestSize, ind, option), result)
  {
    next, value := ind, result;
    if ind + |option| > requestSize {
      next := requestSize;
      return;
    }
    if option <= data {
      next := SkipValue(data, ind + |option| + 1, requestSize);
      return;
    }
    next := SkipValue(data, ind + |option| + 1, requestSize);
    var i := next - (ind + |option| + 1);
    if i > 0 {
      value := data[next - i..next];
    }
    next := next + 1;
  }

  /** The inner loops: on to the next NUL, or to the end of the message. */
  method SkipValue(data: seq<byte>, from: nat, requestSize: nat) returns (next: nat)
    requires requestSize <= |data|
    ensures next == EndOfText(data, from, requestSize)
  {
    next := from;
    while next < requestSize && data[next] != 0
      invariant from <= next && (next <= requestSize || next == from)
      invariant EndOfText(data, from, requestSize) == EndOfText(data, next, requestSize)
    {
      next := next + 1;
    }
  }

  method ParseStartup(data: seq<byte>, requestSize: nat, oldOptions: seq<byte>) returns (ok: bool, p: Params)
    requires requestSize <= |data|
    ensures ok <==> requestSize >= 13
    ensures ok ==> p == Scan(data, requestSize, 8, Params([], [], oldOptions))
  {
    p := Params([], [], oldOptions);
    ok := false;
    if requestSize < 13 {
      return;
    }
    ok := true;
    var ind := 8;
    while ind < requestSize
      invariant Scan(data, requestSize, 8, Params([], [], oldOptions)) == Scan(data, requestSize, ind, p)
      decreases requestSize - ind
    {
      if data[ind] == 117 {
        var v;
        ind, v := ParseProtocolParams(data, requestSize, ind, USER, p.user);
        p := p.(user := v);
      } else if data[ind] == 100 {
        var v;
        ind, v := ParseProtocolParams(data, requestSize, ind, DATABASE, p.database);
        p := p.(database := v);
      } else if data[ind] == 111 {
        var v;
        ind, v := ParseProtocolParams(data, requestSize, ind, OPTIONS, p.options);
        p := p.(options := v);
      } else {
        ind := SkipValue(data, ind, requestSize);
        if ByteAt(data, ind) == 0 {
          ind := ind + 1;
        }
      }
    }
  }

  // ---------------------------------------------------------------- printing a startup message

  /** One parameter: one of the three that are kept, or another one. */
  datatype Entry = User(value: seq<byte>) | Database(value: seq<byte>) | Options(value: seq<byte>)
                 | Other(name: seq<byte>, value: seq<byte>)

  function NameOf(e: Entry): seq<byte> {
    match e
    case User(_) => USER
    case Database(_) => DATABASE
    case Options(_) => OPTIONS
    case Other(name, _) => name
  }

  function EntryText(e: Entry): seq<byte> {
    NameOf(e) + ([0] + (e.value + [0]))
  }

  function EntriesText(es: seq<Entry>): seq<byte> {
    if es == [] then [] else EntryText(es[0]) + EntriesText(es[1..])
  }

  /** Reading one entry. */
  function Read(e: Entry, p: Params): Params {
    match e
    case User(v) => p.(user := Or(v, p.user))
    case Database(v) => p.(database := Or(v, p.database))
    case Options(v) => p.(options := Or(v, p.options))
    case Other(_, _) => p
  }

  /** What the entries mean: the last non-empty value of each kind. */
  function Meaning(es: seq<Entry>, p: Params): Params
    decreases |es|
  {
    if es == [] then p else Meaning(es[1..], Read(es[0], p))
  }

  /** A text is taken for one of the three options by its first byte. */
  predicate Known(b: byte) {
    b == USER[0] || b == DATABASE[0] || b == OPTIONS[0]
  }

  function NameBy(b: byte): (name: seq<byte>)
    requires Known(b)
    ensures 4 <= |name| <= 8
  {
    if b == USER[0] then USER else if b == DATABASE[0] then DATABASE else OPTIONS
  }

  /** What goes wrong when the parameter printed as t is read from its index i on: nothing, a part of it
      is taken for a value, or reading runs over its end. */
  datatype Fault = Fine | TakesValue | RunsOver

  function FaultFrom(t: seq<byte>, i: nat): Fault
    decreases |t| - i
  {
    if i >= |t| then (if i == |t| then Fine else RunsOver)
    else if Known(t[i]) then
      var from := i + |NameBy(t[i])| + 1;
      if from >= |t| then RunsOver else if t[from] != 0 then TakesValue else FaultFrom(t, from + 1)
    else FaultFrom(t, EndOfText(t, i, |t|) + 1)
  }

  lemma FaultStep(t: seq<byte>, i: nat)
    requires i <= |t|
    ensures i == |t| ==> FaultFrom(t, i).Fine?
    ensures i < |t| && Known(t[i]) ==>
              var from := i + |NameBy(t[i])| + 1;
              FaultFrom(t, i) == if from >= |t| then RunsOver else if t[from] != 0 then TakesValue
                                 else FaultFrom(t, from + 1)
    ensures i < |t| && !Known(t[i]) ==> FaultFrom(t, i) == FaultFrom(t, EndOfText(t, i, |t|) + 1)
  {
  }

  /** Text that does not begin like one of the three names. */
  predicate Skippable(s: seq<byte>) {
    NulFree(s) && (s != [] ==> !Known(s[0]))
  }

  /** A parameter that is kept may have any value; another one must be passed by. */
  predicate ValidEntry(e: Entry) {
    NulFree(e.value) && (e.Other? ==> NulFree(e.name) && FaultFrom(EntryText(e), 0).Fine?)
  }

  // ---------------------------------------------------------------- texts in a message

  /** `text` stands at index k of the data. */
  predicate Holds(data: seq<byte>, k: nat, text: seq<byte>) {
    k + |text| <= |data| && data[k..k + |text|] == text
  }

  lemma HoldsParts(data: seq<byte>, k: nat, a: seq<byte>, b: seq<byte>)
    requires Holds(data, k, a + b)
    ensures Holds(data, k, a) && Holds(data, k + |a|, b)
  {
    assert data[k..k + |a|] == data[k..k + |a + b|][..|a|] == a;
    assert data[k + |a|..k + |a| + |b|] == data[k..k + |a + b|][|a|..] == b;
  }

  lemma HoldsAt(data: seq<byte>, k: nat, text: seq<byte>, i: nat)
    requires Holds(data, k, text) && i < |text|
    ensures data[k + i] == text[i]
  {
    assert data[k..k + |text|][i] == data[k + i];
  }

  lemma EndOfTextIs(data: seq<byte>, k: nat, n: nat, size: nat)
    requires k + n < size <= |data| && data[k + n] == 0
    requires forall i :: k <= i < k + n ==> data[i] != 0
    ensures EndOfText(data, k, size) == k + n
    decreases n
  {
    if n > 0 {
      EndOfTextIs(data, k + 1, n - 1, size);
    }
  }

  /** Inside a text that ends in a NUL, the end found in the whole message is the one found in it. */
  lemma {:induction false} EndInside(data: seq<byte>, k: nat, t: seq<byte>, i: nat, size: nat)
    requires Holds(data, k, t) && k + |t| <= size <= |data| && i < |t| && t[|t| - 1] == 0
    ensures EndOfText(data, k + i, size) == k + EndOfText(t, i, |t|) && EndOfText(t, i, |t|) < |t|
    ensures t[EndOfText(t, i, |t|)] == 0
    decreases |t| - i
  {
    HoldsAt(data, k, t, i);
    if t[i] != 0 {
      EndInside(data, k, t, i + 1, size);
    }
  }

  /** The message does not begin with an option's name. */
  predicate NoNameAtStart(data: seq<byte>) {
    !(USER <= data) && !(DATABASE <= data) && !(OPTIONS <= data)
  }

  /** The message begins with its length, so this holds of every message shorter than 0x64000000 bytes. */
  lemma ShortMessage(data: seq<byte>)
    requires |data| > 0 && data[0] < 0x64
    ensures NoNameAtStart(data)
  {
  }

  // ---------------------------------------------------------------- one step of the scan

  /** The parameter that a first byte stands for gets the value. */
  function Kept(b: byte, value: seq<byte>, p: Params): Params
    requires Known(b)
  {
    if b == USER[0] then p.(user := Or(value, p.user))
    else if b == DATABASE[0] then p.(database := Or(value, p.database))
    else p.(options := Or(value, p.options))
  }

  lemma ScanKnown(data: seq<byte>, size: nat, k: nat, p: Params)
    requires k < size <= |data| && Known(data[k]) && NoNameAtStart(data)
    requires k + |NameBy(data[k])| + 1 < size
    ensures var from := k + |NameBy(data[k])| + 1;
            var end := EndOfText(data, from, size);
            Scan(data, size, k, p) == Scan(data, size, end + 1, Kept(data[k], data[from..end], p))
  {
    hide EndOfText, ValueAfter, NextAfter, NoNameAtStart;
    AfterKnown(data, size, k, NameBy(data[k]));
  }

  lemma AfterKnown(data: seq<byte>, size: nat, k: nat, name: seq<byte>)
    requires k + |name| + 1 < size <= |data| && NoNameAtStart(data)
    requires name == USER || name == DATABASE || name == OPTIONS
    ensures var from := k + |name| + 1;
            var end := EndOfText(data, from, size);
            ValueAfter(data, size, k, name) == data[from..end] && NextAfter(data, size, k, name) == end + 1
  {
  }

  lemma ScanUnknown(data: seq<byte>, size: nat, k: nat, p: Params)
    requires k < size <= |data| && !Known(data[k])
    ensures Scan(data, size, k, p) == Scan(data, size, SkipUnknown(data, size, k), p)
  {
  }

  lemma ScanEnd(data: seq<byte>, size: nat, p: Params)
    requires size <= |data|
    ensures Scan(data, size, size, p) == p
  {
  }

  /** From a text's index on, up to the next NUL inside it. */
  lemma ScanTextUnknown(data: seq<byte>, size: nat, k: nat, t: seq<byte>, i: nat, p: Params)
    requires Holds(data, k, t) && k + |t| <= size <= |data| && i < |t| && t[|t| - 1] == 0 && !Known(t[i])
    ensures Scan(data, size, k + i, p) == Scan(data, size, k + EndOfText(t, i, |t|) + 1, p)
    ensures EndOfText(t, i, |t|) < |t|
  {
    hide Scan;
    HoldsAt(data, k, t, i);
    EndInside(data, k, t, i, size);
    HoldsAt(data, k, t, EndOfText(t, i, |t|));
    ScanUnknown(data, size, k + i, p);
  }

  /** An option's name and a NUL, or as many bytes, and then an empty value. */
  lemma ScanTextEmpty(data: seq<byte>, size: nat, k: nat, t: seq<byte>, i: nat, p: Params)
    requires Holds(data, k, t) && k + |t| <= size <= |data| && i < |t| && Known(t[i]) && NoNameAtStart(data)
    requires i + |NameBy(t[i])| + 1 < |t| && t[i + |NameBy(t[i])| + 1] == 0
    ensures Scan(data, size, k + i, p) == Scan(data, size, k + i + |NameBy(t[i])| + 2, p)
  {
    hide Scan;
    var from := i + |NameBy(t[i])| + 1;
    HoldsAt(data, k, t, i);
    HoldsAt(data, k, t, from);
    ScanKnown(data, size, k + i, p);
    assert EndOfText(data, k + from, size) == k + from;
  }

  // ---------------------------------------------------------------- reading it back

  /** A parameter without fault is passed by. */
  lemma {:induction false} ScanFine(data: seq<byte>, size: nat, k: nat, t: seq<byte>, i: nat, p: Params)
    requires Holds(data, k, t) && k + |t| <= size <= |data| && NoNameAtStart(data)
    requires t != [] && t[|t| - 1] == 0 && FaultFrom(t, i).Fine?
    ensures Scan(data, size, k + i, p) == Scan(data, size, k + |t|, p)
    decreases |t| - i
  {
    hide Scan, Holds, NoNameAtStart;
    if i < |t| {
      if Known(t[i]) {
        ScanTextEmpty(data, size, k, t, i, p);
        ScanFine(data, size, k, t, i + |NameBy(t[i])| + 2, p);
      } else {
        ScanTextUnknown(data, size, k, t, i, p);
        ScanFine(data, size, k, t, EndOfText(t, i, |t|) + 1, p);
      }
    }
  }

  /** Where the parts of a printed entry are. */
  lemma EntryParts(data: seq<byte>, k: nat, e: Entry, size: nat)
    requires Holds(data, k, EntryText(e)) && NulFree(e.value) && k + |EntryText(e)| <= size <= |data|
    ensures var m := k + |NameOf(e)| + 1;
            && Holds(data, k, NameOf(e)) && Holds(data, m, e.value)
            && EndOfText(data, m, size) == m + |e.value| && k + |EntryText(e)| == m + |e.value| + 1
  {
    hide EndOfText, Holds;
    var name, m := NameOf(e), k + |NameOf(e)| + 1;
    HoldsParts(data, k, name, [0] + (e.value + [0]));
    HoldsParts(data, k + |name|, [0], e.value + [0]);
    HoldsParts(data, m, e.value, [0]);
    HoldsAt(data, m + |e.value|, [0], 0);
    ValueHeld(data, m + |e.value|, [0]);
    forall i | m <= i < m + |e.value| ensures data[i] != 0 {
      HoldsAt(data, m, e.value, i - m);
    }
    EndOfTextIs(data, m, |e.value|, size);
  }

  lemma EntryEndsInNul(e: Entry)
    ensures EntryText(e) != [] && EntryText(e)[|EntryText(e)| - 1] == 0
  {
  }

  /** A printed parameter is read as what it means, and the scan goes on right after it. */
  lemma ScanEntry(data: seq<byte>, size: nat, k: nat, e: Entry, p: Params)
    requires Holds(data, k, EntryText(e)) && ValidEntry(e) && k + |EntryText(e)| <= size <= |data|
    requires NoNameAtStart(data)
    ensures Scan(data, size, k, p) == Scan(data, size, k + |EntryText(e)|, Read(e, p))
  {
    hide Scan, Holds, NoNameAtStart, FaultFrom, NulFree, EntryText, EndOfText, Kept, Read, Known, NameBy;
    if e.Other? {
      EntryEndsInNul(e);
      ScanFine(data, size, k, EntryText(e), 0, p);
      OtherIsNotKept(e, p);
    } else {
      KeptIsRead(e, p);
      EntryParts(data, k, e, size);
      HoldsAt(data, k, NameOf(e), 0);
      ScanKnown(data, size, k, p);
      ValueHeld(data, k + |NameOf(e)| + 1, e.value);
    }
  }

  lemma OtherIsNotKept(e: Entry, p: Params)
    requires e.Other?
    ensures Read(e, p) == p
  {
  }

  lemma KeptIsRead(e: Entry, p: Params)
    requires !e.Other?
    ensures var name := NameOf(e);
            && name != [] && Known(name[0]) && NameBy(name[0]) == name
            && Kept(name[0], e.value, p) == Read(e, p)
  {
  }

  lemma ValueHeld(data: seq<byte>, m: nat, value: seq<byte>)
    requires Holds(data, m, value)
    ensures m + |value| <= |data| && data[m..m + |value|] == value
  {
  }

  lemma {:induction false} ScanEntries(data: seq<byte>, size: nat, k: nat, es: seq<Entry>, p: Params)
    requires Holds(data, k, EntriesText(es)) && k + |EntriesText(es)| <= size <= |data|
    requires NoNameAtStart(data) && forall i :: 0 <= i < |es| ==> ValidEntry(es[i])
    ensures Scan(data, size, k, p) == Scan(data, size, k + |EntriesText(es)|, Meaning(es, p))
    decreases |es|
  {
    hide Scan, Holds, NoNameAtStart, EntryText, ValidEntry;
    if es != [] {
      var text := EntryText(es[0]);
      HoldsParts(data, k, text, EntriesText(es[1..]));
      ScanEntry(data, size, k, es[0], p);
      ScanEntries(data, size, k + |text|, es[1..], Read(es[0], p));
    }
  }

  /** The whole message: length, protocol version, parameters and a final NUL. */
  function StartupText(head: seq<byte>, es: seq<Entry>): seq<byte> {
    head + (EntriesText(es) + [0])
  }

  predicate ValidHead(head: seq<byte>) {
    |head| == 8 && head[0] < 0x64
  }

  /** Reading a startup message gives back the last non-empty value of each parameter, whatever the
      number and order of its entries, and whatever follows the message in the buffer. */
  lemma StartupRoundTrip(head: seq<byte>, es: seq<Entry>, next: seq<byte>, p: Params)
    requires ValidHead(head) && forall i :: 0 <= i < |es| ==> ValidEntry(es[i])
    ensures var message := StartupText(head, es);
            Scan(message + next, |message|, 8, p) == Meaning(es, p)
  {
    hide Scan, Meaning, EntriesText, ValidEntry;
    var message := StartupText(head, es);
    var data := message + next;
    var text := EntriesText(es);
    assert data == head + (text + ([0] + next));
    assert data[8..8 + |text|] == text && data[8 + |text|] == 0 && data[0] == head[0];
    ShortMessage(data);
    ScanEntries(data, |message|, 8, es, p);
    ScanLast(data, |message|, Meaning(es, p));
  }

  /** The final NUL ends the scan. */
  lemma ScanLast(data: seq<byte>, size: nat, p: Params)
    requires 0 < size <= |data| && data[size - 1] == 0
    ensures Scan(data, size, size - 1, p) == p
  {
  }

  // ---------------------------------------------------------------- which other parameters are passed by

  const NONE := Params([], [], [])

  /** Are the parameters of this message read as what they mean? */
  predicate ReadsBack(head: seq<byte>, es: seq<Entry>) {
    Scan(StartupText(head, es), |StartupText(head, es)|, 8, NONE) == Meaning(es, NONE)
  }

  lemma TextSkipped(t: seq<byte>, i: nat, text: seq<byte>)
    requires Holds(t, i, text + [0]) && Skippable(text)
    ensures FaultFrom(t, i) == FaultFrom(t, i + |text| + 1)
  {
    hide EndOfText, FaultFrom, Holds;
    ValueHeld(t, i, text + [0]);
    forall j | 0 <= j < |text| ensures t[i + j] == text[j] {
      HoldsAt(t, i, text + [0], j);
    }
    HoldsAt(t, i, text + [0], |text|);
    forall j | i <= j < i + |text| ensures t[j] != 0 {
      assert t[i + (j - i)] == text[j - i];
    }
    EndOfTextIs(t, i, |text|, |t|);
    FaultStep(t, i);
    assert t[i] == if text == [] then 0 else text[0];
  }

  /** Names and values that do not begin with one of the three letters are never at fault. */
  lemma SkippableIsFine(name: seq<byte>, value: seq<byte>)
    requires Skippable(name) && Skippable(value)
    ensures ValidEntry(Other(name, value))
  {
    hide FaultFrom;
    var t := EntryText(Other(name, value));
    assert t == (name + [0]) + (value + [0]);
    HoldsParts(t, 0, name + [0], value + [0]);
    TextSkipped(t, 0, name);
    TextSkipped(t, |name| + 1, value);
    FaultStep(t, |t|);
  }

  /** A value once read is not forgotten. */
  lemma {:induction false} ScanKeeps(data: seq<byte>, size: nat, k: nat, p: Params)
    requires size <= |data| && p != NONE
    ensures Scan(data, size, k, p) != NONE
    decreases size - k
  {
    if k < size {
      if data[k] == USER[0] {
        ScanKeeps(data, size, NextAfter(data, size, k, USER), p.(user := Or(ValueAfter(data, size, k, USER), p.user)));
      } else if data[k] == DATABASE[0] {
        ScanKeeps(data, size, NextAfter(data, size, k, DATABASE),
                  p.(database := Or(ValueAfter(data, size, k, DATABASE), p.database)));
      } else if data[k] == OPTIONS[0] {
        ScanKeeps(data, size, NextAfter(data, size, k, OPTIONS),
                  p.(options := Or(ValueAfter(data, size, k, OPTIONS), p.options)));
      } else {
        ScanKeeps(data, size, SkipUnknown(data, size, k), p);
      }
    }
  }

  /** A parameter of which a part is taken for a value leaves that value behind. */
  lemma {:induction false} ScanTakesValue(data: seq<byte>, size: nat, k: nat, t: seq<byte>, i: nat)
    requires Holds(data, k, t) && k + |t| <= size <= |data| && NoNameAtStart(data)
    requires t != [] && t[|t| - 1] == 0 && i <= |t| && FaultFrom(t, i).TakesValue?
    ensures Scan(data, size, k + i, NONE) != NONE
    decreases |t| - i
  {
    hide Scan, Holds, NoNameAtStart;
    if Known(t[i]) {
      var from := i + |NameBy(t[i])| + 1;
      if t[from] == 0 {
        ScanTextEmpty(data, size, k, t, i, NONE);
        ScanTakesValue(data, size, k, t, from + 1);
      } else {
        TakenValue(data, size, k, t, i);
      }
    } else {
      ScanTextUnknown(data, size, k, t, i, NONE);
      ScanTakesValue(data, size, k, t, EndOfText(t, i, |t|) + 1);
    }
  }

  lemma TakenValue(data: seq<byte>, size: nat, k: nat, t: seq<byte>, i: nat)
    requires Holds(data, k, t) && k + |t| <= size <= |data| && NoNameAtStart(data)
    requires i < |t| && Known(t[i]) && i + |NameBy(t[i])| + 1 < |t| && t[i + |NameBy(t[i])| + 1] != 0
    ensures Scan(data, size, k + i, NONE) != NONE
  {
    hide Scan, Kept, NameBy, EndOfText, Holds;
    var from := k + i + |NameBy(t[i])| + 1;
    HoldsAt(data, k, t, i);
    HoldsAt(data, k, t, from - k);
    ScanKnown(data, size, k + i, NONE);
    var end := EndOfText(data, from, size);
    EndBeyond(data, from, size);
    KeptSome(data[k + i], data[from..end]);
    ScanKeeps(data, size, end + 1, Kept(data[k + i], data[from..end], NONE));
  }

  lemma EndBeyond(data: seq<byte>, from: nat, size: nat)
    requires from < size <= |data| && data[from] != 0
    ensures from < EndOfText(data, from, size) <= size
  {
    assert EndOfText(data, from, size) == EndOfText(data, from + 1, size);
  }

  lemma KeptSome(b: byte, value: seq<byte>)
    requires Known(b) && value != []
    ensures Kept(b, value, NONE) != NONE
  {
  }

  const SHOWN: seq<byte> := [120, 120, 120, 120]

  /** What follows the parameter at fault: user=xxxx, and the final NUL. */
  const FOLLOWING: seq<byte> := [117, 115, 101, 114, 0, 120, 120, 120, 120, 0, 0]

  /** A parameter that reading runs over hides the user's name after it. */
  lemma {:induction false} ScanRunsOver(data: seq<byte>, k: nat, t: seq<byte>, i: nat)
    requires |data| == k + |t| + |FOLLOWING| && Holds(data, k, t) && Holds(data, k + |t|, FOLLOWING)
    requires NoNameAtStart(data)
    requires t != [] && t[|t| - 1] == 0 && i <= |t| && FaultFrom(t, i).RunsOver?
    ensures Scan(data, |data|, k + i, NONE).user != SHOWN
    decreases |t| - i
  {
    hide Scan, Holds, NoNameAtStart, FaultFrom, EndOfText, Kept, NameBy;
    FaultStep(t, i);
    if Known(t[i]) {
      var from := i + |NameBy(t[i])| + 1;
      if from < |t| {
        ScanTextEmpty(data, |data|, k, t, i, NONE);
        ScanRunsOver(data, k, t, from + 1);
      } else {
        HoldsAt(data, k, t, i);
        ScanKnown(data, |data|, k + i, NONE);
        ScanFollowing(data, k + |t|, from - |t|, t[i]);
      }
    } else {
      ScanTextUnknown(data, |data|, k, t, i, NONE);
      ScanRunsOver(data, k, t, EndOfText(t, i, |t|) + 1);
    }
  }

  /** Landing m bytes into what follows, where a value for the letter b is looked for. */
  lemma ScanFollowing(data: seq<byte>, at: nat, m: nat, b: byte)
    requires |data| == at + |FOLLOWING| && Holds(data, at, FOLLOWING)
    requires Known(b) && m <= |NameBy(b)|
    ensures var end := EndOfText(data, at + m, |data|);
            Scan(data, |data|, end + 1, Kept(b, data[at + m..end], NONE)).user != SHOWN
  {
    hide Scan, Holds, Kept, EndOfText, NameBy;
    FollowingBytes(data, at);
    var size, stop: nat := |data|, if m <= 4 then 4 else 9;
    EndOfTextIs(data, at + m, stop - m, size);
    var p := Kept(b, data[at + m..at + stop], NONE);
    EndOfTextIs(data, at + 5, 4, size);
    EndOfTextIs(data, at + 10, 0, size);
    ScanUnknown(data, size, at + 5, p);
    ScanUnknown(data, size, at + 10, p);
    ScanEnd(data, size, p);
    var value := data[at + m..at + stop];
    KeptUser(b, value);
    assert SHOWN[0] == 120 && |SHOWN| == 4;
    assert m < 4 ==> value[0] == data[at + m];
  }

  lemma KeptUser(b: byte, value: seq<byte>)
    requires Known(b)
    ensures Kept(b, value, NONE).user == [] || (Kept(b, value, NONE).user == value && |NameBy(b)| == 4)
  {
  }

  lemma FollowingBytes(data: seq<byte>, at: nat)
    requires Holds(data, at, FOLLOWING)
    ensures at + 11 <= |data| && data[at + 4] == 0 && data[at + 9] == 0 && data[at + 10] == 0
    ensures forall i :: at <= i < at + 4 ==> data[i] != 0 && data[i] != 120
    ensures forall i :: at + 5 <= i < at + 9 ==> data[i] == 120
  {
    forall i | at <= i < at + 11 ensures data[i] == FOLLOWING[i - at] {
      HoldsAt(data, at, FOLLOWING, i - at);
    }
  }

  /** Exactly the parameters without fault are passed by in every message: any other one is taken for a
      value where it ends the message, or hides a user's name right after it. */
  lemma OtherReadIff(e: Entry)
    requires e.Other? && NulFree(e.name) && NulFree(e.value)
    ensures FaultFrom(EntryText(e), 0).Fine? <==>
            forall head, es :: ValidHead(head) && (forall i :: 0 <= i < |es| ==> ValidEntry(es[i])) ==>
                                 ReadsBack(head, [e] + es)
  {
    hide Scan, FaultFrom, EntryText, EntriesText, ReadsBack;
    var fault := FaultFrom(EntryText(e), 0);
    if fault.Fine? {
      forall head, es | ValidHead(head) && (forall i :: 0 <= i < |es| ==> ValidEntry(es[i]))
        ensures ReadsBack(head, [e] + es)
      {
        FineReadsBack(head, e, es);
      }
    } else {
      var es := if fault.TakesValue? then [] else [User(SHOWN)];
      var head: seq<byte> := [0, 0, 0, 0, 0, 3, 0, 0];
      FaultMisread(head, e, es);
    }
  }

  lemma FineReadsBack(head: seq<byte>, e: Entry, es: seq<Entry>)
    requires ValidHead(head) && ValidEntry(e) && forall i :: 0 <= i < |es| ==> ValidEntry(es[i])
    ensures ReadsBack(head, [e] + es)
  {
    StartupRoundTrip(head, [e] + es, [], NONE);
    assert StartupText(head, [e] + es) + [] == StartupText(head, [e] + es);
  }

  lemma FaultMisread(head: seq<byte>, e: Entry, es: seq<Entry>)
    requires ValidHead(head) && e.Other? && !FaultFrom(EntryText(e), 0).Fine?
    requires es == if FaultFrom(EntryText(e), 0).TakesValue? then [] else [User(SHOWN)]
    ensures !ReadsBack(head, [e] + es)
  {
    hide Scan, FaultFrom, NoNameAtStart;
    var t := EntryText(e);
    var data := StartupText(head, [e] + es);
    EntryEndsInNul(e);
    MessageParts(head, e, es);
    ShortMessage(data);
    if es == [] {
      ScanTakesValue(data, |data|, 8, t, 0);
    } else {
      ScanRunsOver(data, 8, t, 0);
    }
  }

  lemma MessageParts(head: seq<byte>, e: Entry, es: seq<Entry>)
    requires ValidHead(head) && e.Other? && (es == [] || es == [User(SHOWN)])
    ensures var data := StartupText(head, [e] + es);
            && |data| == 8 + |EntryText(e)| + (if es == [] then 1 else |FOLLOWING|) && data[0] == head[0]
            && Holds(data, 8, EntryText(e))
            && (es != [] ==> Holds(data, 8 + |EntryText(e)|, FOLLOWING))
            && Meaning([e] + es, NONE) == if es == [] then NONE else Params(SHOWN, [], [])
  {
    var t := EntryText(e);
    var data := StartupText(head, [e] + es);
    assert ([e] + es)[1..] == es;
    assert EntriesText([e] + es) == t + EntriesText(es);
    if es == [] {
      assert t + [] == t;
      assert data == head + (t + [0]);
    } else {
      assert es[1..] == [];
      assert EntryText(es[0]) == [117, 115, 101, 114, 0, 120, 120, 120, 120, 0];
      assert EntriesText(es) + [0] == FOLLOWING;
      assert data == head + (t + FOLLOWING);
      assert Meaning(es, NONE) == Meaning([], Params(SHOWN, [], []));
    }
  }

  /** An ordinary one of those: after x=on, database=b is lost, and its name's end read as options. */
  lemma DatabaseHidden(head: seq<byte>)
    requires ValidHead(head)
    ensures var es := [Other([120], [111, 110]), Database([98])];
            && FaultFrom(EntryText(es[0]), 0).RunsOver?
            && |StartupText(head, es)| == 25
            && Scan(StartupText(head, es), 25, 8, NONE) == Params([], [], [97, 115, 101])
  {
    hide Scan, FaultFrom, StartupText;
    var es := [Other([120], [111, 110]), Database([98])];
    var data := StartupText(head, es);
    HiddenText(head, es);
    FaultOfOn();
    ShortMessage(data);
    ScanHidden(data);
  }

  lemma HiddenText(head: seq<byte>, es: seq<Entry>)
    requires ValidHead(head) && es == [Other([120], [111, 110]), Database([98])]
    ensures var data := StartupText(head, es);
            && |data| == 25 && data[0] == head[0] && EntryText(es[0]) == [120, 0, 111, 110, 0]
            && data[8] == 120 && data[9] == 0 && data[10] == 111
            && data[18..21] == [97, 115, 101] && data[21] == 0 && data[22] == 98 && data[23] == 0 && data[24] == 0
  {
    var data := StartupText(head, es);
    assert es[1..] == [Database([98])] && es[1..][1..] == [];
    assert EntryText(es[0]) == [120, 0, 111, 110, 0];
    assert EntryText(es[1..][0]) == [100, 97, 116, 97, 98, 97, 115, 101, 0, 98, 0];
    assert EntriesText(es[1..]) == EntryText(es[1..][0]) + EntriesText([]);
    var text: seq<byte> := [120, 0, 111, 110, 0, 100, 97, 116, 97, 98, 97, 115, 101, 0, 98, 0, 0];
    assert data == head + text;
    assert data[18..21] == text[10..13];
  }

  lemma FaultOfOn()
    ensures FaultFrom([120, 0, 111, 110, 0], 0).RunsOver?
  {
    var t: seq<byte> := [120, 0, 111, 110, 0];
    EndOfTextIs(t, 0, 1, 5);
    assert FaultFrom(t, 2).RunsOver?;
  }

  lemma ScanHidden(data: seq<byte>)
    requires |data| == 25 && NoNameAtStart(data)
    requires data[8] == 120 && data[9] == 0 && data[10] == 111
    requires data[18..21] == [97, 115, 101] && data[21] == 0 && data[22] == 98 && data[23] == 0 && data[24] == 0
    ensures Scan(data, 25, 8, NONE) == Params([], [], [97, 115, 101])
  {
    hide Scan, EndOfText, NoNameAtStart;
    var name := data[18..21];
    assert data[18] == name[0] && data[19] == name[1] && data[20] == name[2];
    EndOfTextIs(data, 8, 1, 25);
    ScanUnknown(data, 25, 8, NONE);
    EndOfTextIs(data, 18, 3, 25);
    ScanKnown(data, 25, 10, NONE);
    EndOfTextIs(data, 22, 1, 25);
    ScanUnknown(data, 25, 22, Params([], [], name));
    ScanLast(data, 25, Params([], [], name));
  }
}
