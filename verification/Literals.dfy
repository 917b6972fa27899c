/** Quoted literals: the scanner that replaces them and the lexer's own scanner.
    Models removeQuotedText and lookForChar (src/normalization.cpp) and
    get_q_string (src/parser/sql.lex). */
module Literals {
  import opened Sequences
  import opened Text

  // ---------------------------------------------------------------- where a literal ends

  /** Offset in `s` (the text after an opening delimiter `d`) of the closing delimiter,
      or |s| when the literal is never closed. */
  function CloseOf(s: string, d: char, escaped: bool): (n: nat)
    ensures n <= |s|
  {
    if s == [] then 0
    else if s[0] == d && !escaped then
      if |s| > 1 && s[1] == d && IsQuote(d) then 2 + CloseOf(s[2..], d, false) else 0
    else 1 + CloseOf(s[1..], d, s[0] == '\\' && !escaped)
  }

  /** lookForChar: `start` is the index of the opening delimiter. */
  method LookForChar(query: string, start: nat, delimiter: char) returns (j: nat)
    requires start < |query|
    ensures start < j <= |query|
    ensures j == start + 1 + CloseOf(query[start + 1..], delimiter, false)
  {
    var quoted := false;
    j := start + 1;
    while j < |query|
      invariant start + 1 <= j <= |query|
      invariant start + 1 + CloseOf(query[start + 1..], delimiter, false)
             == j + CloseOf(query[j..], delimiter, quoted)
    {
      assert query[j..][1..] == query[j + 1..];
      if query[j] == delimiter && quoted == false {
        if j + 1 >= |query| {
          return;
        }
        if query[j + 1] == delimiter && (delimiter == '\'' || delimiter == '"') {
          assert query[j..][2..] == query[j + 2..];
          j := j + 1;
        } else {
          return;
        }
      } else if query[j] == '\\' && quoted == false {
        quoted := true;
      } else {
        quoted := false;
      }
      j := j + 1;
    }
  }

  // ---------------------------------------------------------------- well-formed bodies

  /** One item of a literal's body. */
  datatype Item = Plain(c: char) | Escaped(c: char) | Doubled

  predicate ValidItem(it: Item, d: char) {
    it.Plain? ==> it.c != d && it.c != '\\'
  }

  predicate ValidBody(body: seq<Item>, d: char) {
    forall i :: 0 <= i < |body| ==> ValidItem(body[i], d)
  }

  function ItemText(it: Item, d: char): string {
    match it
    case Plain(c) => [c]
    case Escaped(c) => ['\\', c]
    case Doubled => [d, d]
  }

  function BodyText(body: seq<Item>, d: char): string {
    if body == [] then [] else ItemText(body[0], d) + BodyText(body[1..], d)
  }

  function Quoted(body: seq<Item>, d: char): string {
    [d] + (BodyText(body, d) + [d])
  }

  /** A well-formed body is skipped whole: the scan stops at the delimiter after it. */
  lemma {:induction false} CloseAfterBody(body: seq<Item>, d: char, rest: string)
    requires IsQuote(d) && ValidBody(body, d)
    requires rest == [] || rest[0] != d
    ensures CloseOf(BodyText(body, d) + [d] + rest, d, false) == |BodyText(body, d)|
  {
    hide CloseOf, ItemText, ValidItem;
    if body == [] {
      assert BodyText(body, d) + [d] + rest == [d] + rest;
      CloseHere(d, rest);
    } else {
      var tail := BodyText(body[1..], d) + [d] + rest;
      assert BodyText(body, d) + [d] + rest == ItemText(body[0], d) + tail;
      CloseAfterBody(body[1..], d, rest);
      CloseAfterItem(body[0], d, tail);
    }
  }

  lemma CloseHere(d: char, rest: string)
    requires IsQuote(d) && (rest == [] || rest[0] != d)
    ensures CloseOf([d] + rest, d, false) == 0
  {
  }

  lemma CloseAfterItem(it: Item, d: char, tail: string)
    requires IsQuote(d) && ValidItem(it, d)
    ensures CloseOf(ItemText(it, d) + tail, d, false) == |ItemText(it, d)| + CloseOf(tail, d, false)
  {
    var all := ItemText(it, d) + tail;
    if it.Plain? {
      assert all[1..] == tail;
    } else {
      assert all[2..] == tail;
      assert all[1..] == [all[1]] + tail;
      assert all[1..][1..] == tail;
    }
  }

  /** Conversely, whatever the scan skips before a closing delimiter is a well-formed body, and
      the delimiter it stops at is not doubled. */
  lemma {:induction false} BodyBeforeClose(s: string, d: char) returns (body: seq<Item>)
    requires IsQuote(d) && CloseOf(s, d, false) < |s|
    ensures ValidBody(body, d)
    ensures s[..CloseOf(s, d, false)] == BodyText(body, d)
    ensures s[CloseOf(s, d, false)] == d
    ensures CloseOf(s, d, false) + 1 < |s| ==> s[CloseOf(s, d, false) + 1] != d
    decreases |s|
  {
    var n := CloseOf(s, d, false);
    if n == 0 {
      body := [];
    } else {
      var it := FirstItem(s, d);
      var k := |ItemText(it, d)|;
      var more := BodyBeforeClose(s[k..], d);
      body := [it] + more;
      ItemThenBody(it, more, d);
      SplitPrefix(s, k, n);
    }
  }

  lemma {:induction false} FirstItem(s: string, d: char) returns (it: Item)
    requires IsQuote(d) && 0 < CloseOf(s, d, false) < |s|
    ensures ValidItem(it, d)
    ensures var k := |ItemText(it, d)|;
            0 < k <= |s| && s[..k] == ItemText(it, d) && CloseOf(s, d, false) == k + CloseOf(s[k..], d, false)
  {
    if s[0] == d {
      it := Doubled;
    } else if s[0] == '\\' {
      assert CloseOf(s, d, false) == 1 + CloseOf(s[1..], d, true);
      assert s[1..] != [] && s[1..][1..] == s[2..];
      it := Escaped(s[1]);
    } else {
      it := Plain(s[0]);
    }
  }

  lemma ItemThenBody(it: Item, more: seq<Item>, d: char)
    requires ValidItem(it, d) && ValidBody(more, d)
    ensures ValidBody([it] + more, d) && BodyText([it] + more, d) == ItemText(it, d) + BodyText(more, d)
  {
    assert ([it] + more)[1..] == more;
  }

  // ---------------------------------------------------------------- removeQuotedText

  /** The query with every literal replaced by '?'; `escaped` says whether the text before `s`
      ends in an active backslash. */
  function Strip(s: string, escaped: bool): (r: string)
    ensures |r| <= |s|
    decreases |s|
  {
    if s == [] then []
    else if !escaped && IsQuote(s[0]) then
      "?" + Strip(Drop(s, 2 + CloseOf(s[1..], s[0], false)), false)
    else [s[0]] + Strip(s[1..], !escaped && s[0] == '\\')
  }

  method RemoveQuotedText(query: string) returns (r: string)
    ensures r == Strip(query, false)
  {
    r := query;
    ghost var goal := Strip(query, false);
    var quoted := false;
    var i := 0;
    assert r[0..] == r;
    while i < |r|
      invariant StrippedTo(goal, r, i, quoted)
      decreases |r| - i
    {
      if r[i] == '\'' && quoted == false {
        var j := LookForChar(r, i, '\'');
        LiteralStep(goal, r, i, j);
        r := r[i := '?'];
        r := Erase(r, i + 1, j - i);
      } else if r[i] == '"' && quoted == false {
        var j := LookForChar(r, i, '"');
        LiteralStep(goal, r, i, j);
        r := r[i := '?'];
        r := Erase(r, i + 1, j - i);
      } else if r[i] == '\\' && quoted == false {
        PlainStep(goal, r, i, quoted);
        quoted := true;
      } else {
        PlainStep(goal, r, i, quoted);
        quoted := false;
      }
      i := i + 1;
    }
    StrippedEnd(goal, r, quoted);
  }

  /** The first i characters of r are final and the pass goes on after them. */
  ghost predicate StrippedTo(goal: string, r: string, i: nat, quoted: bool) {
    i <= |r| && goal == r[..i] + Strip(r[i..], quoted)
  }

  lemma StrippedEnd(goal: string, r: string, quoted: bool)
    requires StrippedTo(goal, r, |r|, quoted)
    ensures goal == r
  {
    assert r[..|r|] + [] == r;
  }

  /** One replacement in place is one step of the specification. */
  lemma {:induction false} LiteralStep(goal: string, q: string, i: nat, j: nat)
    requires i < |q| && IsQuote(q[i]) && StrippedTo(goal, q, i, false)
    requires j == i + 1 + CloseOf(q[i + 1..], q[i], false)
    ensures var r := Erase(q[i := '?'], i + 1, j - i);
            |r| <= |q| && StrippedTo(goal, r, i + 1, false)
  {
    var m := q[i := '?'];
    var r := Erase(m, i + 1, j - i);
    assert q[i..][1..] == q[i + 1..];
    assert r[..i + 1] == q[..i] + "?";
    var rest := Drop(q[i..], 2 + CloseOf(q[i..][1..], q[i], false));
    assert r[i + 1..] == rest by {
      if j + 1 <= |q| {
        assert m[j + 1..] == q[j + 1..];
      }
    }
    Regroup(q[..i], '?', Strip(rest, false));
  }

  lemma PlainStep(goal: string, q: string, i: nat, escaped: bool)
    requires i < |q| && (escaped || !IsQuote(q[i])) && StrippedTo(goal, q, i, escaped)
    ensures StrippedTo(goal, q, i + 1, !escaped && q[i] == '\\')
  {
    assert q[i..][1..] == q[i + 1..];
    assert q[..i + 1] == q[..i] + [q[i]];
    Regroup(q[..i], q[i], Strip(q[i + 1..], !escaped && q[i] == '\\'));
  }

  // ---------------------------------------------------------------- what is left after it

  /** No quote is left that would open a literal. */
  predicate QuoteClean(s: string, escaped: bool) {
    s == [] ||
    ((escaped || !IsQuote(s[0])) && QuoteClean(s[1..], !escaped && s[0] == '\\'))
  }

  /** Does `s`, entered in state `escaped`, end in an active backslash? */
  predicate EndsEscaped(s: string, escaped: bool) {
    if s == [] then escaped else EndsEscaped(s[1..], !escaped && s[0] == '\\')
  }

  /** Is the number of backslashes right before index i odd? */
  predicate BehindBackslash(s: string, i: nat)
    requires i <= |s|
  {
    i > 0 && s[i - 1] == '\\' && !BehindBackslash(s, i - 1)
  }

  /** The state machine, read off the text: a quote survives exactly behind an odd run of
      backslashes. */
  lemma {:induction false} QuoteCleanMeans(s: string)
    ensures QuoteClean(s, false) <==> forall i :: 0 <= i < |s| && IsQuote(s[i]) ==> BehindBackslash(s, i)
  {
    QuoteCleanFrom(s, 0);
    assert s[0..] == s;
  }

  lemma {:induction false} QuoteCleanFrom(s: string, k: nat)
    requires k <= |s|
    ensures QuoteClean(s[k..], BehindBackslash(s, k))
       <==> forall i :: k <= i < |s| && IsQuote(s[i]) ==> BehindBackslash(s, i)
    decreases |s| - k
  {
    if k < |s| {
      assert s[k..][1..] == s[k + 1..];
      QuoteCleanFrom(s, k + 1);
    }
  }

  lemma {:induction false} StripIsClean(s: string, escaped: bool)
    ensures QuoteClean(Strip(s, escaped), escaped)
    decreases |s|
  {
    if s == [] {
    } else if !escaped && IsQuote(s[0]) {
      var rest := Drop(s, 2 + CloseOf(s[1..], s[0], false));
      StripIsClean(rest, false);
      assert Strip(s, escaped)[1..] == Strip(rest, false);
    } else {
      StripIsClean(s[1..], !escaped && s[0] == '\\');
      assert Strip(s, escaped)[1..] == Strip(s[1..], !escaped && s[0] == '\\');
    }
  }

  /** Text without an opening quote is exactly the text the pass leaves alone; any other text
      loses weight. */
  lemma {:induction false} StripFixedIff(s: string, escaped: bool)
    ensures Strip(s, escaped) == s <==> QuoteClean(s, escaped)
    ensures Weight(Strip(s, escaped)) <= Weight(s)
    ensures Weight(Strip(s, escaped)) == Weight(s) ==> Strip(s, escaped) == s
    decreases |s|
  {
    hide CloseOf;
    if s == [] {
    } else if !escaped && IsQuote(s[0]) {
      var n := 2 + CloseOf(s[1..], s[0], false);
      var rest := Drop(s, n);
      StripFixedIff(rest, false);
      assert Strip(s, escaped)[1..] == Strip(rest, false);
      if n <= |s| {
        WeightDrop(s, n);
        assert s[..n][1..] == s[1..n];
        WeightAtLeast(s[1..n]);
      }
    } else {
      StripFixedIff(s[1..], !escaped && s[0] == '\\');
      assert Strip(s, escaped)[1..] == Strip(s[1..], !escaped && s[0] == '\\');
      assert s == [s[0]] + s[1..];
    }
  }

  lemma StripIdempotent(s: string)
    ensures Strip(Strip(s, false), false) == Strip(s, false)
  {
    StripIsClean(s, false);
    StripFixedIff(Strip(s, false), false);
  }

  /** A clean text without a backslash holds no quote at all. */
  lemma {:induction false} CleanWithoutBackslash(s: string)
    requires QuoteClean(s, false) && '\\' !in s
    ensures forall c :: c in s ==> !IsQuote(c)
  {
    if s != [] {
      assert s[0] in s;
      forall c | c in s[1..] ensures c in s {}
      CleanWithoutBackslash(s[1..]);
      assert forall c :: c in s ==> c == s[0] || c in s[1..];
    }
  }

  // ---------------------------------------------------------------- literal abstraction

  /** A query with holes: code, then a literal delimited by `delim`, and so on. */
  datatype Skeleton = End(code: string) | Slot(code: string, delim: char, rest: Skeleton)

  function Slots(k: Skeleton): nat {
    match k
    case End(_) => 0
    case Slot(_, _, rest) => 1 + Slots(rest)
  }

  /** First character of a rendering, if that does not depend on the bodies. */
  predicate MayStartWith(k: Skeleton, d: char) {
    if k.code != [] then k.code[0] == d else k.Slot? && k.delim == d
  }

  /** Code holds no opening quote, does not end in an active backslash before a literal, and a
      literal is not followed by its own delimiter (that would double it). */
  predicate ValidSkeleton(k: Skeleton) {
    QuoteClean(k.code, false) &&
    (k.Slot? ==>
      && IsQuote(k.delim)
      && !EndsEscaped(k.code, false)
      && !MayStartWith(k.rest, k.delim)
      && ValidSkeleton(k.rest))
  }

  ghost predicate ValidBodies(k: Skeleton, bodies: seq<seq<Item>>) {
    |bodies| == Slots(k) &&
    (k.Slot? ==> ValidBody(bodies[0], k.delim) && ValidBodies(k.rest, bodies[1..]))
  }

  function Render(k: Skeleton, bodies: seq<seq<Item>>): string
    requires |bodies| == Slots(k)
  {
    match k
    case End(code) => code
    case Slot(code, d, rest) => code + (Quoted(bodies[0], d) + Render(rest, bodies[1..]))
  }

  /** The skeleton with every literal replaced by '?'. */
  function PatternOf(k: Skeleton): string {
    match k
    case End(code) => code
    case Slot(code, _, rest) => code + ("?" + PatternOf(rest))
  }

  /** Whatever the literals hold, stripping a rendered skeleton gives its pattern. */
  lemma {:induction false} StripRendered(k: Skeleton, bodies: seq<seq<Item>>)
    requires ValidSkeleton(k) && ValidBodies(k, bodies)
    ensures Strip(Render(k, bodies), false) == PatternOf(k)
  {
    match k
    case End(code) =>
      StripFixedIff(code, false);
    case Slot(code, d, rest) =>
      var tail := Render(rest, bodies[1..]);
      StripPastCode(code, false, Quoted(bodies[0], d) + tail);
      StripRendered(rest, bodies[1..]);
      RenderStart(rest, bodies[1..], d);
      StripLiteral(bodies[0], d, tail);
  }

  lemma StripLiteral(body: seq<Item>, d: char, tail: string)
    requires IsQuote(d) && ValidBody(body, d)
    requires tail == [] || tail[0] != d
    ensures Strip(Quoted(body, d) + tail, false) == "?" + Strip(tail, false)
  {
    var b := BodyText(body, d) + [d];
    CloseAfterBody(body, d, tail);
    Assoc([d], b, tail);
    Halves([d], b + tail);
    Halves([d] + b, tail);
    assert Drop([d] + b + tail, 2 + |BodyText(body, d)|) == tail;
  }

  lemma RenderStart(k: Skeleton, bodies: seq<seq<Item>>, d: char)
    requires |bodies| == Slots(k) && !MayStartWith(k, d)
    ensures var t := Render(k, bodies); t == [] || t[0] != d
  {
  }

  lemma {:induction false} StripPastCode(code: string, escaped: bool, t: string)
    requires QuoteClean(code, escaped)
    ensures Strip(code + t, escaped) == code + Strip(t, EndsEscaped(code, escaped))
  {
    if code == [] {
      assert code + t == t;
    } else {
      var e := !escaped && code[0] == '\\';
      var all := code + t;
      assert all[0] == code[0] && all[1..] == code[1..] + t;
      StripPastCode(code[1..], e, t);
      calc {
        Strip(all, escaped);
        [code[0]] + Strip(all[1..], e);
        [code[0]] + (code[1..] + Strip(t, EndsEscaped(code[1..], e)));
        { Prepend(code, Strip(t, EndsEscaped(code, escaped))); }
        code + Strip(t, EndsEscaped(code, escaped));
      }
    }
  }

  // ---------------------------------------------------------------- the lexer's scanner

  const EOF: int := -1

  /** The flex input buffer: yyinput reads a character, yyunput gives the last one back. */
  class InputStream {
    const text: string
    var pos: nat

    constructor (text: string, pos: nat)
      ensures this.text == text && this.pos == pos
    {
      this.text, this.pos := text, pos;
    }

    method Input() returns (c: int)
      requires pos <= |text|
      modifies this
      ensures pos <= |text|
      ensures old(pos) < |text| ==> c == text[old(pos)] as int && pos == old(pos) + 1
      ensures old(pos) == |text| ==> c == EOF && pos == old(pos)
    {
      if pos < |text| {
        c := text[pos] as int;
        pos := pos + 1;
      } else {
        c := EOF;
      }
    }

    method Unput()
      requires 0 < pos <= |text|
      modifies this
      ensures pos == old(pos) - 1
    {
      pos := pos - 1;
    }
  }

  datatype TokenKind = Q_STRING | DQ_STRING | NAME

  /** What get_q_string consumes of `s`, the text after the opening delimiter, and the value it
      collects. */
  datatype Lexed = Lexed(consumed: nat, value: string)

  function Lex(s: string, d: char, quoted: bool): (r: Lexed)
    ensures r.consumed <= |s|
  {
    if s == [] then Lexed(0, [])
    else if s[0] == d && !quoted then
      if IsQuote(d) && |s| > 1 && s[1] == d then
        var more := Lex(s[2..], d, quoted);
        Lexed(2 + more.consumed, [d] + more.value)
      else Lexed(1, [])
    else
      var more := Lex(s[1..], d, s[0] == '\\' && !quoted);
      Lexed(1 + more.consumed, [s[0]] + more.value)
  }

  method GetQString(input: InputStream, delimiter: char) returns (kind: TokenKind, str: string)
    requires input.pos <= |input.text|
    modifies input
    ensures old(input.pos) <= input.pos
    ensures Lexed(input.pos - old(input.pos), str) == Lex(input.text[old(input.pos)..], delimiter, false)
    ensures kind == if delimiter == '\'' then Q_STRING else if delimiter == '"' then DQ_STRING else NAME
  {
    hide Lex, Reached;
    ghost var text, start, p := input.text, input.pos, input.pos;
    LexStart(text, start, delimiter);
    str := "";
    var quoted := false;
    kind := if delimiter == '\'' then Q_STRING else if delimiter == '"' then DQ_STRING else NAME;
    var c := input.Input();
    while c != EOF
      invariant start <= p <= |text|
      invariant if p < |text| then c == text[p] as int && input.pos == p + 1 else c == EOF && input.pos == p
      invariant Reached(text, start, delimiter, p, str, quoted)
      decreases |text| - p
    {
      LexStep(text, start, delimiter, p, str, quoted);
      if c == delimiter as int && !quoted {
        assert text[p] == delimiter;
        var doubled := Doubles(input, delimiter);
        if !doubled {
          return;
        }
        str := str + [delimiter];
        p := p + 2;
        c := input.Input();
        continue;
      }
      var ch := input.text[input.pos - 1];
      assert ch == text[p];
      str := str + [ch];
      quoted := ch == '\\' && !quoted;
      p := p + 1;
      c := input.Input();
    }
    LexEnd(text, start, delimiter, str, quoted);
  }

  /** After a delimiter: read the next character, and give it back unless it doubles the delimiter. */
  method Doubles(input: InputStream, delimiter: char) returns (doubled: bool)
    requires input.pos <= |input.text|
    modifies input
    ensures doubled <==> IsQuote(delimiter) && old(input.pos) < |input.text| && input.text[old(input.pos)] == delimiter
    ensures input.pos == if doubled then old(input.pos) + 1 else old(input.pos)
  {
    doubled := false;
    if delimiter == '\'' || delimiter == '"' {
      var n := input.Input();
      if n == delimiter as int {
        doubled := true;
      } else if n != EOF {
        input.Unput();
      }
    }
  }

  /** With the stream at `p` and `str` collected, what is still to be lexed completes the token. */
  ghost predicate Reached(text: string, start: nat, d: char, p: nat, str: string, quoted: bool)
    requires start <= p <= |text|
  {
    var more := Lex(text[p..], d, quoted);
    Lex(text[start..], d, false) == Lexed(p - start + more.consumed, str + more.value)
  }

  lemma LexStart(text: string, start: nat, d: char)
    requires start <= |text|
    ensures Reached(text, start, d, start, "", false)
  {
  }

  lemma LexEnd(text: string, start: nat, d: char, str: string, quoted: bool)
    requires start <= |text| && Reached(text, start, d, |text|, str, quoted)
    ensures Lex(text[start..], d, false) == Lexed(|text| - start, str)
  {
    assert text[|text|..] == [];
    assert str + [] == str;
  }

  lemma {:induction false} LexStep(text: string, start: nat, d: char, p: nat, str: string, quoted: bool)
    requires start <= p < |text| && Reached(text, start, d, p, str, quoted)
    ensures text[p] == d && !quoted && IsQuote(d) && p + 1 < |text| && text[p + 1] == d ==>
              Reached(text, start, d, p + 2, str + [d], quoted)
    ensures text[p] == d && !quoted && !(IsQuote(d) && p + 1 < |text| && text[p + 1] == d) ==>
              Lex(text[start..], d, false) == Lexed(p + 1 - start, str)
    ensures !(text[p] == d && !quoted) ==>
              Reached(text, start, d, p + 1, str + [text[p]], text[p] == '\\' && !quoted)
  {
    var rest := text[p..];
    assert rest[1..] == text[p + 1..];
    if rest[0] == d && !quoted {
      if IsQuote(d) && |rest| > 1 && rest[1] == d {
        assert rest[2..] == text[p + 2..];
        Regroup(str, d, Lex(rest[2..], d, quoted).value);
      } else {
        assert str + [] == str;
      }
    } else {
      Regroup(str, rest[0], Lex(rest[1..], d, rest[0] == '\\' && !quoted).value);
    }
  }

  /** The two scanners agree: the lexer stops right after the delimiter lookForChar finds, or at
      the end of the text when there is none. */
  lemma {:induction false} ScannersAgree(s: string, d: char, escaped: bool)
    requires IsQuote(d)
    ensures Lex(s, d, escaped).consumed
         == if CloseOf(s, d, escaped) < |s| then CloseOf(s, d, escaped) + 1 else |s|
  {
    if s == [] {
    } else if s[0] == d && !escaped {
      if |s| > 1 && s[1] == d {
        ScannersAgree(s[2..], d, false);
      }
    } else {
      ScannersAgree(s[1..], d, s[0] == '\\' && !escaped);
    }
  }

  /** The value of a literal: escapes are kept, doubled delimiters are halved. */
  function BodyValue(body: seq<Item>, d: char): string {
    if body == [] then []
    else (if body[0].Doubled? then [d] else ItemText(body[0], d)) + BodyValue(body[1..], d)
  }

  lemma {:induction false} LexedValue(body: seq<Item>, d: char, rest: string)
    requires IsQuote(d) && ValidBody(body, d)
    requires rest == [] || rest[0] != d
    ensures Lex(BodyText(body, d) + [d] + rest, d, false) == Lexed(|BodyText(body, d)| + 1, BodyValue(body, d))
  {
    if body == [] {
      assert BodyText(body, d) + [d] + rest == [d] + rest;
    } else {
      var tail := BodyText(body[1..], d) + [d] + rest;
      assert BodyText(body, d) + [d] + rest == ItemText(body[0], d) + tail;
      LexedValue(body[1..], d, rest);
      assert ValidItem(body[0], d);
      LexItem(body[0], d, tail);
    }
  }

  lemma LexItem(it: Item, d: char, tail: string)
    requires IsQuote(d) && ValidItem(it, d)
    ensures var more := Lex(tail, d, false);
            Lex(ItemText(it, d) + tail, d, false)
            == Lexed(|ItemText(it, d)| + more.consumed, (if it.Doubled? then [d] else ItemText(it, d)) + more.value)
  {
    match it
    case Plain(c) => Halves([c], tail);
    case Doubled => Halves([d, d], tail);
    case Escaped(c) => LexEscaped(c, d, tail);
  }

  lemma LexEscaped(c: char, d: char, tail: string)
    requires IsQuote(d)
    ensures var more := Lex(tail, d, false);
            Lex(['\\', c] + tail, d, false) == Lexed(2 + more.consumed, ['\\', c] + more.value)
  {
    var all := ['\\', c] + tail;
    var more := Lex(tail, d, false);
    assert all[1..] == [c] + tail && all[1..][1..] == tail;
    assert Lex(all[1..], d, true) == Lexed(1 + more.consumed, [c] + more.value);
    assert ['\\'] + ([c] + more.value) == ['\\', c] + more.value;
  }

  // ---------------------------------------------------------------- one literal, character by character

  function PlainBody(text: string): (body: seq<Item>)
    ensures |body| == |text| && forall i :: 0 <= i < |text| ==> body[i] == Plain(text[i])
  {
    seq(|text|, i requires 0 <= i < |text| => Plain(text[i]))
  }

  lemma {:induction false} PlainBodyText(text: string, d: char)
    ensures BodyText(PlainBody(text), d) == text
  {
    if text != [] {
      PlainBodyText(text[1..], d);
      assert PlainBody(text)[1..] == PlainBody(text[1..]);
    }
  }

  lemma {:induction false} BodyTextConcat(a: seq<Item>, b: seq<Item>, d: char)
    ensures BodyText(a + b, d) == BodyText(a, d) + BodyText(b, d)
  {
    if a == [] {
      assert a + b == b;
    } else {
      assert (a + b)[0] == a[0] && (a + b)[1..] == a[1..] + b;
      BodyTextConcat(a[1..], b, d);
      Assoc(ItemText(a[0], d), BodyText(a[1..], d), BodyText(b, d));
    }
  }

  /** A literal in single or double quotes becomes one '?', also when it holds its own quote, doubled or
      behind a backslash. */
  lemma LiteralGoes(before: string, d: char, t1: string, x: string, t2: string, after: string)
    requires d in "'\"" && x in {"", [d, d], ['\\', d]}
    requires forall c :: c in t1 + t2 ==> c != d && c != '\\'
    requires forall c :: c in before + after ==> c !in "'\"\\"
    ensures Strip(before + ([d] + (t1 + x + t2 + [d]) + after), false) == before + ("?" + after)
  {
    hide Strip, QuoteClean, EndsEscaped;
    var middle := if x == "" then [] else if x == [d, d] then [Doubled] else [Escaped(d)];
    var body := PlainBody(t1) + middle + PlainBody(t2);
    MiddleText(x, d, middle);
    BodyTextConcat(PlainBody(t1) + middle, PlainBody(t2), d);
    BodyTextConcat(PlainBody(t1), middle, d);
    PlainBodyText(t1, d);
    PlainBodyText(t2, d);
    ValidParts(t1, middle, t2, d);
    PlainCode(before);
    PlainCode(after);
    if after != [] {
      assert after[0] == (before + after)[|before|];
    }
    OneLiteral(before, d, body, after);
    assert Quoted(body, d) == [d] + (t1 + x + t2 + [d]);
  }

  lemma MiddleText(x: string, d: char, middle: seq<Item>)
    requires x in {"", [d, d], ['\\', d]}
    requires middle == if x == "" then [] else if x == [d, d] then [Doubled] else [Escaped(d)]
    ensures BodyText(middle, d) == x
  {
    if middle != [] {
      assert middle[1..] == [];
    }
  }

  lemma ValidParts(t1: string, middle: seq<Item>, t2: string, d: char)
    requires forall c :: c in t1 + t2 ==> c != d && c != '\\'
    requires middle == [] || middle == [Doubled] || middle == [Escaped(d)]
    ensures ValidBody(PlainBody(t1) + middle + PlainBody(t2), d)
  {
    forall i | 0 <= i < |t1| ensures t1[i] in t1 + t2 {
      assert t1[i] == (t1 + t2)[i];
    }
    forall i | 0 <= i < |t2| ensures t2[i] in t1 + t2 {
      assert t2[i] == (t1 + t2)[|t1| + i];
    }
  }

  lemma {:induction false} PlainCode(code: string)
    requires forall c :: c in code ==> c !in "'\"\\"
    ensures QuoteClean(code, false) && !EndsEscaped(code, false)
  {
    if code != [] {
      assert code[0] in code;
      PlainCode(code[1..]);
    }
  }

  lemma OneLiteral(before: string, d: char, body: seq<Item>, after: string)
    requires ValidSkeleton(Slot(before, d, End(after))) && ValidBody(body, d)
    ensures Strip(before + (Quoted(body, d) + after), false) == before + ("?" + after)
  {
    var k := Slot(before, d, End(after));
    var bodies := [body];
    assert bodies[1..] == [];
    assert ValidBodies(End(after), bodies[1..]);
    StripRendered(k, bodies);
  }
}
