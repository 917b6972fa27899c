/** fixNegativeNumbers of src/normalization.cpp: a minus sign before a replaced number goes when
    the token before it cannot be an operand. */
module Negatives {
  import opened Sequences
  import opened Text
  import opened Literals
  import opened Comments
  import opened Numbers
  import opened Spaces

  /** The characters `find_first_of(" ,(")` stops at. */
  predicate IsBreak(c: char) {
    c == ' ' || c == ',' || c == '('
  }

  /** After which tokens (their final break included) a minus sign is a sign. */
  predicate AllowsSign(token: string)
    requires token != []
  {
    token == "select " || token == "where " || token == "and " || token == "or " || token == "not "
    || token[|token| - 1] == '(' || token[|token| - 1] == ','
  }

  predicate SignAt(t: string) {
    |t| >= 2 && t[0] == '-' && t[1] == '?'
  }

  predicate SpacedSignAt(t: string) {
    |t| >= 3 && t[0] == '-' && IsSpace(t[1]) && t[2] == '?'
  }

  function DropSign(t: string): (r: string)
    ensures |r| <= |t|
  {
    if SignAt(t) then t[1..] else if SpacedSignAt(t) then t[2..] else t
  }

  /** What follows the first character of s, its sign dropped if the token ending there allows one. */
  function Following(token: string, s: string): (t: string)
    requires s != []
    ensures |t| < |s|
  {
    if IsBreak(s[0]) && AllowsSign(token + [s[0]]) then DropSign(s[1..]) else s[1..]
  }

  function NextToken(token: string, c: char): string {
    if IsBreak(c) then [] else token + [c]
  }

  /** The text `s`, after the part `token` of an unfinished token, without its signs. */
  function Unsigned(token: string, s: string): (r: string)
    ensures |r| <= |s|
    ensures s != [] ==> r != [] && r[0] == s[0]
    decreases |s|
  {
    if s == [] then [] else [s[0]] + Unsigned(NextToken(token, s[0]), Following(token, s))
  }

  method FixNegativeNumbers(query: string) returns (r: string)
    ensures r == Unsigned([], query)
  {
    r := query;
    ghost var goal := Unsigned([], query);
    var prev := 0;
    assert r[0..] == r;
    var next := FindBreak(r, prev);
    while next < |r|
      invariant prev <= next <= |r|
      invariant forall k :: prev <= k < next ==> !IsBreak(r[k])
      invariant next < |r| ==> IsBreak(r[next])
      invariant Done(goal, r, prev)
      decreases |r| - prev
    {
      AfterBreakDone(goal, r, prev, next);
      var stop;
      r, stop := FixAtBreak(r, prev, next);
      if stop {
        return;
      }
      prev := next + 1;
      next := FindBreak(r, prev);
    }
    UnsignedToken([], r[prev..]);
    ErasedSigns(r, prev);
  }

  /** The loop body; `stop` is its early return, taken when at most one character follows. */
  method FixAtBreak(q: string, prev: nat, next: nat) returns (r: string, stop: bool)
    requires prev <= next < |q| && IsBreak(q[next])
    ensures r == AfterBreak(q, prev, next) && next < |r| <= |q|
    ensures stop ==> |r| <= next + 2
  {
    r, stop := q, true;
    AfterBreakCases(q, prev, next);
    if next + 1 > |r| {
      return;
    }
    var lastToken := r[prev..next + 1];
    if next > SizeMinus(|r|, 2) {
      return;
    }
    r := DropPlainSign(r, lastToken, next);
    if next > SizeMinus(|r|, 3) {
      return;
    }
    r := DropSpacedSign(r, lastToken, next);
    stop := false;
  }

  /** The first check of the loop body. */
  method DropPlainSign(q: string, lastToken: string, next: nat) returns (r: string)
    requires lastToken != [] && next < |q|
    ensures r == if SignAt(q[next + 1..]) && AllowsSign(lastToken) then Erase(q, next + 1, 1) else q
  {
    r := q;
    if At(q, next + 1) == '-' && At(q, next + 2) == '?' {
      if lastToken == "select " || lastToken == "where " ||
         lastToken == "and "    || lastToken == "or "    ||
         lastToken == "not "    ||
         lastToken[|lastToken| - 1] == '(' ||
         lastToken[|lastToken| - 1] == ','
      {
        r := Erase(q, next + 1, 1);
      }
    }
  }

  /** The second check, for a sign with one whitespace character after it: both go. */
  method DropSpacedSign(q: string, lastToken: string, next: nat) returns (r: string)
    requires lastToken != [] && next < |q|
    ensures r == if SpacedSignAt(q[next + 1..]) && AllowsSign(lastToken) then Erase(q, next + 1, 2) else q
  {
    r := q;
    if At(q, next + 1) == '-' && IsSpace(At(q, next + 2)) && At(q, next + 3) == '?' {
      if lastToken == "select " || lastToken == "where " ||
         lastToken == "and "    || lastToken == "or "    ||
         lastToken == "not "    ||
         lastToken[|lastToken| - 1] == '(' ||
         lastToken[|lastToken| - 1] == ','
      {
        r := Erase(q, next + 1, 2);
      }
    }
  }

  /** The first i characters of r are final and the pass goes on after them with a new token. */
  ghost predicate Done(goal: string, r: string, i: nat) {
    i <= |r| && goal == r[..i] + Unsigned([], r[i..])
  }

  /** find_first_of(" ,(", from); |q| stands for npos. */
  method FindBreak(q: string, from: nat) returns (k: nat)
    requires from <= |q|
    ensures from <= k <= |q|
    ensures forall i :: from <= i < k ==> !IsBreak(q[i])
    ensures k < |q| ==> IsBreak(q[k])
  {
    k := from;
    while k < |q| && !IsBreak(q[k])
      invariant from <= k <= |q|
      invariant forall i :: from <= i < k ==> !IsBreak(q[i])
    {
      k := k + 1;
    }
  }

  /** Text without a break is one unfinished token. */
  lemma {:induction false} UnsignedToken(token: string, s: string)
    requires forall i :: 0 <= i < |s| ==> !IsBreak(s[i])
    ensures Unsigned(token, s) == s
    decreases |s|
  {
    if s != [] {
      UnsignedToken(token + [s[0]], s[1..]);
      assert s == [s[0]] + s[1..];
    }
  }

  lemma UnsignedStep(token: string, c: char, t: string)
    requires !IsBreak(c)
    ensures Unsigned(token, [c] + t) == [c] + Unsigned(token + [c], t)
  {
    assert ([c] + t)[1..] == t;
  }

  lemma {:induction false} UnsignedPastToken(token: string, a: string, t: string)
    requires forall i :: 0 <= i < |a| ==> !IsBreak(a[i])
    ensures Unsigned(token, a + t) == a + Unsigned(token + a, t)
    decreases |a|
  {
    hide Unsigned, IsBreak;
    if a == [] {
      assert a + t == t && token + a == token;
    } else {
      assert a + t == [a[0]] + (a[1..] + t);
      UnsignedStep(token, a[0], a[1..] + t);
      UnsignedPastToken(token + [a[0]], a[1..], t);
      assert (token + [a[0]]) + a[1..] == token + a;
      Prepend(a, Unsigned(token + a, t));
    }
  }

  /** The query after the round of the loop that found the break `next`. */
  function AfterBreak(q: string, prev: nat, next: nat): string
    requires prev <= next < |q|
  {
    q[..next + 1] + Following(q[prev..next], q[next..])
  }

  lemma {:induction false} AfterBreakDone(goal: string, q: string, prev: nat, next: nat)
    requires prev <= next < |q| && IsBreak(q[next])
    requires forall k :: prev <= k < next ==> !IsBreak(q[k])
    requires Done(goal, q, prev)
    ensures Done(goal, AfterBreak(q, prev, next), next + 1)
    ensures |AfterBreak(q, prev, next)| <= next + 2 ==> goal == AfterBreak(q, prev, next)
  {
    hide Unsigned, Following;
    UnsignedToBreak(q, prev, next);
    assert q[..next + 1] == q[..prev] + q[prev..next + 1];
    DoneAfter(goal, q[..prev], q[prev..next + 1], Following(q[prev..next], q[next..]));
  }

  lemma {:induction false} DoneAfter(goal: string, p: string, token: string, t: string)
    requires goal == p + (token + Unsigned([], t))
    ensures Done(goal, p + token + t, |p + token|)
    ensures |t| <= 1 ==> goal == p + token + t
  {
    var h := p + token;
    var u := Unsigned([], t);
    Assoc(p, token, u);
    Halves(h, t);
    assert goal == h + u;
    if |t| <= 1 {
      ShortUnsigned(t);
    }
  }

  /** The two checks in a row do what DropSign does: the first one rules out the second. */
  lemma {:induction false} AfterBreakCases(q: string, prev: nat, next: nat)
    requires prev <= next < |q| && IsBreak(q[next])
    ensures var token := q[prev..next + 1];
            var a := if SignAt(q[next + 1..]) && AllowsSign(token) then Erase(q, next + 1, 1) else q;
            var r := if SpacedSignAt(a[next + 1..]) && AllowsSign(token) then Erase(a, next + 1, 2) else a;
            && next < |a| <= |q|
            && r == AfterBreak(q, prev, next)
            && (|a| <= next + 2 ==> a == r)
  {
    hide AllowsSign;
    var rest := q[next + 1..];
    assert q[next..][1..] == rest;
    assert q[prev..next] + [q[next]] == q[prev..next + 1];
    ErasedSigns(q, next + 1);
    if SignAt(rest) && AllowsSign(q[prev..next + 1]) {
      var a := Erase(q, next + 1, 1);
      assert a[next + 1..] == rest[1..] && rest[1..][0] == '?';
    }
  }

  lemma UnsignedToBreak(q: string, prev: nat, next: nat)
    requires prev <= next < |q| && IsBreak(q[next])
    requires forall k :: prev <= k < next ==> !IsBreak(q[k])
    ensures Unsigned([], q[prev..]) == q[prev..next + 1] + Unsigned([], Following(q[prev..next], q[next..]))
  {
    TokenSlices(q, prev, next);
    UnsignedThroughBreak(q[prev..next], q[next..]);
  }

  lemma TokenSlices(q: string, prev: nat, next: nat)
    requires prev <= next < |q|
    ensures q[prev..] == q[prev..next] + q[next..]
    ensures q[prev..next] + [q[next..][0]] == q[prev..next + 1]
  {
  }

  lemma {:induction false} UnsignedThroughBreak(a: string, s: string)
    requires forall k :: 0 <= k < |a| ==> !IsBreak(a[k])
    requires s != [] && IsBreak(s[0])
    ensures Unsigned([], a + s) == (a + [s[0]]) + Unsigned([], Following(a, s))
  {
    UnsignedPastToken([], a, s);
    assert [] + a == a;
    Regroup(a, s[0], Unsigned([], Following(a, s)));
  }

  lemma ErasedSigns(q: string, k: nat)
    requires k <= |q|
    ensures q[..k] + q[k..] == q
    ensures k < |q| ==> q[..k] + q[k..][1..] == Erase(q, k, 1)
    ensures k + 1 < |q| ==> q[..k] + q[k..][2..] == Erase(q, k, 2)
  {
    if k < |q| {
      assert q[k..][1..] == q[k + 1..];
    }
    if k + 1 < |q| {
      assert q[k..][2..] == q[k + 2..];
    }
  }

  /** What the early returns skip holds no sign. */
  lemma ShortUnsigned(t: string)
    requires |t| <= 1
    ensures Unsigned([], t) == t
  {
    if t != [] {
      assert t[1..] == [] && t == [t[0]];
    }
  }

  // ---------------------------------------------------------------- texts it leaves alone

  /** After no token that allows a sign is there one. */
  predicate SignFree(token: string, s: string)
    decreases |s|
  {
    s == [] ||
    ((IsBreak(s[0]) && AllowsSign(token + [s[0]]) ==> !SignAt(s[1..]) && !SpacedSignAt(s[1..]))
     && SignFree(NextToken(token, s[0]), s[1..]))
  }

  /** Unfolding one character of the pass. */
  lemma UnsignedHead(token: string, s: string)
    requires s != []
    ensures Unsigned(token, s)[0] == s[0]
    ensures Unsigned(token, s)[1..] == Unsigned(NextToken(token, s[0]), Following(token, s))
  {
  }

  lemma FollowingWeight(token: string, s: string)
    requires s != []
    ensures Weight(Following(token, s)) <= Weight(s[1..])
    ensures Weight(Following(token, s)) == Weight(s[1..]) ==> Following(token, s) == s[1..]
    ensures Following(token, s) == s[1..] <==>
            (IsBreak(s[0]) && AllowsSign(token + [s[0]]) ==> !SignAt(s[1..]) && !SpacedSignAt(s[1..]))
  {
    var u := s[1..];
    if SignAt(u) {
      WeightDrop(u, 1);
    } else if SpacedSignAt(u) {
      WeightDrop(u, 2);
    }
  }

  lemma {:induction false} UnsignedFixedIff(token: string, s: string)
    ensures Unsigned(token, s) == s <==> SignFree(token, s)
    ensures Weight(Unsigned(token, s)) <= Weight(s)
    ensures Weight(Unsigned(token, s)) == Weight(s) ==> Unsigned(token, s) == s
    decreases |s|
  {
    if s != [] {
      UnsignedFixedIff(NextToken(token, s[0]), Following(token, s));
      UnsignedHead(token, s);
      FollowingWeight(token, s);
      assert s == [s[0]] + s[1..];
    }
  }

  /** The first three characters of the result are those of the text, when they start a sign. */
  lemma UnsignedSign(t: string)
    ensures SignAt(Unsigned([], t)) ==> SignAt(t)
    ensures SpacedSignAt(Unsigned([], t)) ==> SpacedSignAt(t)
  {
    if |t| > 1 && t[0] == '-' {
      var r := Unsigned([], t);
      assert [] + [t[0]] == "-";
      UnsignedHead([], t);
      assert r[1] == r[1..][0] == t[1..][0];
      UnsignedHead("-", t[1..]);
      assert r[1..][1..] == r[2..];
      assert |r| > 2 ==> r[2] == r[2..][0];
      var token := "-" + [t[1]];
      assert token[0] == '-' && "select "[0] == 's' && "where "[0] == 'w' && "and "[0] == 'a';
      assert "or "[0] == 'o' && "not "[0] == 'n';
    } else if |t| == 1 {
      assert t[1..] == [];
    }
  }

  lemma {:induction false} UnsignedIsSignFree(token: string, s: string)
    ensures SignFree(token, Unsigned(token, s))
    decreases |s|
  {
    if s != [] {
      UnsignedIsSignFree(NextToken(token, s[0]), Following(token, s));
      UnsignedHead(token, s);
      if IsBreak(s[0]) {
        UnsignedSign(Following(token, s));
      }
    }
  }

  // ---------------------------------------------------------------- what the pass keeps

  lemma DropSignKeeps(t: string)
    ensures QuoteClean(DropSign(t), false) <==> QuoteClean(t, false)
    ensures AllSpace(DropSign(t)) <==> AllSpace(t)
    ensures Closed(DropSign(t)) <==> Closed(t)
    ensures MarkersClosed(DropSign(t)) <==> MarkersClosed(t)
    ensures NumberFree(' ', t) ==> NumberFree(' ', DropSign(t))
    ensures Spaced(t) ==> Spaced(DropSign(t))
    ensures DropSign(t) != t ==> DropSign(t)[0] == '?'
  {
    if SignAt(t) {
      assert t[1..][0] == '?' && LooseAt(t);
      assert NumberFree(' ', t) ==> NumberFree('-', t[1..]);
      NumberFreeSpace('-', ' ', t[1..]);
    } else if SpacedSignAt(t) {
      assert t[1..][0] == t[1] && t[1..][1..] == t[2..] && t[2..][0] == '?';
      assert LooseAt(t) && LooseAt(t[1..]);
      assert MarkersClosed(t) <==> MarkersClosed(t[1..]);
      assert MarkersClosed(t[1..]) <==> MarkersClosed(t[2..]);
      assert Spaced(t) ==> Spaced(t[1..]) && Spaced(t[2..]);
      assert NumberFree(' ', t) ==> NumberFree('-', t[1..]) && NumberFree(t[1], t[2..]);
      NumberFreeSpace(t[1], ' ', t[2..]);
    }
  }

  lemma {:induction false} UnsignedKeeps(token: string, s: string, escaped: bool)
    ensures QuoteClean(Unsigned(token, s), escaped) <==> QuoteClean(s, escaped)
    ensures AllSpace(Unsigned(token, s)) <==> AllSpace(s)
    ensures Closed(Unsigned(token, s)) <==> Closed(s)
    decreases |s|
  {
    if s != [] {
      UnsignedKeeps(NextToken(token, s[0]), Following(token, s), !escaped && s[0] == '\\');
      DropSignKeeps(s[1..]);
      UnsignedHead(token, s);
      var r := Unsigned(token, s);
      assert |r| > 1 && |s| > 1 && !IsBreak(s[0]) ==> r[1] == r[1..][0] == s[1];
    }
  }

  lemma {:induction false} UnsignedKeepsMarkers(token: string, s: string)
    ensures MarkersClosed(Unsigned(token, s)) <==> MarkersClosed(s)
    decreases |s|
  {
    if s != [] {
      UnsignedKeepsMarkers(NextToken(token, s[0]), Following(token, s));
      DropSignKeeps(s[1..]);
      UnsignedHead(token, s);
      UnsignedKeepsHead(token, s);
    }
  }

  lemma UnsignedKeepsHead(token: string, s: string)
    requires s != []
    ensures LooseAt(Unsigned(token, s)) <==> LooseAt(s)
  {
    var r := Unsigned(token, s);
    UnsignedHead(token, s);
    if |s| > 1 && !IsBreak(s[0]) {
      var tok := token + [s[0]];
      UnsignedKeeps(tok, s[1..], false);
      UnsignedHead(tok, s[1..]);
      assert r[1] == r[1..][0] == s[1..][0];
      if !IsBreak(s[1]) {
        assert s[1..][1..] == s[2..] && r[1..][1..] == r[2..];
        UnsignedKeeps(tok + [s[1]], s[2..], false);
      }
    } else if |s| == 1 {
      assert s[1..] == [];
    }
  }

  lemma {:induction false} UnsignedKeepsNumberFree(token: string, prev: char, s: string)
    requires NumberFree(prev, s)
    ensures NumberFree(prev, Unsigned(token, s))
    decreases |s|
  {
    if s != [] {
      var t := Following(token, s);
      if IsBreak(s[0]) {
        NumberFreeSpace(s[0], ' ', s[1..]);
        DropSignKeeps(s[1..]);
        NumberFreeSpace(s[0], ' ', t);
      }
      UnsignedKeepsNumberFree(NextToken(token, s[0]), s[0], t);
      UnsignedHead(token, s);
    }
  }

  lemma {:induction false} UnsignedKeepsSpaced(token: string, s: string)
    requires Spaced(s)
    ensures Spaced(Unsigned(token, s))
    decreases |s|
  {
    if s != [] {
      var t := Following(token, s);
      DropSignKeeps(s[1..]);
      UnsignedKeepsSpaced(NextToken(token, s[0]), t);
      UnsignedHead(token, s);
      var r := Unsigned(token, s);
      if |r| > 1 {
        assert r[1] == r[1..][0] == t[0];
        assert t[0] == '?' || t[0] == s[1];
      }
    }
  }

  lemma {:induction false} UnsignedKeepsEnd(token: string, s: string)
    requires s != [] && s[|s| - 1] != ' '
    ensures var r := Unsigned(token, s); r[|r| - 1] != ' '
    decreases |s|
  {
    hide Unsigned, AllowsSign;
    var t := Following(token, s);
    UnsignedHead(token, s);
    if t != [] {
      assert t[|t| - 1] == s[|s| - 1];
      UnsignedKeepsEnd(NextToken(token, s[0]), t);
      var r := Unsigned(token, s);
      assert r[|r| - 1] == r[1..][|r| - 2];
    } else {
      assert |s| == 1;
    }
  }

  // ---------------------------------------------------------------- the rule, token by token

  lemma BreaksAre(c: char)
    ensures IsBreak(c) <==> c in " ,("
  {
  }

  /** After a token up to and with its break: where the token is one of five words with a space, or ends in
      a bracket or comma, a sign before a '?' goes, with the one space it may have; everything else stays,
      and the next token begins. */
  lemma SignRule(word: string, b: char, s: string)
    requires b in " ,(" && forall c :: c in word ==> c !in " ,("
    ensures var token := word + [b];
            var sign := token in {"select ", "where ", "and ", "or ", "not "} || b == '(' || b == ',';
            Unsigned([], token + ("-?" + s)) == token + Unsigned([], if sign then "?" + s else "-?" + s)
    ensures forall w :: w in " \t\n\U{0B}\U{0C}\r\U{A0}" ==>
              var token := word + [b];
              var sign := token in {"select ", "where ", "and ", "or ", "not "} || b == '(' || b == ',';
              Unsigned([], token + ("-" + [w] + "?" + s))
              == token + Unsigned([], if sign then "?" + s else "-" + [w] + "?" + s)
  {
    hide Unsigned;
    assert ("-?" + s)[1..] == "?" + s;
    TokenRule(word, b, "-?" + s);
    forall w | w in " \t\n\U{0B}\U{0C}\r\U{A0}"
      ensures var token := word + [b];
              var sign := token in {"select ", "where ", "and ", "or ", "not "} || b == '(' || b == ',';
              Unsigned([], token + ("-" + [w] + "?" + s))
              == token + Unsigned([], if sign then "?" + s else "-" + [w] + "?" + s)
    {
      SpacesAre(w);
      assert ("-" + [w] + "?" + s)[2..] == "?" + s;
      TokenRule(word, b, "-" + [w] + "?" + s);
    }
  }

  lemma TokenRule(word: string, b: char, t: string)
    requires b in " ,(" && forall c :: c in word ==> c !in " ,("
    ensures Unsigned([], (word + [b]) + t)
            == (word + [b]) + Unsigned([], if AllowsSign(word + [b]) then DropSign(t) else t)
  {
    forall k | 0 <= k < |word| ensures !IsBreak(word[k]) {
      assert word[k] in word;
    }
    assert (word + [b]) + t == word + ([b] + t) && ([b] + t)[1..] == t;
    UnsignedThroughBreak(word, [b] + t);
  }

  /** Nothing else is changed: text that starts no sign is passed by. */
  lemma NoSignRule(word: string, b: char, t: string)
    requires b in " ,(" && forall c :: c in word ==> c !in " ,("
    requires |t| < 2 || t[0] != '-' || (t[1] != '?' && (|t| < 3 || t[1] !in " \t\n\U{0B}\U{0C}\r\U{A0}" || t[2] != '?'))
    ensures Unsigned([], (word + [b]) + t) == (word + [b]) + Unsigned([], t)
    ensures Unsigned([], word) == word
  {
    hide Unsigned;
    TokenRule(word, b, t);
    if |t| >= 2 {
      SpacesAre(t[1]);
    }
    forall k | 0 <= k < |word| ensures !IsBreak(word[k]) {
      assert word[k] in word;
    }
    UnsignedToken([], word);
  }
}
