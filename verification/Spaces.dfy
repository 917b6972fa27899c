/** removeSpaces of src/normalization.cpp: one space where there were many, none around
    brackets and commas. */
module Spaces {
  import opened Text
  import opened Literals
  import opened Comments
  import opened Numbers

  function SpaceRun(s: string): (n: nat)
    ensures n <= |s|
    ensures forall i :: 0 <= i < n ==> IsSpace(s[i])
    ensures n < |s| ==> !IsSpace(s[n])
  {
    if s != [] && IsSpace(s[0]) then 1 + SpaceRun(s[1..]) else 0
  }

  /** Every run of whitespace becomes one plain space. */
  function Collapse(s: string): (r: string)
    ensures |r| <= |s|
    ensures s != [] ==> r != []
    decreases |s|
  {
    if s == [] then []
    else if IsSpace(s[0]) then " " + Collapse(s[SpaceRun(s)..])
    else [s[0]] + Collapse(s[1..])
  }

  predicate SpaceBefore(s: string) {
    |s| > 1 && s[0] == ' ' && (s[1] == ')' || s[1] == ',')
  }

  predicate SpaceAfter(s: string) {
    |s| > 1 && s[1] == ' ' && (s[0] == '(' || s[0] == ',')
  }

  /** The one or two erasures the second loop makes at its index. */
  function Squeeze(s: string): (r: string)
    requires s != []
    ensures 0 < |r| <= |s|
  {
    var t := if SpaceBefore(s) then s[1..] else s;
    if SpaceAfter(t) then [t[0]] + t[2..] else t
  }

  function Tighten(s: string): (r: string)
    ensures |r| <= |s|
    ensures s != [] ==> r != []
    decreases |s|
  {
    if s == [] then []
    else
      var t := Squeeze(s);
      [t[0]] + Tighten(t[1..])
  }

  function TrimLast(s: string): (r: string)
    ensures |r| <= |s|
  {
    if s != [] && s[|s| - 1] == ' ' then s[..|s| - 1] else s
  }

  function Respaced(s: string): (r: string)
    ensures |r| <= |s|
  {
    TrimLast(Tighten(Collapse(s)))
  }

  method RemoveSpaces(query: string) returns (r: string)
    requires query != []
    ensures r == Respaced(query)
  {
    r := RemoveDoubleSpaces(query);
    r := RemovePunctuationSpaces(r);
    var j := SizeMinus(|r|, 1);
    if r[j] == ' ' {
      r := Erase(r, j, 1);
    }
  }

  /** The first loop. */
  method RemoveDoubleSpaces(query: string) returns (r: string)
    ensures r == Collapse(query)
  {
    r := query;
    var i := 0;
    assert r[0..] == r;
    while i < |r|
      invariant CollapsedTo(Collapse(query), r, i)
      decreases |r| - i
    {
      CollapseStep(Collapse(query), r, i);
      if IsSpace(r[i]) {
        var j := SkipSpaces(r, i + 1);
        r := r[i := ' '];
        if j != i + 1 {
          r := Erase(r, i + 1, j - i - 1);
        }
      }
      i := i + 1;
    }
    assert r[..i] + [] == r;
  }

  /** The second loop. */
  method RemovePunctuationSpaces(query: string) returns (r: string)
    requires query != []
    ensures r == Tighten(query)
  {
    r := query;
    var i := 0;
    assert r[0..] == r;
    while i <= SizeMinus(|r|, 1)
      invariant r != [] && TightenedTo(Tighten(query), r, i)
      decreases |r| - i
    {
      TightenStep(Tighten(query), r, i);
      if r[i] == ' ' && (At(r, i + 1) == ')' || At(r, i + 1) == ',') {
        r := Erase(r, i, 1);
      }
      if i + 1 <= |r| && At(r, i + 1) == ' ' && (r[i] == '(' || r[i] == ',') {
        r := Erase(r, i + 1, 1);
      }
      i := i + 1;
    }
    assert r[..i] + [] == r;
  }

  method SkipSpaces(q: string, start: nat) returns (j: nat)
    requires start <= |q|
    ensures start <= j <= |q| && j == start + SpaceRun(q[start..])
  {
    j := start;
    while j < |q| && IsSpace(q[j])
      invariant start <= j <= |q|
      invariant start + SpaceRun(q[start..]) == j + SpaceRun(q[j..])
    {
      assert q[j..][1..] == q[j + 1..];
      j := j + 1;
    }
  }

  /** The first i characters of r are final and the loop goes on after them. */
  ghost predicate CollapsedTo(goal: string, r: string, i: nat) {
    i <= |r| && goal == r[..i] + Collapse(r[i..])
  }

  ghost predicate TightenedTo(goal: string, r: string, i: nat) {
    i <= |r| && goal == r[..i] + Tighten(r[i..])
  }

  lemma {:induction false} CollapseStep(goal: string, q: string, i: nat)
    requires i < |q| && CollapsedTo(goal, q, i)
    ensures var n := SpaceRun(q[i + 1..]);
            var r := if IsSpace(q[i]) then Erase(q[i := ' '], i + 1, n) else q;
            |r| <= |q| && (n == 0 && IsSpace(q[i]) ==> r == q[i := ' ']) && CollapsedTo(goal, r, i + 1)
  {
    var n := SpaceRun(q[i + 1..]);
    var r := if IsSpace(q[i]) then Erase(q[i := ' '], i + 1, n) else q;
    assert q[i..][1..] == q[i + 1..];
    assert n == 0 && IsSpace(q[i]) ==> r == q[i := ' '];
    if IsSpace(q[i]) {
      assert r[i + 1..] == q[i..][1 + n..];
    }
    assert r[..i + 1] == q[..i] + [r[i]];
    Regroup(q[..i], r[i], Collapse(r[i + 1..]));
  }

  lemma {:induction false} TightenStep(goal: string, q: string, i: nat)
    requires i < |q| && TightenedTo(goal, q, i)
    ensures var a := if q[i] == ' ' && (At(q, i + 1) == ')' || At(q, i + 1) == ',') then Erase(q, i, 1) else q;
            i < |a| &&
            var r := if At(a, i + 1) == ' ' && (a[i] == '(' || a[i] == ',') then Erase(a, i + 1, 1) else a;
            i < |r| <= |q| && TightenedTo(goal, r, i + 1)
  {
    var a := if q[i] == ' ' && (At(q, i + 1) == ')' || At(q, i + 1) == ',') then Erase(q, i, 1) else q;
    EraseBefore(q, i);
    var r := if At(a, i + 1) == ' ' && (a[i] == '(' || a[i] == ',') then Erase(a, i + 1, 1) else a;
    EraseAfter(a, i);
    var u := Squeeze(q[i..]);
    assert r == q[..i] + u;
    TightenRegroup(q[..i], u, r);
  }

  lemma TightenRegroup(p: string, u: string, r: string)
    requires u != [] && r == p + u
    ensures p + ([u[0]] + Tighten(u[1..])) == r[..|p| + 1] + Tighten(r[|p| + 1..])
  {
    assert r[|p| + 1..] == u[1..] && r[..|p| + 1] == p + [u[0]];
    Regroup(p, u[0], Tighten(u[1..]));
  }

  lemma EraseBefore(q: string, i: nat)
    requires i < |q|
    ensures SpaceBefore(q[i..]) <==> q[i] == ' ' && (At(q, i + 1) == ')' || At(q, i + 1) == ',')
    ensures SpaceBefore(q[i..]) ==> Erase(q, i, 1) == q[..i] + q[i..][1..]
    ensures q == q[..i] + q[i..]
  {
  }

  lemma EraseAfter(q: string, i: nat)
    requires i < |q|
    ensures SpaceAfter(q[i..]) <==> At(q, i + 1) == ' ' && (q[i] == '(' || q[i] == ',')
    ensures SpaceAfter(q[i..]) ==> Erase(q, i + 1, 1) == q[..i] + ([q[i]] + q[i..][2..])
    ensures q == q[..i] + q[i..]
  {
    if SpaceAfter(q[i..]) {
      assert q[..i + 1] == q[..i] + [q[i]];
      assert q[i + 2..] == q[i..][2..];
    }
  }

  // ---------------------------------------------------------------- tidy texts

  /** Two neighbours that never both survive. */
  predicate BadPair(a: char, b: char) {
    (a == ' ' && (b == ' ' || b == ')' || b == ',')) || ((a == '(' || a == ',') && b == ' ')
  }

  /** Plain spaces only, no two in a row. */
  predicate Single(s: string) {
    s == [] ||
    ((IsSpace(s[0]) ==> s[0] == ' ') && !(s[0] == ' ' && |s| > 1 && s[1] == ' ') && Single(s[1..]))
  }

  /** Plain spaces only, no bad pair. */
  predicate Spaced(s: string) {
    s == [] ||
    ((IsSpace(s[0]) ==> s[0] == ' ') && !(|s| > 1 && BadPair(s[0], s[1])) && Spaced(s[1..]))
  }

  /** Spaced, and no space at the end. */
  predicate Tidy(s: string) {
    Spaced(s) && (s != [] ==> s[|s| - 1] != ' ')
  }

  lemma {:induction false} SpacedMeans(s: string)
    ensures Spaced(s) <==>
      (forall i :: 0 <= i < |s| && IsSpace(s[i]) ==> s[i] == ' ') &&
      (forall i :: 0 <= i < |s| - 1 ==> !BadPair(s[i], s[i + 1]))
  {
    if s != [] {
      SpacedMeans(s[1..]);
      assert forall i :: 1 <= i < |s| ==> s[i] == s[1..][i - 1];
      assert forall i :: 0 <= i < |s[1..]| ==> s[1..][i] == s[i + 1];
    }
  }

  lemma {:induction false} CollapseIsSingle(s: string)
    ensures Single(Collapse(s))
    ensures Collapse(s) != [] ==> (Collapse(s)[0] == ' ' <==> IsSpace(s[0]))
    decreases |s|
  {
    if s != [] {
      var n := if IsSpace(s[0]) then SpaceRun(s) else 1;
      CollapseIsSingle(s[n..]);
      assert Collapse(s)[1..] == Collapse(s[n..]);
    }
  }

  lemma SqueezeSingle(s: string)
    requires s != [] && Single(s)
    ensures Single(Squeeze(s)) && !SpaceBefore(Squeeze(s)) && !SpaceAfter(Squeeze(s))
  {
    var t := if SpaceBefore(s) then s[1..] else s;
    assert Single(t);
    if SpaceAfter(t) {
      assert Single(t[1..]) && t[1..][1..] == t[2..];
      var u := [t[0]] + t[2..];
      assert u[1..] == t[2..];
    }
  }

  /** After a head that stays as it is, the next character of the result is that of the text,
      unless a space was erased before a bracket or comma. */
  lemma TightenHead(s: string)
    requires s != []
    ensures Tighten(s)[0] == if SpaceBefore(s) then s[1] else s[0]
  {
  }

  lemma {:induction false} TightenIsSpaced(s: string)
    requires Single(s)
    ensures Spaced(Tighten(s))
    decreases |s|
  {
    if s != [] {
      SqueezeSingle(s);
      var t := Squeeze(s);
      TightenIsSpaced(t[1..]);
      var r := Tighten(s);
      assert r[1..] == Tighten(t[1..]);
      if |t| > 1 {
        TightenHead(t[1..]);
        assert SpaceBefore(t[1..]) ==> t[1] == ' ';
      }
    }
  }

  lemma TrimLastIsTidy(s: string)
    requires Spaced(s)
    ensures Tidy(TrimLast(s))
  {
    SpacedMeans(s);
    SpacedMeans(TrimLast(s));
    if s != [] && s[|s| - 1] == ' ' && |s| > 1 {
      assert !BadPair(s[|s| - 2], s[|s| - 1]);
    }
  }

  lemma RespacedIsTidy(s: string)
    ensures Tidy(Respaced(s))
  {
    CollapseIsSingle(s);
    TightenIsSpaced(Collapse(s));
    TrimLastIsTidy(Tighten(Collapse(s)));
  }

  lemma {:induction false} CollapseFixed(s: string)
    ensures Single(s) ==> Collapse(s) == s
    ensures Weight(Collapse(s)) <= Weight(s)
    ensures Weight(Collapse(s)) == Weight(s) ==> Collapse(s) == s
    decreases |s|
  {
    if s != [] {
      var n := if IsSpace(s[0]) then SpaceRun(s) else 1;
      CollapseFixed(s[n..]);
      assert Collapse(s)[1..] == Collapse(s[n..]);
      WeightDrop(s, n);
      assert s[..n][1..] == s[1..n];
      WeightAtLeast(s[1..n]);
      assert Weight(s[..n]) == CharWeight(s[0]) + Weight(s[1..n]);
      if n == 1 {
        assert s == [s[0]] + s[1..];
      } else {
        assert s[1..][0] == s[1] && IsSpace(s[1]);
        assert !Single(s);
      }
    }
  }

  lemma SqueezeWeight(s: string)
    requires s != []
    ensures Weight(Squeeze(s)) <= Weight(s)
    ensures Weight(Squeeze(s)) == Weight(s) ==> Squeeze(s) == s
  {
    var t := if SpaceBefore(s) then s[1..] else s;
    if SpaceAfter(t) {
      assert t[1..][1..] == t[2..];
      assert ([t[0]] + t[2..])[1..] == t[2..];
    }
  }

  lemma {:induction false} TightenFixed(s: string)
    ensures Spaced(s) ==> Tighten(s) == s
    ensures Weight(Tighten(s)) <= Weight(s)
    ensures Weight(Tighten(s)) == Weight(s) ==> Tighten(s) == s
    decreases |s|
  {
    if s != [] {
      var t := Squeeze(s);
      SqueezeWeight(s);
      TightenFixed(t[1..]);
      assert Tighten(s)[1..] == Tighten(t[1..]);
      assert t == [t[0]] + t[1..];
    }
  }

  lemma TrimLastWeight(s: string)
    ensures Weight(TrimLast(s)) <= Weight(s)
    ensures Weight(TrimLast(s)) == Weight(s) ==> TrimLast(s) == s
  {
    if s != [] {
      WeightDrop(s, |s| - 1);
      WeightAtLeast(s[|s| - 1..]);
    }
  }

  lemma RespacedFixedIff(s: string)
    ensures Respaced(s) == s <==> Tidy(s)
    ensures Weight(Respaced(s)) <= Weight(s)
    ensures Weight(Respaced(s)) == Weight(s) ==> Respaced(s) == s
  {
    RespacedIsTidy(s);
    CollapseFixed(s);
    TightenFixed(Collapse(s));
    TrimLastWeight(Tighten(Collapse(s)));
    if Spaced(s) {
      SpacedIsSingle(s);
    }
  }

  lemma {:induction false} SpacedIsSingle(s: string)
    requires Spaced(s)
    ensures Single(s)
  {
    if s != [] {
      SpacedIsSingle(s[1..]);
    }
  }

  // ---------------------------------------------------------------- what the pass keeps

  /** The text without its whitespace. */
  function Ink(s: string): string {
    if s == [] then [] else (if IsSpace(s[0]) then [] else [s[0]]) + Ink(s[1..])
  }

  lemma {:induction false} InkConcat(a: string, b: string)
    ensures Ink(a + b) == Ink(a) + Ink(b)
  {
    if a == [] {
      assert a + b == b;
    } else {
      assert (a + b)[1..] == a[1..] + b;
      InkConcat(a[1..], b);
    }
  }

  lemma {:induction false} InkPastSpaces(s: string, n: nat)
    requires n <= SpaceRun(s)
    ensures Ink(s[n..]) == Ink(s)
  {
    if n > 0 {
      assert s[1..][n - 1..] == s[n..];
      InkPastSpaces(s[1..], n - 1);
    }
  }

  lemma {:induction false} CollapseKeepsInk(s: string)
    ensures Ink(Collapse(s)) == Ink(s)
    decreases |s|
  {
    if s != [] {
      var n := if IsSpace(s[0]) then SpaceRun(s) else 1;
      CollapseKeepsInk(s[n..]);
      assert Collapse(s)[1..] == Collapse(s[n..]);
      if IsSpace(s[0]) {
        InkPastSpaces(s, n);
      }
    }
  }

  lemma {:induction false} TightenKeepsInk(s: string)
    ensures Ink(Tighten(s)) == Ink(s)
    decreases |s|
  {
    if s != [] {
      var t := Squeeze(s);
      TightenKeepsInk(t[1..]);
      assert Tighten(s)[1..] == Tighten(t[1..]);
      SqueezeKeepsInk(s);
    }
  }

  lemma SqueezeKeepsInk(s: string)
    requires s != []
    ensures Ink(Squeeze(s)) == Ink(s)
  {
    var t := if SpaceBefore(s) then s[1..] else s;
    if SpaceAfter(t) {
      assert t[1..][1..] == t[2..];
      assert ([t[0]] + t[2..])[1..] == t[2..];
    }
  }

  /** Only whitespace is removed: the other characters stay, in order. */
  lemma RespacedKeepsInk(s: string)
    ensures Ink(Respaced(s)) == Ink(s)
  {
    hide Collapse, Tighten, Ink;
    CollapseKeepsInk(s);
    TightenKeepsInk(Collapse(s));
    TrimLastKeepsInk(Tighten(Collapse(s)));
  }

  lemma TrimLastKeepsInk(t: string)
    ensures Ink(TrimLast(t)) == Ink(t)
  {
    if t != [] && t[|t| - 1] == ' ' {
      assert t == TrimLast(t) + " ";
      InkConcat(TrimLast(t), " ");
      assert Ink(" ") == [];
      assert Ink(TrimLast(t)) + [] == Ink(TrimLast(t));
    }
  }

  lemma {:induction false} CleanPastSpaces(s: string, n: nat, escaped: bool)
    requires 0 < n <= SpaceRun(s)
    ensures QuoteClean(s, escaped) <==> QuoteClean(s[n..], false)
    decreases n
  {
    if n > 1 {
      assert s[1..][n - 1..] == s[n..];
      CleanPastSpaces(s[1..], n - 1, false);
    }
  }

  lemma {:induction false} CollapseKeeps(s: string, escaped: bool)
    ensures QuoteClean(Collapse(s), escaped) <==> QuoteClean(s, escaped)
    ensures AllSpace(Collapse(s)) <==> AllSpace(s)
    ensures Closed(Collapse(s)) <==> Closed(s)
    decreases |s|
  {
    if s != [] {
      var n := if IsSpace(s[0]) then SpaceRun(s) else 1;
      CollapseKeeps(s[n..], !escaped && s[0] == '\\');
      var r := Collapse(s);
      assert r[1..] == Collapse(s[n..]);
      if IsSpace(s[0]) {
        CleanPastSpaces(s, n, escaped);
        SpacePastSpaces(s, n);
      } else if |s| > 1 {
        assert r[1] == if IsSpace(s[1]) then ' ' else s[1];
      }
    }
  }

  lemma {:induction false} SpacePastSpaces(s: string, n: nat)
    requires n <= SpaceRun(s)
    ensures AllSpace(s) <==> AllSpace(s[n..])
    ensures Closed(s) <==> Closed(s[n..])
    ensures MarkersClosed(s) <==> MarkersClosed(s[n..])
    ensures NumberFree(' ', s) ==> NumberFree(' ', s[n..])
  {
    if n > 0 {
      assert s[1..][n - 1..] == s[n..];
      SpacePastSpaces(s[1..], n - 1);
      NumberFreeSpace(s[0], ' ', s[1..]);
    }
  }

  /** Being number-free depends on the character before only through its kind. */
  lemma NumberFreeSpace(a: char, b: char, s: string)
    requires PrecedesNumber(a) <==> PrecedesNumber(b)
    ensures NumberFree(a, s) <==> NumberFree(b, s)
  {
  }

  lemma {:induction false} CollapseKeepsMarkers(s: string)
    ensures MarkersClosed(Collapse(s)) <==> MarkersClosed(s)
    decreases |s|
  {
    if s != [] {
      var n := if IsSpace(s[0]) then SpaceRun(s) else 1;
      CollapseKeepsMarkers(s[n..]);
      var r := Collapse(s);
      assert r[1..] == Collapse(s[n..]);
      if IsSpace(s[0]) {
        SpacePastSpaces(s, n);
      } else {
        CollapseKeepsHead(s);
      }
    }
  }

  lemma CollapseKeepsHead(s: string)
    requires s != [] && !IsSpace(s[0])
    ensures LooseAt(Collapse(s)) <==> LooseAt(s)
  {
    var r := Collapse(s);
    assert r[1..] == Collapse(s[1..]);
    CollapseKeeps(s[1..], false);
    if |s| > 1 {
      assert r[1] == if IsSpace(s[1]) then ' ' else s[1];
      if !IsSpace(s[1]) {
        assert r[2..] == r[1..][1..] && s[2..] == s[1..][1..];
        assert r[1..][1..] == Collapse(s[2..]);
        CollapseKeeps(s[2..], false);
      }
    }
  }

  lemma {:induction false} CollapseKeepsNumberFree(prev: char, s: string)
    requires NumberFree(prev, s)
    ensures NumberFree(prev, Collapse(s))
    decreases |s|
  {
    if s != [] {
      var n := if IsSpace(s[0]) then SpaceRun(s) else 1;
      assert Collapse(s)[1..] == Collapse(s[n..]);
      if IsSpace(s[0]) {
        NumberFreeSpace(s[0], ' ', s[1..]);
        assert NumberFree(' ', s);
        SpacePastSpaces(s, n);
        CollapseKeepsNumberFree(' ', s[n..]);
      } else {
        CollapseKeepsNumberFree(s[0], s[1..]);
      }
    }
  }

  lemma SqueezeKeeps(s: string, escaped: bool)
    requires s != []
    ensures QuoteClean(Squeeze(s), escaped) <==> QuoteClean(s, escaped)
    ensures AllSpace(Squeeze(s)) <==> AllSpace(s)
    ensures Closed(Squeeze(s)) <==> Closed(s)
    ensures MarkersClosed(Squeeze(s)) <==> MarkersClosed(s)
  {
    var t := if SpaceBefore(s) then s[1..] else s;
    if SpaceBefore(s) {
      assert t[0] == s[1] && LooseAt(s);
    }
    if SpaceAfter(t) {
      var u := [t[0]] + t[2..];
      assert u[1..] == t[1..][1..] == t[2..];
      assert t[1..][0] == ' ' && LooseAt(t[1..]) && LooseAt(t) && LooseAt(u);
      assert QuoteClean(t[1..], false) <==> QuoteClean(t[2..], false);
      assert MarkersClosed(t[1..]) <==> MarkersClosed(t[2..]);
      assert MarkersClosed(t) <==> MarkersClosed(t[1..]);
      assert MarkersClosed(u) <==> MarkersClosed(u[1..]);
    }
  }

  lemma {:induction false} TightenKeeps(s: string, escaped: bool)
    ensures QuoteClean(Tighten(s), escaped) <==> QuoteClean(s, escaped)
    ensures AllSpace(Tighten(s)) <==> AllSpace(s)
    ensures Closed(Tighten(s)) <==> Closed(s)
    decreases |s|
  {
    if s != [] {
      var t := Squeeze(s);
      SqueezeKeeps(s, escaped);
      TightenKeeps(t[1..], !escaped && t[0] == '\\');
      var r := Tighten(s);
      assert r[0] == t[0] && r[1..] == Tighten(t[1..]);
      if |t| > 1 {
        TightenHead(t[1..]);
      }
    }
  }

  lemma {:induction false} TightenKeepsMarkers(s: string)
    ensures MarkersClosed(Tighten(s)) <==> MarkersClosed(s)
    decreases |s|
  {
    if s != [] {
      var t := Squeeze(s);
      SqueezeKeeps(s, false);
      TightenKeepsMarkers(t[1..]);
      assert Tighten(s)[1..] == Tighten(t[1..]);
      TightenKeepsHead(t, Tighten(s));
    }
  }

  lemma TightenKeepsHead(t: string, r: string)
    requires t != [] && r == [t[0]] + Tighten(t[1..])
    ensures LooseAt(r) <==> LooseAt(t)
  {
    assert r[1..] == Tighten(t[1..]);
    TightenKeeps(t[1..], false);
    if |t| > 1 {
      TightenHead(t[1..]);
      if t[1] == '-' || t[1] == '*' {
        assert Squeeze(t[1..]) == t[1..];
        assert t[1..][1..] == t[2..];
        assert r[2..] == r[1..][1..] == Tighten(t[2..]);
        TightenKeeps(t[2..], false);
      }
    }
  }

  lemma SqueezeKeepsNumberFree(prev: char, s: string)
    requires s != [] && NumberFree(prev, s)
    ensures NumberFree(prev, Squeeze(s))
  {
    var t := if SpaceBefore(s) then s[1..] else s;
    assert NumberFree(prev, t) by {
      if SpaceBefore(s) {
        assert NumberFree(' ', s[1..]);
      }
    }
    if SpaceAfter(t) {
      assert t[1..][1..] == t[2..];
      var u := [t[0]] + t[2..];
      assert u[1..] == t[2..];
      assert NumberFree(t[0], t[1..]) && NumberFree(' ', t[2..]);
      NumberFreeSpace(t[0], ' ', t[2..]);
    }
  }

  lemma {:induction false} TightenKeepsNumberFree(prev: char, s: string)
    requires NumberFree(prev, s)
    ensures NumberFree(prev, Tighten(s))
    decreases |s|
  {
    if s != [] {
      var t := Squeeze(s);
      SqueezeKeepsNumberFree(prev, s);
      TightenKeepsNumberFree(t[0], t[1..]);
      assert Tighten(s)[1..] == Tighten(t[1..]);
    }
  }

  /** A space at the very end matters to none of the conditions. */
  lemma {:induction false} TrailingSpace(s: string, prev: char, escaped: bool)
    ensures QuoteClean(s + " ", escaped) <==> QuoteClean(s, escaped)
    ensures AllSpace(s + " ") <==> AllSpace(s)
    ensures Closed(s + " ") <==> Closed(s)
    ensures NumberFree(prev, s + " ") <==> NumberFree(prev, s)
    decreases |s|
  {
    var r := s + " ";
    if s == [] {
      assert r == " " && r[1..] == [];
    } else {
      assert r[0] == s[0] && r[1..] == s[1..] + " ";
      TrailingSpace(s[1..], s[0], !escaped && s[0] == '\\');
    }
  }

  lemma {:induction false} TrailingSpaceMarkers(s: string)
    ensures MarkersClosed(s + " ") <==> MarkersClosed(s)
  {
    var r := s + " ";
    if s == [] {
      assert r == " " && r[1..] == [];
    } else {
      assert r[0] == s[0] && r[1..] == s[1..] + " ";
      TrailingSpaceMarkers(s[1..]);
      TrailingSpace(s[1..], ' ', false);
      if |s| > 1 {
        assert r[2..] == s[2..] + " ";
        TrailingSpace(s[2..], ' ', false);
      }
    }
  }

  lemma TrimLastKeeps(s: string, prev: char)
    ensures QuoteClean(TrimLast(s), false) <==> QuoteClean(s, false)
    ensures MarkersClosed(TrimLast(s)) <==> MarkersClosed(s)
    ensures NumberFree(prev, s) <==> NumberFree(prev, TrimLast(s))
  {
    if s != [] && s[|s| - 1] == ' ' {
      assert s == TrimLast(s) + " ";
      TrailingSpace(TrimLast(s), prev, false);
      TrailingSpaceMarkers(TrimLast(s));
    }
  }

  lemma RespacedKeeps(s: string)
    ensures QuoteClean(Respaced(s), false) <==> QuoteClean(s, false)
    ensures MarkersClosed(Respaced(s)) <==> MarkersClosed(s)
    ensures NoNumbers(s) ==> NoNumbers(Respaced(s))
  {
    var c := Collapse(s);
    var t := Tighten(c);
    CollapseKeeps(s, false);
    CollapseKeepsMarkers(s);
    TightenKeeps(c, false);
    TightenKeepsMarkers(c);
    TrimLastKeeps(t, 'a');
    if NoNumbers(s) {
      StartFree(s);
      CollapseKeepsNumberFree('a', s);
      TightenKeepsNumberFree('a', c);
      StartFree(Respaced(s));
    }
  }

  /** The first character counts as coming after one that precedes no number. */
  lemma StartFree(s: string)
    ensures NoNumbers(s) <==> NumberFree('a', s)
  {
  }

  /** In tidy text a marker is closed exactly when it is inert. */
  lemma {:induction false} TidyMarkers(s: string)
    requires Tidy(s)
    ensures MarkersClosed(s) <==> Everywhere(s, InertAt)
  {
    if s != [] {
      assert |s| > 1 ==> s[1..][|s| - 2] == s[|s| - 1];
      TidyMarkers(s[1..]);
      TidySpaces(s[1..]);
      if |s| > 1 {
        assert s[1..][1..] == s[2..];
        assert |s| > 2 ==> s[2..][|s| - 3] == s[|s| - 1];
        TidySpaces(s[2..]);
      }
    }
  }

  lemma TidySpaces(s: string)
    requires Tidy(s)
    ensures AllSpace(s) <==> s == []
    ensures Closed(s) <==> s == [] || StartsWith(s, "*/") || StartsWith(s, " */")
  {
    if s != [] {
      TidyNotAllSpace(s);
      if s[0] == ' ' {
        assert |s| > 1 && s[1..][0] == s[1];
        assert Spaced(s[1..]) && !IsSpace(s[1]);
        assert StartsWith(s, " */") <==> |s| > 2 && s[1] == '*' && s[2] == '/';
      }
    }
  }

  lemma {:induction false} TidyNotAllSpace(s: string)
    requires Tidy(s) && s != []
    ensures !AllSpace(s)
  {
    if |s| > 1 {
      assert s[1..][|s| - 2] == s[|s| - 1];
      TidyNotAllSpace(s[1..]);
    }
  }

  // ---------------------------------------------------------------- in one go

  /** What the pass comes to: a gap between two characters is one space, and none after "(" and ",", before ")"
      and ",", and at the end.  `prev` is the last character that was no space, `gap` whether one came since. */
  function Spread(prev: char, gap: bool, s: string): string
    decreases |s|
  {
    if s == [] then []
    else if s[0] in " \t\n\U{0B}\U{0C}\r\U{A0}" then Spread(prev, true, s[1..])
    else (if gap && prev !in "(," && s[0] !in ")," then " " else "") + ([s[0]] + Spread(s[0], false, s[1..]))
  }

  lemma SpreadSpace(prev: char, gap: bool, s: string)
    requires s != []
    ensures IsSpace(s[0]) ==> Spread(prev, gap, s) == Spread(prev, true, s[1..])
    ensures !IsSpace(s[0]) ==>
              Spread(prev, gap, s) == (if gap && prev !in "(," && s[0] !in ")," then " " else "")
                                      + ([s[0]] + Spread(s[0], false, s[1..]))
  {
    SpacesAre(s[0]);
  }

  lemma {:induction false} SpreadPastRun(prev: char, s: string, n: nat)
    requires n <= |s| && forall i :: 0 <= i < n ==> IsSpace(s[i])
    ensures Spread(prev, true, s) == Spread(prev, true, s[n..])
    decreases n
  {
    if n > 0 {
      SpreadSpace(prev, true, s);
      SpreadPastRun(prev, s[1..], n - 1);
      assert s[1..][n - 1..] == s[n..];
    }
  }

  lemma {:induction false} SpreadCollapsed(prev: char, gap: bool, s: string)
    ensures Spread(prev, gap, Collapse(s)) == Spread(prev, gap, s)
    decreases |s|
  {
    hide Spread;
    if s != [] {
      var c := Collapse(s);
      SpreadSpace(prev, gap, s);
      SpreadSpace(prev, gap, c);
      if IsSpace(s[0]) {
        var n := SpaceRun(s);
        assert c[1..] == Collapse(s[n..]);
        SpreadCollapsed(prev, true, s[n..]);
        SpreadPastRun(prev, s[1..], n - 1);
        assert s[1..][n - 1..] == s[n..];
      } else {
        assert c[1..] == Collapse(s[1..]);
        SpreadCollapsed(s[0], false, s[1..]);
      }
    }
  }

  /** Before a character that is no space only one thing counts: whether a space comes. */
  lemma SpreadFrom(prev: char, gap: bool, s: string)
    requires s == [] || !IsSpace(s[0]) || prev !in "(,"
    requires !gap || prev in "(," || s == [] || s[0] in "),"
    ensures Spread(prev, gap, s) == Spread('a', false, s)
    decreases |s|
  {
    if s != [] {
      SpreadSpace(prev, gap, s);
      SpreadSpace('a', false, s);
      if IsSpace(s[0]) {
        SpreadAfter(prev, s[1..]);
      }
    }
  }

  lemma SpreadAfter(prev: char, s: string)
    requires prev !in "(,"
    ensures Spread(prev, true, s) == Spread('a', true, s)
    decreases |s|
  {
    if s != [] {
      SpreadSpace(prev, true, s);
      SpreadSpace('a', true, s);
      if IsSpace(s[0]) {
        SpreadAfter(prev, s[1..]);
      }
    }
  }

  lemma TrimLastBehind(c: char, r: string)
    ensures TrimLast([c] + r) == if r == [] && c == ' ' then [] else [c] + TrimLast(r)
  {
  }

  /** One character that is no space, with the space after it that goes. */
  lemma SpreadSqueezed(v: string)
    requires v != [] && Single(v) && !IsSpace(v[0])
    ensures var u := if SpaceAfter(v) then v[2..] else v[1..];
            Single(u) && Spread('a', false, v) == [v[0]] + Spread('a', false, u)
  {
    SpreadSpace('a', false, v);
    assert Single(v[1..]);
    if SpaceAfter(v) {
      assert v[1..][0] == ' ' && v[1..][1..] == v[2..];
      assert Single(v[1..][1..]);
      SpreadSpace(v[0], false, v[1..]);
      SpreadFrom(v[0], true, v[2..]);
    } else {
      SpreadFrom(v[0], false, v[1..]);
    }
  }

  lemma {:induction false} TightenSpreads(t: string)
    requires Single(t)
    ensures TrimLast(Tighten(t)) == Spread('a', false, t)
    decreases |t|
  {
    hide Spread, TrimLast;
    if t == [] {
      SpreadNothing('a', false);
    } else {
      var u := Squeeze(t);
      TrimLastBehind(u[0], Tighten(u[1..]));
      if t[0] == ' ' && !SpaceBefore(t) {
        SpreadLeading(t);
        TightenSpreads(t[1..]);
      } else {
        var v := if t[0] == ' ' then t[1..] else t;
        SpreadSqueezed(v);
        if t[0] == ' ' {
          SpreadSpace('a', false, t);
          SpreadFrom('a', true, v);
        }
        assert u[1..] == if SpaceAfter(v) then v[2..] else v[1..];
        TightenSpreads(u[1..]);
      }
    }
  }

  lemma SpreadNothing(prev: char, gap: bool)
    ensures Spread(prev, gap, []) == [] && TrimLast([]) == []
  {
  }

  /** A space that stays, unless it is the last character. */
  lemma SpreadLeading(t: string)
    requires t != [] && t[0] == ' ' && !SpaceBefore(t) && Single(t)
    ensures Single(t[1..]) && Squeeze(t) == t
    ensures Spread('a', false, t) == if |t| == 1 then [] else " " + Spread('a', false, t[1..])
  {
    hide Spread;
    SpreadSpace('a', false, t);
    if |t| > 1 {
      var v := t[1..];
      assert v[0] == t[1] && !IsSpace(v[0]);
      SpreadSpace('a', true, v);
      SpreadSpace('a', false, v);
    } else {
      SpreadNothing('a', true);
    }
  }

  /** The three loops together do what the one-pass function says. */
  lemma RespacedIs(s: string)
    ensures Respaced(s) == Spread('a', false, s)
  {
    CollapseIsSingle(s);
    TightenSpreads(Collapse(s));
    SpreadCollapsed('a', false, s);
  }

  /** A tidy text by its characters. */
  lemma TidyMeans(s: string)
    ensures Tidy(s) <==>
              && (forall i :: 0 <= i < |s| ==> s[i] !in "\t\n\U{0B}\U{0C}\r\U{A0}")
              && (forall i :: 0 <= i < |s| - 1 ==> [s[i], s[i + 1]] !in {"  ", " )", " ,", "( ", ", "})
              && (s != [] ==> s[|s| - 1] != ' ')
  {
    SpacedMeans(s);
    forall i | 0 <= i < |s| ensures (IsSpace(s[i]) ==> s[i] == ' ') <==> s[i] !in "\t\n\U{0B}\U{0C}\r\U{A0}" {
      SpacesAre(s[i]);
    }
    forall i | 0 <= i < |s| - 1
      ensures BadPair(s[i], s[i + 1]) <==> [s[i], s[i + 1]] in {"  ", " )", " ,", "( ", ", "}
    {
      BadPairsAre(s[i], s[i + 1]);
    }
  }

  lemma BadPairsAre(a: char, b: char)
    ensures BadPair(a, b) <==> [a, b] in {"  ", " )", " ,", "( ", ", "}
  {
    assert [a, b][0] == a && [a, b][1] == b;
  }
}
