/** The three comment passes of src/normalization.cpp. */
module Comments {
  import opened Text
  import opened Literals

  // ---------------------------------------------------------------- block comments

  /** Where the search for the end of a block comment stops: at a '*' or before a '/'. */
  function CppStop(s: string, j: nat): (stop: nat)
    requires j <= |s|
    ensures j <= stop <= |s|
    decreases |s| - j
  {
    if j + 1 < |s| && s[j] != '*' && s[j + 1] != '/' then CppStop(s, j + 1) else j
  }

  predicate OpensCpp(s: string) {
    |s| >= 2 && s[0] == '/' && s[1] == '*'
  }

  predicate CppEndAt(s: string, j: nat)
    requires j <= |s|
  {
    At(s, j) == '*' && j < |s| && At(s, j + 1) == '/'
  }

  /** The text once the comment it opens with has been cut. */
  function CppCut(s: string): (r: string)
    requires OpensCpp(s)
    ensures 2 <= |r| <= |s| && r[0] == '/'
  {
    var j := CppStop(s, 2);
    if CppEndAt(s, j) then (if j == 2 then s else "/* " + s[j..]) else Erase(s, 2, j + 2)
  }

  function Cpp(s: string): (r: string)
    ensures |r| <= |s|
    decreases |s|
  {
    if |s| < 2 then s
    else
      var t := if OpensCpp(s) then CppCut(s) else s;
      [t[0]] + Cpp(t[1..])
  }

  /** The first i characters of r are final and the pass goes on after them. */
  ghost predicate CppTo(goal: string, r: string, i: nat) {
    i <= |r| && goal == r[..i] + Cpp(r[i..])
  }

  method RemoveCppComment(query: string) returns (r: string)
    requires query != []
    ensures r == Cpp(query)
    ensures r != []
  {
    r := query;
    var i := 0;
    assert r[0..] == r;
    while i < SizeMinus(|r|, 1)
      invariant r != []
      invariant CppTo(Cpp(query), r, i)
      decreases |r| - i
    {
      CppStep(Cpp(query), r, i);
      if r[i] == '/' && r[i + 1] == '*' {
        r := CutComment(r, i);
      }
      i := i + 1;
    }
    assert r == r[..i] + r[i..];
  }

  /** The loop body for the comment that opens at i. */
  method CutComment(query: string, i: nat) returns (r: string)
    requires i <= |query| && OpensCpp(query[i..])
    ensures r == query[..i] + CppCut(query[i..])
  {
    r := query;
    var j := i + 2;
    while j < SizeMinus(|r|, 1) && r[j] != '*' && r[j + 1] != '/'
      invariant i + 2 <= j <= |r|
      invariant CppStop(r[i..], 2) == CppStop(r[i..], j - i)
    {
      j := j + 1;
    }
    CppPlace(r, i, j);
    // the search may have stopped at a lone star, a slash or the end of the text
    if At(r, j) == '*' && At(r, j + 1) == '/' {
      if j != i + 2 {
        r := r[i + 2 := ' '];
        r := Erase(r, i + 3, j - i - 3);
      }
    } else {
      r := Erase(r, i + 2, j - i + 2);
    }
  }

  /** The in-place edit of the comment opened at i is CppCut of the suffix from i. */
  lemma {:induction false} CppPlace(q: string, i: nat, j: nat)
    requires i + 2 <= j <= |q| && OpensCpp(q[i..]) && j == i + CppStop(q[i..], 2)
    ensures CppEndAt(q[i..], j - i) <==> j < |q| && At(q, j) == '*' && At(q, j + 1) == '/'
    ensures CppEndAt(q[i..], j - i) && j != i + 2 ==>
              Erase(q[i + 2 := ' '], i + 3, j - i - 3) == q[..i] + CppCut(q[i..])
    ensures CppEndAt(q[i..], j - i) && j == i + 2 ==> q == q[..i] + CppCut(q[i..])
    ensures !CppEndAt(q[i..], j - i) ==> Erase(q, i + 2, j - i + 2) == q[..i] + CppCut(q[i..])
  {
    if CppEndAt(q[i..], j - i) {
      if j != i + 2 {
        BlankBody(q, i, j);
      } else {
        assert q == q[..i] + q[i..];
      }
    } else {
      EraseBody(q, i, j);
    }
  }

  lemma BlankBody(q: string, i: nat, j: nat)
    requires i + 2 < j <= |q| && q[i] == '/' && q[i + 1] == '*'
    ensures Erase(q[i + 2 := ' '], i + 3, j - i - 3) == q[..i] + ("/* " + q[i..][j - i..])
  {
    var m := q[i + 2 := ' '];
    assert m[..i + 3] == q[..i] + "/* ";
    assert m[j..] == q[i..][j - i..];
  }

  lemma EraseBody(q: string, i: nat, j: nat)
    requires i + 2 <= j <= |q|
    ensures Erase(q, i + 2, j - i + 2) == q[..i] + Erase(q[i..], 2, j - i + 2)
  {
    assert q[..i + 2] == q[..i] + q[i..][..2];
    if j + 4 <= |q| {
      assert q[j + 4..] == q[i..][j - i + 4..];
    }
  }

  lemma CppStep(goal: string, q: string, i: nat)
    requires i + 1 < |q| && CppTo(goal, q, i)
    ensures OpensCpp(q[i..]) <==> q[i] == '/' && q[i + 1] == '*'
    ensures var r := if OpensCpp(q[i..]) then q[..i] + CppCut(q[i..]) else q;
            |r| <= |q| && CppTo(goal, r, i + 1)
  {
    var s := q[i..];
    var t := if OpensCpp(s) then CppCut(s) else s;
    var r := if OpensCpp(s) then q[..i] + t else q;
    assert r == q[..i] + t;
    assert r[i + 1..] == t[1..];
    assert r[..i + 1] == q[..i] + [t[0]];
    Regroup(q[..i], t[0], Cpp(t[1..]));
  }

  // ---------------------------------------------------------------- line comments

  predicate IsEol(c: char) {
    c == '\r' || c == '\n'
  }

  /** Length of the rest of the line together with the line ends after it. */
  function LineLength(s: string, inEol: bool): (n: nat)
    ensures n <= |s|
  {
    if s == [] then 0
    else if IsEol(s[0]) then 1 + LineLength(s[1..], true)
    else if inEol then 0
    else 1 + LineLength(s[1..], false)
  }

  function Hash(s: string): (r: string)
    ensures |r| <= |s|
    decreases |s|
  {
    if s == [] then []
    else if s[0] == '#' then "#" + Hash(s[1 + LineLength(s[1..], false)..])
    else [s[0]] + Hash(s[1..])
  }

  predicate OpensDash(s: string) {
    |s| >= 2 && s[0] == '-' && s[1] == '-'
  }

  function Dash(s: string): (r: string)
    ensures |r| <= |s|
    decreases |s|
  {
    if |s| < 2 then s
    else if OpensDash(s) then "-" + Dash("-" + s[2 + LineLength(s[2..], false)..])
    else [s[0]] + Dash(s[1..])
  }

  /** The two inner loops of both line-comment passes. */
  method SkipLine(q: string, start: nat) returns (j: nat)
    requires start <= |q|
    ensures start <= j <= |q| && j == start + LineLength(q[start..], false)
  {
    j := start;
    while j < |q| && (q[j] != '\r' && q[j] != '\n')
      invariant start <= j <= |q|
      invariant start + LineLength(q[start..], false) == j + LineLength(q[j..], false)
    {
      assert q[j..][1..] == q[j + 1..];
      j := j + 1;
    }
    assert j < |q| ==> q[j..][1..] == q[j + 1..];
    assert LineLength(q[j..], false) == LineLength(q[j..], true);
    while j < |q| && (q[j] == '\r' || q[j] == '\n')
      invariant start <= j <= |q|
      invariant start + LineLength(q[start..], false) == j + LineLength(q[j..], true)
    {
      assert q[j..][1..] == q[j + 1..];
      j := j + 1;
    }
  }

  /** The first i characters of r are final and the pass goes on after them. */
  ghost predicate HashTo(goal: string, r: string, i: nat) {
    i <= |r| && goal == r[..i] + Hash(r[i..])
  }

  method RemoveHashComment(query: string) returns (r: string)
    ensures r == Hash(query)
    ensures query != [] ==> r != []
  {
    r := query;
    var i := 0;
    assert r[0..] == r;
    while i < |r|
      invariant query != [] ==> r != []
      invariant HashTo(Hash(query), r, i)
      decreases |r| - i
    {
      HashStep(Hash(query), r, i);
      if r[i] == '#' {
        var j := SkipLine(r, i + 1);
        r := Erase(r, i + 1, j - i - 1);
      }
      i := i + 1;
    }
    assert r[..i] == r;
  }

  lemma HashStep(goal: string, q: string, i: nat)
    requires i < |q| && HashTo(goal, q, i)
    ensures var n := if q[i] == '#' then LineLength(q[i + 1..], false) else 0;
            var r := Erase(q, i + 1, n);
            |r| <= |q| && (n == 0 ==> r == q) && HashTo(goal, r, i + 1)
  {
    var n := if q[i] == '#' then LineLength(q[i + 1..], false) else 0;
    var r := Erase(q, i + 1, n);
    assert q[i..][1..] == q[i + 1..];
    assert n == 0 ==> r == q;
    assert r[i + 1..] == q[i..][1 + n..];
    assert r[..i + 1] == q[..i] + [q[i]];
    Regroup(q[..i], q[i], Hash(r[i + 1..]));
  }

  /** The first i characters of r are final and the pass goes on after them. */
  ghost predicate DashTo(goal: string, r: string, i: nat) {
    i <= |r| && goal == r[..i] + Dash(r[i..])
  }

  method RemoveDashComment(query: string) returns (r: string)
    requires query != []
    ensures r == Dash(query)
    ensures r != []
  {
    r := query;
    var i := 0;
    assert r[0..] == r;
    while i < SizeMinus(|r|, 1)
      invariant r != []
      invariant DashTo(Dash(query), r, i)
      decreases |r| - i
    {
      DashStep(Dash(query), r, i);
      if r[i] == '-' && r[i + 1] == '-' {
        var j := SkipLine(r, i + 2);
        if j != i + 1 {
          r := Erase(r, i + 2, j - i - 2);
        }
      }
      i := i + 1;
    }
    assert r == r[..i] + r[i..];
  }

  lemma DashStep(goal: string, q: string, i: nat)
    requires i + 1 < |q| && DashTo(goal, q, i)
    ensures OpensDash(q[i..]) <==> q[i] == '-' && q[i + 1] == '-'
    ensures var n := if OpensDash(q[i..]) then LineLength(q[i + 2..], false) else 0;
            var r := Erase(q, i + 2, n);
            i + 1 < |r| <= |q| && (n == 0 ==> r == q) && DashTo(goal, r, i + 1)
  {
    var s := q[i..];
    var n := if OpensDash(s) then LineLength(q[i + 2..], false) else 0;
    var r := Erase(q, i + 2, n);
    assert s[2..] == q[i + 2..];
    assert n == 0 ==> r == q;
    assert r[i + 1..] == [s[1]] + s[2 + n..];
    assert s[1..] == [s[1]] + s[2..];
    assert r[..i + 1] == q[..i] + [s[0]];
    Regroup(q[..i], s[0], Dash(r[i + 1..]));
  }

  // ---------------------------------------------------------------- the pass as a whole

  function Uncommented(s: string): string {
    Dash(Hash(Cpp(s)))
  }

  method RemoveComments(query: string) returns (r: string)
    requires query != []
    ensures r == Uncommented(query)
    ensures r != []
  {
    r := RemoveCppComment(query);
    r := RemoveHashComment(r);
    r := RemoveDashComment(r);
  }

  // ---------------------------------------------------------------- texts it leaves alone

  /** `head` holds of every non-empty suffix of s. */
  ghost predicate Everywhere(s: string, head: string -> bool) {
    s == [] || (head(s) && Everywhere(s[1..], head))
  }

  /** A block comment that opens here has an empty body, a one-space body, or nothing after it. */
  predicate CppInertAt(s: string) {
    OpensCpp(s) ==> |s| == 2 || StartsWith(s[2..], "*/") || StartsWith(s[2..], " */")
  }

  predicate HashInertAt(s: string) {
    s != [] && s[0] == '#' ==> |s| == 1
  }

  predicate DashInertAt(s: string) {
    OpensDash(s) ==> |s| == 2
  }

  predicate InertAt(s: string) {
    CppInertAt(s) && HashInertAt(s) && DashInertAt(s)
  }

  lemma CppCutFixedIff(s: string)
    requires OpensCpp(s)
    ensures CppCut(s) == s <==> CppInertAt(s)
    ensures Weight(CppCut(s)) <= Weight(s)
    ensures Weight(CppCut(s)) == Weight(s) ==> CppCut(s) == s
  {
    var j := CppStop(s, 2);
    if |s| > 2 && CppInertAt(s) {
      CppStopInert(s);
    }
    if CppEndAt(s, j) {
      BlankedBody(s, j);
    } else if |s| > 2 {
      ErasedBody(s, j);
    } else {
      assert Erase(s, 2, j + 2) == s;
    }
  }

  lemma BlankedBody(s: string, j: nat)
    requires OpensCpp(s) && j == CppStop(s, 2) && CppEndAt(s, j)
    ensures CppCut(s) == s <==> CppInertAt(s)
    ensures Weight(CppCut(s)) <= Weight(s)
    ensures Weight(CppCut(s)) == Weight(s) ==> CppCut(s) == s
  {
    assert s[j..][..2] == "*/";
    if j > 2 {
      var body := s[2..][..j - 2];
      var tail := s[j..];
      assert s == "/*" + body + tail;
      assert CppCut(s) == "/*" + " " + tail;
      BlankWeight(body, tail);
      assert body[0] == s[2];
      if body == " " {
        assert s[2..][..3] == " */";
      }
      if CppInertAt(s) {
        StopAtThree(s);
        assert body == [s[2]];
      }
      if CppCut(s) == s {
        assert |body| == 1 && CppCut(s)[2] == ' ';
        assert body == " ";
      }
    }
  }

  lemma BlankWeight(body: string, tail: string)
    requires body != []
    ensures Weight("/*" + " " + tail) <= Weight("/*" + body + tail)
    ensures Weight("/*" + " " + tail) == Weight("/*" + body + tail) ==> body == " "
  {
    WeightConcat("/*" + body, tail);
    WeightConcat("/*", body);
    WeightConcat("/*" + " ", tail);
    WeightConcat("/*", " ");
    assert Weight(" ") == 1;
    WeightAtLeast(body);
    if |body| == 1 {
      assert body == [body[0]];
      assert Weight(body) == CharWeight(body[0]);
    }
  }

  /** A search that moves on past an inert marker has a one-space body before it. */
  lemma StopAtThree(s: string)
    requires OpensCpp(s) && CppInertAt(s) && CppStop(s, 2) > 2
    ensures CppStop(s, 2) == 3 && s[2] == ' '
  {
    assert StartsWith(s[2..], " */");
    var t := s[2..][..3];
    assert s[2] == t[0] && s[3] == t[1] && s[4] == t[2];
    assert CppStop(s, 2) == CppStop(s, 3) == 3;
  }

  lemma ErasedBody(s: string, j: nat)
    requires |s| > 2 && 2 <= j <= |s|
    ensures var r := Erase(s, 2, j + 2); r != s && Weight(r) < Weight(s)
  {
    WeightDrop(s, 2);
    if j + 4 <= |s| {
      assert s[2..][j + 2..] == s[j + 4..];
      WeightDrop(s[2..], j + 2);
      WeightConcat(s[..2], s[j + 4..]);
    } else {
      WeightAtLeast(s[2..]);
    }
  }

  lemma CppStopInert(s: string)
    requires OpensCpp(s) && (StartsWith(s[2..], "*/") || StartsWith(s[2..], " */"))
    ensures CppEndAt(s, CppStop(s, 2))
  {
    if StartsWith(s[2..], "*/") {
      assert s[2] == s[2..][..2][0] && s[3] == s[2..][..2][1];
    } else {
      var t := s[2..][..3];
      assert s[2] == t[0] && s[3] == t[1] && s[4] == t[2];
      assert CppStop(s, 2) == CppStop(s, 3) == 3;
    }
  }

  lemma {:induction false} CppFixedIff(s: string)
    ensures Cpp(s) == s <==> Everywhere(s, CppInertAt)
    ensures Weight(Cpp(s)) <= Weight(s)
    ensures Weight(Cpp(s)) == Weight(s) ==> Cpp(s) == s
    decreases |s|
  {
    if |s| >= 2 {
      var t := if OpensCpp(s) then CppCut(s) else s;
      if OpensCpp(s) {
        CppCutFixedIff(s);
      }
      CppFixedIff(t[1..]);
      assert Cpp(s)[1..] == Cpp(t[1..]);
      assert t == [t[0]] + t[1..];
    } else if |s| == 1 {
      assert s[1..] == [];
    }
  }

  lemma LineLengthPositive(s: string)
    requires s != []
    ensures LineLength(s, false) > 0
  {
  }

  lemma {:induction false} HashFixedIff(s: string)
    ensures Hash(s) == s <==> Everywhere(s, HashInertAt)
    ensures Weight(Hash(s)) <= Weight(s)
    ensures Weight(Hash(s)) == Weight(s) ==> Hash(s) == s
    decreases |s|
  {
    hide LineLength;
    if s == [] {
    } else {
      var n := if s[0] == '#' then LineLength(s[1..], false) else 0;
      var rest := s[1 + n..];
      HashFixedIff(rest);
      assert rest == s[1..][n..];
      WeightDrop(s[1..], n);
      assert Hash(s) == [s[0]] + Hash(rest);
      assert Hash(s)[1..] == Hash(rest);
      if s[0] == '#' && |s| > 1 {
        LineLengthPositive(s[1..]);
        assert |rest| < |s| - 1;
      } else {
        assert rest == s[1..];
        assert s == [s[0]] + s[1..];
      }
    }
  }

  lemma {:induction false} DashFixedIff(s: string)
    ensures Dash(s) == s <==> Everywhere(s, DashInertAt)
    ensures Weight(Dash(s)) <= Weight(s)
    ensures Weight(Dash(s)) == Weight(s) ==> Dash(s) == s
    decreases |s|
  {
    if |s| >= 2 {
      var n := if OpensDash(s) then LineLength(s[2..], false) else 0;
      var rest := [s[1]] + s[2 + n..];
      assert s[1..] == [s[1]] + s[2..];
      DashFixedIff(rest);
      assert Dash(s) == [s[0]] + Dash(rest);
      assert Dash(s)[1..] == Dash(rest);
      assert rest[1..] == s[2..][n..];
      WeightDrop(s[2..], n);
      assert s[1..][1..] == s[2..];
      assert s == [s[0]] + s[1..];
      if OpensDash(s) && |s| > 2 {
        LineLengthPositive(s[2..]);
      } else {
        assert rest == s[1..];
      }
    } else if |s| == 1 {
      assert s[1..] == [];
    }
  }

  lemma {:induction false} InertIsAllThree(s: string)
    ensures Everywhere(s, InertAt)
       <==> Everywhere(s, CppInertAt) && Everywhere(s, HashInertAt) && Everywhere(s, DashInertAt)
  {
    if s != [] {
      InertIsAllThree(s[1..]);
    }
  }

  /** The comment passes leave a text alone exactly when every marker in it is inert; any other
      text loses weight. */
  lemma UncommentedFixedIff(s: string)
    ensures Uncommented(s) == s <==> Everywhere(s, InertAt)
    ensures Weight(Uncommented(s)) <= Weight(s)
    ensures Weight(Uncommented(s)) == Weight(s) ==> Uncommented(s) == s
    ensures |Uncommented(s)| <= |s|
  {
    InertIsAllThree(s);
    CppFixedIff(s);
    HashFixedIff(Cpp(s));
    DashFixedIff(Hash(Cpp(s)));
  }

  // ---------------------------------------------------------------- markers up to spacing

  predicate AllSpace(s: string) {
    s == [] || (IsSpace(s[0]) && AllSpace(s[1..]))
  }

  /** Nothing but spaces follows, or spaces and then the end of a block comment. */
  predicate Closed(s: string) {
    s == [] || (if IsSpace(s[0]) then Closed(s[1..]) else |s| >= 2 && s[0] == '*' && s[1] == '/')
  }

  /** Inert once runs of spaces have been shortened. */
  predicate LooseAt(s: string) {
    && (s != [] && s[0] == '#' ==> AllSpace(s[1..]))
    && (OpensDash(s) ==> AllSpace(s[2..]))
    && (OpensCpp(s) ==> Closed(s[2..]))
  }

  /** Every comment marker of s is followed by no text of its own. */
  ghost predicate MarkersClosed(s: string) {
    Everywhere(s, LooseAt)
  }

  /** No comment marker of any of the three kinds. */
  predicate NoMarkers(s: string) {
    && (forall i :: 0 <= i < |s| ==> s[i] != '#')
    && (forall i :: 0 <= i < |s| - 1 ==> !(s[i] == '-' && s[i + 1] == '-'))
    && (forall i :: 0 <= i < |s| - 1 ==> !(s[i] == '/' && s[i + 1] == '*'))
  }

  lemma {:induction false} NoMarkersInert(s: string)
    requires NoMarkers(s)
    ensures Everywhere(s, InertAt) && MarkersClosed(s)
  {
    if s != [] {
      assert !OpensDash(s) && !OpensCpp(s);
      NoMarkersInert(s[1..]);
    }
  }

  // ---------------------------------------------------------------- comments in a query

  predicate EolsOnly(s: string) {
    forall i :: 0 <= i < |s| ==> s[i] in "\r\n"
  }

  predicate OneLine(s: string) {
    forall i :: 0 <= i < |s| ==> s[i] !in "\r\n"
  }

  /** A line, all the line ends after it, and what follows them. */
  predicate Line(text: string, eols: string, rest: string) {
    && OneLine(text) && EolsOnly(eols)
    && (rest != [] ==> eols != [] && rest[0] !in "\r\n")
  }

  lemma {:induction false} LineLengthIs(text: string, eols: string, rest: string)
    requires Line(text, eols, rest)
    ensures LineLength(text + (eols + rest), false) == |text| + |eols|
    decreases |text|
  {
    if text == [] {
      assert text + (eols + rest) == eols + rest;
      EolsLength(eols, rest, false);
    } else {
      assert (text + (eols + rest))[1..] == text[1..] + (eols + rest);
      LineLengthIs(text[1..], eols, rest);
    }
  }

  lemma {:induction false} EolsLength(eols: string, rest: string, inEol: bool)
    requires EolsOnly(eols) && (rest != [] ==> (eols != [] || inEol) && rest[0] !in "\r\n")
    ensures LineLength(eols + rest, inEol) == |eols|
    decreases |eols|
  {
    if eols == [] {
      assert eols + rest == rest;
    } else {
      assert (eols + rest)[1..] == eols[1..] + rest;
      EolsLength(eols[1..], rest, true);
    }
  }

  /** Text without a marker's first character is passed by. */
  lemma {:induction false} PastCode(code: string, t: string)
    ensures '#' !in code ==> Hash(code + t) == code + Hash(t)
    ensures '-' !in code ==> Dash(code + t) == code + Dash(t)
    ensures '/' !in code ==> Cpp(code + t) == code + Cpp(t)
    decreases |code|
  {
    if code == [] {
      assert code + t == t && code + Hash(t) == Hash(t) && code + Dash(t) == Dash(t) && code + Cpp(t) == Cpp(t);
    } else {
      assert code[0] in code && code == [code[0]] + code[1..];
      PastCode(code[1..], t);
      OnePast(code[0], code[1..] + t);
      assert code + t == [code[0]] + (code[1..] + t);
      Prepend(code, Hash(t));
      Prepend(code, Dash(t));
      Prepend(code, Cpp(t));
    }
  }

  lemma OnePast(c: char, t: string)
    ensures c != '#' ==> Hash([c] + t) == [c] + Hash(t)
    ensures c != '-' ==> Dash([c] + t) == [c] + Dash(t)
    ensures c != '/' || t == [] || t[0] != '*' ==> Cpp([c] + t) == [c] + Cpp(t)
  {
    assert ([c] + t)[1..] == t;
  }

  /** A '#' takes the rest of its line and the line ends after it, and stays. */
  lemma HashComment(code: string, text: string, eols: string, rest: string)
    requires Line(text, eols, rest) && '#' !in code
    ensures Hash(code + ("#" + (text + (eols + rest)))) == code + ("#" + Hash(rest))
  {
    var tail := text + (eols + rest);
    var t := "#" + tail;
    PastCode(code, t);
    assert t[1..] == tail;
    LineLengthIs(text, eols, rest);
    assert t[1 + |text| + |eols|..] == rest;
  }

  /** Two dashes do the same. */
  lemma DashComment(code: string, text: string, eols: string, rest: string)
    requires Line(text, eols, rest) && '-' !in code && (rest != [] ==> rest[0] != '-')
    ensures Dash(code + ("--" + (text + (eols + rest)))) == code + ("--" + Dash(rest))
  {
    var tail := text + (eols + rest);
    var t := "--" + tail;
    PastCode(code, t);
    assert t[2..] == tail;
    LineLengthIs(text, eols, rest);
    assert t[2 + |text| + |eols|..] == rest;
    assert ("-" + rest)[1..] == rest;
    assert Dash("-" + rest) == "-" + Dash(rest);
    assert "-" + ("-" + Dash(rest)) == "--" + Dash(rest);
  }

  predicate StarAndSlashFree(body: string) {
    '*' !in body && '/' !in body
  }

  /** The search for the end goes past a body without stars and slashes. */
  lemma {:induction false} StopsAfter(s: string, j: nat, n: nat)
    requires j <= n < |s| && (n + 1 < |s| ==> s[n] == '*' || s[n + 1] == '/')
    requires forall i :: j <= i < n ==> s[i] != '*'
    requires forall i :: j < i <= n ==> s[i] != '/'
    ensures CppStop(s, j) == n
    decreases n - j
  {
    if j < n {
      StopsAfter(s, j + 1, n);
    }
  }

  /** What the pass makes of a comment that opens s: a closed one shrinks to a space, one that is never
      closed loses its text; where a star or a slash stands in it, the search stops there, and the text up to
      it is cut together with three more characters, or two. */
  lemma CommentCut(body: string, more: string)
    requires StarAndSlashFree(body)
    ensures CppCut("/*" + (body + ("*/" + more))) == (if body == [] then "/**/" else "/* */") + more
    ensures CppCut("/*" + body) == "/*"
    ensures more != [] && more[0] != '/' ==> CppCut("/*" + (body + ("*" + more))) == "/*" + Drop(more, 3)
    ensures |body| >= 1 ==> CppCut("/*" + (body + ("/" + more))) == "/*" + Drop(more, 2)
  {
    ClosedCut(body, more);
    if body == [] {
      assert "/*" + body == "/*";
      assert CppStop("/*", 2) == 2;
    } else {
      var s := "/*" + body;
      BodyFree(s, body);
      StopsAfter(s, 2, |s| - 1);
    }
    if more != [] && more[0] != '/' {
      LoneStarCut(body, more);
    }
    if |body| >= 1 {
      SlashCut(body, more);
    }
  }

  lemma BodyFree(s: string, body: string)
    requires StarAndSlashFree(body) && StartsWith(s, "/*" + body)
    ensures |s| >= 2 + |body| && OpensCpp(s) && (forall i :: 2 <= i < 2 + |body| ==> s[i] != '*' && s[i] != '/')
  {
    forall i | 2 <= i < 2 + |body| ensures s[i] != '*' && s[i] != '/' {
      assert s[i] == ("/*" + body)[i] == body[i - 2];
      assert body[i - 2] in body;
    }
    assert s[..2 + |body|][0] == '/' && s[..2 + |body|][1] == '*';
  }

  lemma ClosedCut(body: string, more: string)
    requires StarAndSlashFree(body)
    ensures CppCut("/*" + (body + ("*/" + more))) == (if body == [] then "/**/" else "/* */") + more
  {
    var s := "/*" + (body + ("*/" + more));
    var n := 2 + |body|;
    assert s[..n] == "/*" + body;
    assert s[n] == '*' && s[n + 1] == '/' && s[n..] == "*/" + more;
    BodyFree(s, body);
    StopsAfter(s, 2, n);
  }

  lemma LoneStarCut(body: string, more: string)
    requires StarAndSlashFree(body) && more != [] && more[0] != '/'
    ensures CppCut("/*" + (body + ("*" + more))) == "/*" + Drop(more, 3)
  {
    var s := "/*" + (body + ("*" + more));
    var n := 2 + |body|;
    assert s[..n] == "/*" + body;
    assert s[n] == '*' && s[n + 1] == more[0];
    BodyFree(s, body);
    StopsAfter(s, 2, n);
    assert Erase(s, 2, n + 2) == "/*" + Drop(more, 3);
  }

  lemma SlashCut(body: string, more: string)
    requires StarAndSlashFree(body) && body != []
    ensures CppCut("/*" + (body + ("/" + more))) == "/*" + Drop(more, 2)
  {
    var s := "/*" + (body + ("/" + more));
    var n := 1 + |body|;
    assert s[..n + 1] == "/*" + body;
    assert s[n + 1] == '/';
    BodyFree(s, body);
    StopsAfter(s, 2, n);
    assert Erase(s, 2, n + 2) == "/*" + Drop(more, 2);
  }

  /** A closed comment anywhere in a query leaves its markers, with one space between them if it was not
      empty. */
  lemma BlockComment(code: string, body: string, rest: string)
    requires StarAndSlashFree(body) && '/' !in code && (rest != [] ==> rest[0] != '*')
    ensures Cpp(code + ("/*" + (body + ("*/" + rest)))) == code + ((if body == [] then "/**/" else "/* */") + Cpp(rest))
  {
    hide Cpp, CppCut;
    var t := "/*" + (body + ("*/" + rest));
    PastCode(code, t);
    CommentCut(body, rest);
    CommentFirst(t);
    if body == [] {
      MarkerPast("**", rest);
      assert "/" + "**" + "/" == "/**/";
    } else {
      MarkerPast("* *", rest);
      assert "/" + "* *" + "/" == "/* */";
    }
  }

  lemma MarkerPast(mark: string, rest: string)
    requires '/' !in mark
    requires rest != [] ==> rest[0] != '*'
    ensures var cut := "/" + mark + "/";
            (cut + rest)[1..] == mark + ("/" + rest) && "/" + Cpp((cut + rest)[1..]) == cut + Cpp(rest)
  {
    hide Cpp;
    PastCode(mark, "/" + rest);
    OnePast('/', rest);
    Between(mark, rest);
    Between(mark, Cpp(rest));
  }

  lemma Between(mark: string, t: string)
    ensures ("/" + mark + "/" + t)[1..] == mark + ("/" + t)
    ensures "/" + (mark + ("/" + t)) == "/" + mark + "/" + t
  {
  }

  lemma CommentFirst(s: string)
    requires OpensCpp(s)
    ensures Cpp(s) == "/" + Cpp(CppCut(s)[1..])
  {
  }

  /** One that is never closed takes all that follows, as long as no star or slash does. */
  lemma OpenComment(code: string, body: string)
    requires StarAndSlashFree(body) && '/' !in code
    ensures Cpp(code + ("/*" + body)) == code + "/*"
  {
    PastCode(code, "/*" + body);
    CommentCut(body, []);
    CommentFirst("/*" + body);
    assert "/*"[1..] == "*" && Cpp("*") == "*";
  }

  /** The order of the passes shows where one comment's marker stands in another comment: a '#' in a block
      comment opens nothing, and one behind two dashes hides the end of their line from them. */
  lemma PassOrder()
    ensures Uncommented("/*#*/x") == "/* */x"
    ensures Uncommented("--#\nx") == "--"
  {
    hide Cpp, Hash, Dash;
    BlockThenHash("/*#*/x", "/* */x");
    HashThenDash("--#\nx");
  }

  lemma BlockThenHash(s: string, r: string)
    requires s == "/*#*/x" && r == "/* */x"
    ensures Cpp(s) == r && Hash(r) == r && Dash(r) == r
  {
    hide Cpp, Hash, Dash;
    BlockComment("", "#", "x");
    assert "" + ("/*" + ("#" + ("*/" + "x"))) == s;
    Unmarked("x");
    Unmarked(r);
  }

  lemma HashThenDash(s: string)
    requires s == "--#\nx"
    ensures Cpp(s) == s && Hash(s) == "--#x" && Dash("--#x") == "--"
  {
    hide Cpp, Hash, Dash;
    Unmarked(s);
    Unmarked("x");
    HashComment("--", "", "\n", "x");
    assert "--" + ("#" + ("" + ("\n" + "x"))) == s;
    DashComment("", "#x", "", "");
    assert "" + ("--" + ("#x" + ("" + ""))) == "--#x";
    Unmarked("");
  }

  lemma Unmarked(s: string)
    ensures '#' !in s ==> Hash(s) == s
    ensures '-' !in s ==> Dash(s) == s
    ensures '/' !in s ==> Cpp(s) == s
  {
    PastCode(s, "");
    assert s + "" == s;
  }
}
