/** normalizeQuery of src/normalization.cpp: the pattern that the whitelist is keyed on. */
module Normalize {
  import opened Text
  import opened Literals
  import opened Comments
  import opened Numbers
  import opened Spaces
  import opened Negatives

  /** The text once its literals and comments are gone. */
  function Skimmed(q: string): string {
    Uncommented(Strip(q, false))
  }

  function Normalise(q: string): string {
    Unsigned([], Respaced(Unnumbered(Skimmed(q))))
  }

  method NormalizeQuery(query: string) returns (r: string)
    requires query != []
    ensures r == Normalise(query)
    ensures |r| <= |query|
  {
    r := RemoveQuotedText(query);
    r := RemoveComments(r);
    r := RemoveNumbers(r);
    r := RemoveSpaces(r);
    r := FixNegativeNumbers(r);
    NormaliseShrinks(query);
  }

  lemma NormaliseShrinks(q: string)
    ensures |Normalise(q)| <= |q|
  {
    UncommentedFixedIff(Strip(q, false));
  }

  // ---------------------------------------------------------------- the shape of a pattern

  /** Every query's pattern, comments or not: plain single spaces, none next to a bracket or comma
      or at the end; no digit after a character that precedes numbers; no droppable sign. */
  lemma PatternShape(q: string)
    ensures var p := Normalise(q);
            && Tidy(p) && NoNumbers(p) && SignFree([], p)
            && (forall i :: 0 <= i < |p| ==> p[i] !in "\t\n\U{0B}\U{0C}\r\U{A0}")
            && (forall i :: 0 <= i < |p| - 1 ==> [p[i], p[i + 1]] !in {"  ", " )", " ,", "( ", ", "})
            && (p != [] ==> p[|p| - 1] != ' ')
            && (forall i :: 1 <= i < |p| && p[i - 1] in ",!(+-*/=~<>^%|& " ==> p[i] !in "0123456789")
  {
    var n := Unnumbered(Skimmed(q));
    var s := Respaced(n);
    var p := Normalise(q);
    UnnumberedFixedIff(Skimmed(q));
    RespacedKeeps(n);
    RespacedIsTidy(n);
    StartFree(s);
    UnsignedKeepsNumberFree([], 'a', s);
    StartFree(p);
    UnsignedKeepsSpaced([], s);
    if s != [] {
      UnsignedKeepsEnd([], s);
    }
    UnsignedIsSignFree([], s);
    PatternCharacters(p);
  }

  lemma PatternCharacters(p: string)
    requires Tidy(p) && NoNumbers(p)
    ensures forall i :: 0 <= i < |p| ==> p[i] !in "\t\n\U{0B}\U{0C}\r\U{A0}"
    ensures forall i :: 0 <= i < |p| - 1 ==> [p[i], p[i + 1]] !in {"  ", " )", " ,", "( ", ", "}
    ensures forall i :: 1 <= i < |p| && p[i - 1] in ",!(+-*/=~<>^%|& " ==> p[i] !in "0123456789"
  {
    TidyMeans(p);
    NoNumbersMeans(p);
    forall i | 1 <= i < |p| && p[i - 1] in ",!(+-*/=~<>^%|& " ensures p[i] !in "0123456789" {
      DelimitersAre(p[i - 1]);
      DigitsAre(p[i]);
    }
  }

  // ---------------------------------------------------------------- fixed points

  /** What a text must look like for every pass to leave it alone. */
  ghost predicate NormalForm(p: string) {
    QuoteClean(p, false) && Everywhere(p, InertAt) && NoNumbers(p) && Tidy(p) && SignFree([], p)
  }

  /** The fixed points of normalisation are exactly the texts in normal form: no pass can undo
      what another one did, since each of them either keeps its text or makes it lighter. */
  lemma FixedPointIff(p: string)
    ensures Normalise(p) == p <==> NormalForm(p)
  {
    var a := Strip(p, false);
    var b := Uncommented(a);
    var c := Unnumbered(b);
    var d := Respaced(c);
    StripFixedIff(p, false);
    UncommentedFixedIff(a);
    UnnumberedFixedIff(b);
    RespacedFixedIff(c);
    UnsignedFixedIff([], d);
    if Normalise(p) == p {
      assert Weight(p) == Weight(a) == Weight(b) == Weight(c) == Weight(d);
    }
  }

  /** The last three passes neither open nor close a literal or a comment. */
  lemma LaterPassesKeep(t: string)
    ensures var p := Unsigned([], Respaced(Unnumbered(t)));
            && (QuoteClean(p, false) <==> QuoteClean(t, false))
            && (MarkersClosed(p) <==> MarkersClosed(t))
  {
    var n := Unnumbered(t);
    var s := Respaced(n);
    UnnumberedKeeps(t);
    RespacedKeeps(n);
    UnsignedKeeps([], s, false);
    UnsignedKeepsMarkers([], s);
  }

  /** Normalisation is idempotent at q exactly when the comment passes left no opening quote behind
      and no comment marker with text after it.  The program can normalise a pattern again only where it is
      not empty. */
  lemma {:induction false} IdempotentIff(q: string)
    ensures Normalise(Normalise(q)) == Normalise(q)
       <==> QuoteClean(Skimmed(q), false) && MarkersClosed(Skimmed(q))
  {
    var p := Normalise(q);
    FixedPointIff(p);
    PatternShape(q);
    LaterPassesKeep(Skimmed(q));
    TidyMarkers(p);
  }

  /** In particular at every query without comment markers outside its literals. */
  lemma {:induction false} IdempotentWithoutComments(q: string)
    requires NoMarkers(Strip(q, false))
    ensures Normalise(Normalise(q)) == Normalise(q)
  {
    NoMarkersInert(Strip(q, false));
    UncommentedFixedIff(Strip(q, false));
    StripIsClean(q, false);
    IdempotentIff(q);
  }

  /** With comments it need not be: the second '#' comment is joined to the first marker. */
  lemma {:induction false} NotIdempotentWithComments()
    ensures Normalise("#\n#\nc") == "##c"
    ensures Normalise("##c") == "#"
  {
    hide Normalise, Hash;
    HashTwice();
    OnlyHash("#\n#\nc", "##c");
    OnlyHash("##c", "#");
  }

  lemma HashTwice()
    ensures Hash("#\n#\nc") == "##c" && Hash("##c") == "#"
  {
    assert "#\n#\nc"[1..] == "\n#\nc";
    assert "\n#\nc"[1..] == "#\nc" && "#\nc"[1..] == "\nc" && "\nc"[1..] == "c" && "c"[1..] == "";
    assert LineLength("#\nc", true) == 0;
    assert LineLength("\n#\nc", false) == 1;
    assert "#\n#\nc"[2..] == "#\nc";
    assert LineLength("c", true) == 0;
    assert LineLength("\nc", false) == 1;
    assert "#\nc"[2..] == "c";
    assert Hash("c") == "c";
    assert Hash("#\nc") == "#" + Hash("c");
    assert "##c"[1..] == "#c" && "#c"[1..] == "c";
    assert LineLength("c", false) == 1;
    assert LineLength("#c", false) == 2;
    assert "##c"[3..] == "";
  }

  /** On text that only the '#' pass can change, with nothing left for the later passes. */
  lemma {:induction false} OnlyHash(q: string, h: string)
    requires h == Hash(q)
    requires forall i :: 0 <= i < |q| ==> !IsQuote(q[i]) && q[i] != '/'
    requires forall i :: 0 <= i < |h| ==> h[i] != '-' && !IsDigit(h[i]) && !IsSpace(h[i]) && !IsBreak(h[i])
    ensures Normalise(q) == h
  {
    QuoteCleanMeans(q);
    StripFixedIff(q, false);
    NoCppMarker(q);
    CppFixedIff(q);
    DashNone(h);
    NothingLater(h);
  }

  lemma {:induction false} NoCppMarker(s: string)
    requires forall i :: 0 <= i < |s| ==> s[i] != '/'
    ensures Everywhere(s, CppInertAt)
  {
    if s != [] {
      NoCppMarker(s[1..]);
    }
  }

  lemma {:induction false} DashNone(s: string)
    requires forall i :: 0 <= i < |s| ==> s[i] != '-'
    ensures Dash(s) == s
  {
    if |s| >= 2 {
      DashNone(s[1..]);
      assert s == [s[0]] + s[1..];
    }
  }

  // ---------------------------------------------------------------- abstraction

  /** Queries that differ only in what their literals hold have the same pattern. */
  lemma {:induction false} LiteralAbstraction(k: Skeleton, b1: seq<seq<Item>>, b2: seq<seq<Item>>)
    requires ValidSkeleton(k) && ValidBodies(k, b1) && ValidBodies(k, b2)
    ensures Normalise(Render(k, b1)) == Normalise(Render(k, b2))
  {
    StripRendered(k, b1);
    StripRendered(k, b2);
  }

  /** Texts that differ only in their numbers come out of the number pass the same. */
  lemma {:induction false} NumberAbstraction(k: NumberSkeleton, n1: seq<Number>, n2: seq<Number>)
    requires ValidHoles(k) && Fits(k, n1) && Fits(k, n2)
    ensures Unnumbered(Fill(k, n1)) == Unnumbered(Fill(k, n2))
  {
    UnnumberedFromStart(k, n1);
    UnnumberedFromStart(k, n2);
  }

  lemma UnnumberedFromStart(k: NumberSkeleton, nums: seq<Number>)
    requires ValidHoles(k) && Fits(k, nums)
    ensures Unnumbered(Fill(k, nums)) == HolePattern('a', k)
  {
    // The first character is kept, as after a character that precedes no number.
    var s := Fill(k, nums);
    assert Unnumbered(s) == Renumber('a', s);
    RenumberFilled('a', k, nums);
  }

  /** In a query without quotes and comment markers, any number after a delimiter may as well be a '?'. */
  lemma NumberInQuery(p: string, n: Number, t: string)
    requires p != [] && p[|p| - 1] in ",!(+-*/=~<>^%|& \t\n\U{0B}\U{0C}\r\U{A0}"
    requires ValidNumber(n) && EndsBefore(n, t)
    requires NoMarkers(p + ("?" + t)) && forall c :: c in p + t ==> c !in "'\""
    ensures Normalise(p + (NumberText(n) + t)) == Normalise(p + ("?" + t))
  {
    hide Renumber, NumberText, ValidNumber, EndsBefore, Strip, Uncommented, Unsigned, Respaced, NumberLength;
    var num := NumberText(n);
    var q, r := p + (num + t), p + ("?" + t);
    NumberIsWhole(n, t);
    NumberChars(num + t);
    assert forall i :: 0 <= i < |num| ==> IsNumberChar((num + t)[i]);
    NoMarkersAround(p, num, t);
    PlainSkimmed(q);
    PlainSkimmed(r);
    NumberGoes(p, n, t);
    DelimitersAre(p[|p| - 1]);
    RenumberAppend('a', p, "?" + t);
    AfterFirst(p);
    AfterFirst(r);
    AfterFirst("?" + t);
    FirstStays(p[|p| - 1], "?" + t);
  }

  lemma NoMarkersAround(p: string, num: string, t: string)
    requires num != [] && forall i :: 0 <= i < |num| ==> IsNumberChar((num + t)[i])
    requires NoMarkers(p + ("?" + t)) && forall c :: c in p + t ==> c !in "'\""
    ensures NoMarkers(p + (num + t)) && forall i :: 0 <= i < |p + (num + t)| ==> (p + (num + t))[i] !in "'\""
    ensures forall i :: 0 <= i < |p + ("?" + t)| ==> (p + ("?" + t))[i] !in "'\""
  {
    var q, r := p + (num + t), p + ("?" + t);
    forall i | 0 <= i < |q| ensures q[i] != '#' && q[i] !in "'\"" {
      Around(p, num, t, i);
    }
    forall i | 0 <= i < |q| - 1 ensures !(q[i] == '-' && q[i + 1] == '-') && !(q[i] == '/' && q[i + 1] == '*') {
      Around(p, num, t, i);
      Around(p, num, t, i + 1);
    }
    forall i | 0 <= i < |r| ensures r[i] !in "'\"" {
      Around(p, "?", t, i);
    }
  }

  /** Which character of the parts stands at i. */
  lemma Around(p: string, num: string, t: string, i: nat)
    requires i < |p + (num + t)| && num != []
    ensures var q, r := p + (num + t), p + ("?" + t);
            && (i < |p| ==> q[i] == r[i] && q[i] in p + t)
            && (|p| <= i < |p| + |num| ==> q[i] == (num + t)[i - |p|] == num[i - |p|])
            && (|p| + |num| <= i ==> i - |num| + 1 < |r| && q[i] == r[i - |num| + 1] && q[i] in p + t)
  {
    var q := p + (num + t);
    if i < |p| {
      assert q[i] == (p + t)[i];
    } else if |p| + |num| <= i {
      assert q[i] == (p + t)[i - |num|];
    }
  }

  lemma PlainSkimmed(q: string)
    requires NoMarkers(q) && forall i :: 0 <= i < |q| ==> q[i] !in "'\""
    ensures Skimmed(q) == q
  {
    hide Strip, Uncommented;
    forall i | 0 <= i < |q| ensures !IsQuote(q[i]) {
      QuotesAre(q[i]);
    }
    QuoteCleanMeans(q);
    StripFixedIff(q, false);
    NoMarkersInert(q);
    UncommentedFixedIff(q);
  }

  /** So any two queries for one row by its number have one pattern. */
  lemma WhereId(n: Number)
    requires ValidNumber(n)
    ensures Normalise("where id=" + NumberText(n)) == "where id=?"
  {
    hide NumberText, ValidNumber, Normalise, NormalForm;
    var p := "where id=";
    assert NumberText(n) + [] == NumberText(n) && p + ("?" + []) == "where id=?" && p + [] == p;
    assert p[|p| - 1] == '=';
    WhereIdForm();
    NumberInQuery(p, n, []);
    FixedPointIff("where id=?");
  }

  lemma WhereIdForm()
    ensures NoMarkers("where id=?") && NormalForm("where id=?")
  {
    hide QuoteClean, Everywhere, NoNumbers, Tidy, SignFree, MarkersClosed;
    WhereIdPlain("where id=?");
    WhereIdTidy("where id=?");
    WhereIdSigns();
  }

  lemma WhereIdPlain(r: string)
    requires r == "where id=?"
    ensures NoMarkers(r) && QuoteClean(r, false) && Everywhere(r, InertAt) && NoNumbers(r)
  {
    hide QuoteClean, Everywhere, NumberFree, MarkersClosed, InertAt, NoNumbers, BehindBackslash;
    NoMarkersInert(r);
    QuoteCleanMeans(r);
    NoNumbersMeans(r);
  }

  lemma WhereIdTidy(r: string)
    requires r == "where id=?"
    ensures Tidy(r)
  {
    hide Spaced;
    SpacedMeans(r);
  }

  lemma WhereIdSigns()
    ensures SignFree([], "where id=?")
  {
    hide Unsigned, SignFree;
    assert "where id=?" == ("where" + [' ']) + "id=?";
    NoSignRule("where", ' ', "id=?");
    NoSignRule("id=?", ' ', []);
    UnsignedFixedIff([], "where id=?");
  }

  /** Queries that differ only in the contents of their literals and in their numbers have the same
      pattern, as long as they hold no comments. */
  lemma {:induction false} SamePattern(k1: Skeleton, b1: seq<seq<Item>>, n1: seq<Number>,
                    k2: Skeleton, b2: seq<seq<Item>>, n2: seq<Number>, h: NumberSkeleton)
    requires ValidSkeleton(k1) && ValidBodies(k1, b1) && ValidSkeleton(k2) && ValidBodies(k2, b2)
    requires ValidHoles(h) && Fits(h, n1) && Fits(h, n2)
    requires PatternOf(k1) == Fill(h, n1) && PatternOf(k2) == Fill(h, n2)
    requires Everywhere(PatternOf(k1), InertAt) && Everywhere(PatternOf(k2), InertAt)
    ensures Normalise(Render(k1, b1)) == Normalise(Render(k2, b2))
  {
    StripRendered(k1, b1);
    StripRendered(k2, b2);
    UncommentedFixedIff(PatternOf(k1));
    UncommentedFixedIff(PatternOf(k2));
    NumberAbstraction(h, n1, n2);
  }

  /** A pattern without a backslash holds no quote, so that it can be put between quotes as it is,
      exactly when the comment passes left no opening quote behind. */
  lemma PatternIsQuotable(q: string)
    ensures '\\' !in Normalise(q) ==>
              ((forall c :: c in Normalise(q) ==> !IsQuote(c)) <==> QuoteClean(Skimmed(q), false))
  {
    var p := Normalise(q);
    LaterPassesKeep(Skimmed(q));
    if QuoteClean(p, false) && '\\' !in p {
      CleanWithoutBackslash(p);
    }
    if forall c :: c in p ==> !IsQuote(c) {
      forall i | 0 <= i < |p| ensures !IsQuote(p[i]) {
        assert p[i] in p;
      }
      QuoteCleanMeans(p);
    }
  }

  /** They can: where a block comment's search stops early, four characters are cut, and with them the
      backslash before a quote. */
  lemma QuoteLeftByComment()
    ensures Normalise("/*a/b\\'c") == "/*'c" && !QuoteClean(Skimmed("/*a/b\\'c"), false)
  {
    hide Normalise, Skimmed, Strip, Cpp, QuoteClean;
    var q, p := "/*a/b\\'c", "/*'c";
    EscapedQuote(q);
    EarlyStop(q, p);
    AloneWithMarker(q, p);
    PatternIsQuotable(q);
    assert p[2] in p;
  }

  lemma EscapedQuote(q: string)
    requires q == "/*a/b\\'c"
    ensures Strip(q, false) == q
  {
    hide Strip, QuoteClean;
    assert BehindBackslash(q, 6) by {
      assert !BehindBackslash(q, 5);
    }
    QuoteCleanMeans(q);
    StripFixedIff(q, false);
  }

  lemma EarlyStop(q: string, p: string)
    requires q == "/*a/b\\'c" && p == "/*'c"
    ensures Cpp(q) == p
  {
    assert CppStop(q, 2) == 2;
    assert CppCut(q) == p;
    NoCppMarker(p[1..]);
    CppFixedIff(p[1..]);
    assert p == [p[0]] + p[1..];
  }

  /** On text that only the block-comment pass can change, with nothing left for the later passes. */
  lemma AloneWithMarker(q: string, p: string)
    requires Strip(q, false) == q && Cpp(q) == p
    requires forall i :: 0 <= i < |p| ==>
               p[i] != '-' && p[i] != '#' && !IsDigit(p[i]) && !IsSpace(p[i]) && !IsBreak(p[i])
    ensures Normalise(q) == p && Skimmed(q) == p
  {
    NoHashMarker(p);
    HashFixedIff(p);
    DashNone(p);
    NothingLater(p);
  }

  lemma {:induction false} NoHashMarker(s: string)
    requires forall i :: 0 <= i < |s| ==> s[i] != '#'
    ensures Everywhere(s, HashInertAt)
  {
    if s != [] {
      NoHashMarker(s[1..]);
    }
  }

  /** Text without spaces, digits and breaks is left alone by the last three passes. */
  lemma NothingLater(p: string)
    requires forall i :: 0 <= i < |p| ==> !IsDigit(p[i]) && !IsSpace(p[i]) && !IsBreak(p[i])
    ensures Unsigned([], Respaced(Unnumbered(p))) == p
  {
    NoNumbersMeans(p);
    UnnumberedFixedIff(p);
    SpacedMeans(p);
    RespacedFixedIff(p);
    UnsignedToken([], p);
  }
}
