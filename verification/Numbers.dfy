/** removeNumbers of src/normalization.cpp: numbers become '?'. */
module Numbers {
  import opened Sequences
  import opened Text
  import opened Literals
  import opened Comments

  /** The characters that may come right before a number. */
  predicate PrecedesNumber(c: char) {
    c == ',' || c == '!' || c == '(' || IsSpace(c) || c == '+' || c == '-' || c == '*' || c == '/'
    || c == '=' || c == '~' || c == '<' || c == '>' || c == '^' || c == '%' || c == '|' || c == '&'
  }

  lemma DelimitersAre(c: char)
    ensures PrecedesNumber(c) <==> c in ",!(+-*/=~<>^%|& \t\n\U{0B}\U{0C}\r\U{A0}"
  {
    SpacesAre(c);
  }

  predicate IsHexDigit(c: char) {
    IsDigit(c) || 'a' <= c <= 'f'
  }

  lemma HexDigitsAre(c: char)
    ensures IsHexDigit(c) <==> c in "0123456789abcdef"
  {
    DigitsAre(c);
    if 'a' <= c <= 'f' {
      assert c == "0123456789abcdef"[10 + (c - 'a') as int];
    }
  }

  function DigitRun(s: string): (n: nat)
    ensures n <= |s|
    ensures forall i :: 0 <= i < n ==> IsDigit(s[i])
    ensures n < |s| ==> !IsDigit(s[n])
  {
    if s != [] && IsDigit(s[0]) then 1 + DigitRun(s[1..]) else 0
  }

  function HexRun(s: string): (n: nat)
    ensures n <= |s|
    ensures forall i :: 0 <= i < n ==> IsHexDigit(s[i])
    ensures n < |s| ==> !IsHexDigit(s[n])
  {
    if s != [] && IsHexDigit(s[0]) then 1 + HexRun(s[1..]) else 0
  }

  predicate OpensHex(s: string) {
    |s| > 1 && s[0] == '0' && (s[1] == 'x' || s[1] == 'X')
  }

  /** Length of the number that s starts with. */
  function NumberLength(s: string): (n: nat)
    requires s != [] && IsDigit(s[0])
    ensures 0 < n <= |s|
  {
    if OpensHex(s) then 2 + HexRun(s[2..])
    else
      var n := 1 + DigitRun(s[1..]);
      if n < |s| && s[n] == '.' then n + 1 + DigitRun(s[n + 1..]) else n
  }

  /** The text `s`, coming after the character `prev`, with its numbers replaced. */
  function Renumber(prev: char, s: string): (r: string)
    ensures |r| <= |s|
    decreases |s|
  {
    if s == [] then []
    else if PrecedesNumber(prev) && IsDigit(s[0]) then "?" + Renumber('?', s[NumberLength(s)..])
    else [s[0]] + Renumber(s[0], s[1..])
  }

  /** A number at the very start of the query is left alone. */
  function Unnumbered(s: string): (r: string)
    ensures |r| <= |s|
  {
    if s == [] then [] else [s[0]] + Renumber(s[0], s[1..])
  }

  method RemoveNumbers(query: string) returns (r: string)
    ensures r == Unnumbered(query)
  {
    r := query;
    if |r| > 0 {
      assert r == r[..1] + r[1..] && r[..1] == [r[0]];
    }
    var i := 1;
    while i < |r|
      invariant r == [] <==> query == []
      invariant r != [] ==> Done(Unnumbered(query), r, i)
      decreases |r| - i
    {
      if (r[i - 1] == ',' || r[i - 1] == '!' || r[i - 1] == '(' || IsSpace(r[i - 1])
          || r[i - 1] == '+' || r[i - 1] == '-' || r[i - 1] == '*' || r[i - 1] == '/'
          || r[i - 1] == '=' || r[i - 1] == '~' || r[i - 1] == '<' || r[i - 1] == '>'
          || r[i - 1] == '^' || r[i - 1] == '%' || r[i - 1] == '|' || r[i - 1] == '&')
         && r[i] >= '0' && r[i] <= '9'
      {
        NumberStep(Unnumbered(query), r, i);
        r := ReplaceNumber(r, i);
      } else {
        OtherStep(Unnumbered(query), r, i);
      }
      i := i + 1;
    }
    if r != [] {
      assert r == r[..i] + r[i..];
    }
  }

  /** The body of the branch: find the end of the number at i and put '?' in its place. */
  method ReplaceNumber(query: string, i: nat) returns (r: string)
    requires i < |query| && IsDigit(query[i])
    ensures r == Erase(query[i := '?'], i + 1, NumberLength(query[i..]) - 1)
  {
    var j := NumberEnd(query, i);
    r := query[i := '?'];
    if j != i + 1 {
      r := Erase(r, i + 1, j - i - 1);
    } else {
      assert Erase(r, i + 1, 0) == r;
    }
  }

  method NumberEnd(query: string, i: nat) returns (j: nat)
    requires i < |query| && IsDigit(query[i])
    ensures j == i + NumberLength(query[i..])
  {
    NumberEnds(query, i);
    if query[i] == '0' && i + 1 < |query| {
      if query[i + 1] == 'x' || query[i + 1] == 'X' {
        j := SkipHexDigits(query, i + 2);
        return;
      }
    }
    j := SkipDigits(query, i + 1);
    if j < |query| && query[j] == '.' {
      j := SkipDigits(query, j + 1);
    }
  }

  /** The first i characters of r are final and the pass goes on after them. */
  ghost predicate Done(goal: string, r: string, i: nat) {
    1 <= i <= |r| && goal == r[..i] + Renumber(r[i - 1], r[i..])
  }

  method SkipDigits(q: string, start: nat) returns (j: nat)
    requires start <= |q|
    ensures start <= j <= |q| && j == start + DigitRun(q[start..])
  {
    j := start;
    while j < |q| && q[j] >= '0' && q[j] <= '9'
      invariant start <= j <= |q|
      invariant start + DigitRun(q[start..]) == j + DigitRun(q[j..])
    {
      assert q[j..][1..] == q[j + 1..];
      j := j + 1;
    }
  }

  method SkipHexDigits(q: string, start: nat) returns (j: nat)
    requires start <= |q|
    ensures start <= j <= |q| && j == start + HexRun(q[start..])
  {
    j := start;
    while j < |q| && ((q[j] >= '0' && q[j] <= '9') || (q[j] >= 'a' && q[j] <= 'f'))
      invariant start <= j <= |q|
      invariant start + HexRun(q[start..]) == j + HexRun(q[j..])
    {
      assert q[j..][1..] == q[j + 1..];
      j := j + 1;
    }
  }

  /** The pass's loops stop at the end of the number at i. */
  lemma NumberEnds(q: string, i: nat)
    requires i < |q| && IsDigit(q[i])
    ensures OpensHex(q[i..]) <==> q[i] == '0' && i + 1 < |q| && (q[i + 1] == 'x' || q[i + 1] == 'X')
    ensures OpensHex(q[i..]) ==> i + NumberLength(q[i..]) == i + 2 + HexRun(q[i + 2..])
    ensures !OpensHex(q[i..]) ==>
              var k := i + 1 + DigitRun(q[i + 1..]);
              i + NumberLength(q[i..]) == if k < |q| && q[k] == '.' then k + 1 + DigitRun(q[k + 1..]) else k
  {
    var s := q[i..];
    assert s[1..] == q[i + 1..];
    if OpensHex(s) {
      assert s[2..] == q[i + 2..];
    } else {
      var k := 1 + DigitRun(s[1..]);
      assert k < |s| ==> s[k + 1..] == q[i + k + 1..];
    }
  }

  lemma {:induction false} NumberStep(goal: string, q: string, i: nat)
    requires i < |q| && Done(goal, q, i) && PrecedesNumber(q[i - 1]) && IsDigit(q[i])
    ensures var n := NumberLength(q[i..]);
            var r := Erase(q[i := '?'], i + 1, n - 1);
            |r| <= |q| && (n == 1 ==> r == q[i := '?']) && Done(goal, r, i + 1)
  {
    var n := NumberLength(q[i..]);
    var r := Erase(q[i := '?'], i + 1, n - 1);
    assert r[..i + 1] == q[..i] + "?";
    assert r[i + 1..] == q[i..][n..];
    Regroup(q[..i], '?', Renumber('?', r[i + 1..]));
  }

  lemma OtherStep(goal: string, q: string, i: nat)
    requires i < |q| && Done(goal, q, i) && !(PrecedesNumber(q[i - 1]) && IsDigit(q[i]))
    ensures Done(goal, q, i + 1)
  {
    assert q[i..][1..] == q[i + 1..];
    assert q[..i + 1] == q[..i] + [q[i]];
    Regroup(q[..i], q[i], Renumber(q[i], q[i + 1..]));
  }

  // ---------------------------------------------------------------- number-free texts

  /** No digit of s comes right after a character that precedes numbers. */
  predicate NumberFree(prev: char, s: string)
    decreases |s|
  {
    s == [] || (!(PrecedesNumber(prev) && IsDigit(s[0])) && NumberFree(s[0], s[1..]))
  }

  predicate NoNumbers(q: string) {
    q == [] || NumberFree(q[0], q[1..])
  }

  lemma {:induction false} NoNumbersMeans(q: string)
    ensures NoNumbers(q) <==> forall i :: 1 <= i < |q| ==> !(PrecedesNumber(q[i - 1]) && IsDigit(q[i]))
  {
    if q != [] {
      NumberFreeFrom(q, 1);
    }
  }

  lemma {:induction false} NumberFreeFrom(q: string, k: nat)
    requires 1 <= k <= |q|
    ensures NumberFree(q[k - 1], q[k..])
       <==> forall i :: k <= i < |q| ==> !(PrecedesNumber(q[i - 1]) && IsDigit(q[i]))
    decreases |q| - k
  {
    if k < |q| {
      assert q[k..][1..] == q[k + 1..];
      NumberFreeFrom(q, k + 1);
    }
  }

  lemma {:induction false} RenumberIsFree(prev: char, s: string)
    ensures NumberFree(prev, Renumber(prev, s))
    decreases |s|
  {
    if s == [] {
    } else if PrecedesNumber(prev) && IsDigit(s[0]) {
      var rest := s[NumberLength(s)..];
      RenumberIsFree('?', rest);
      assert Renumber(prev, s)[1..] == Renumber('?', rest);
    } else {
      RenumberIsFree(s[0], s[1..]);
      assert Renumber(prev, s)[1..] == Renumber(s[0], s[1..]);
    }
  }

  lemma {:induction false} RenumberFixedIff(prev: char, s: string)
    ensures Renumber(prev, s) == s <==> NumberFree(prev, s)
    ensures Weight(Renumber(prev, s)) <= Weight(s)
    ensures Weight(Renumber(prev, s)) == Weight(s) ==> Renumber(prev, s) == s
    decreases |s|
  {
    if s == [] {
    } else if PrecedesNumber(prev) && IsDigit(s[0]) {
      var n := NumberLength(s);
      RenumberFixedIff('?', s[n..]);
      assert Renumber(prev, s)[1..] == Renumber('?', s[n..]);
      WeightDrop(s, n);
      assert s[..n][1..] == s[1..n];
      WeightAtLeast(s[1..n]);
    } else {
      RenumberFixedIff(s[0], s[1..]);
      assert Renumber(prev, s)[1..] == Renumber(s[0], s[1..]);
      assert s == [s[0]] + s[1..];
    }
  }

  lemma UnnumberedFixedIff(s: string)
    ensures Unnumbered(s) == s <==> NoNumbers(s)
    ensures Weight(Unnumbered(s)) <= Weight(s)
    ensures Weight(Unnumbered(s)) == Weight(s) ==> Unnumbered(s) == s
    ensures NoNumbers(Unnumbered(s))
  {
    if s != [] {
      var r := Unnumbered(s);
      assert r[1..] == Renumber(s[0], s[1..]);
      assert s == [s[0]] + s[1..];
      RenumberFixedIff(s[0], s[1..]);
      RenumberIsFree(s[0], s[1..]);
    }
  }

  // ---------------------------------------------------------------- what the pass keeps

  predicate IsNumberChar(c: char) {
    IsHexDigit(c) || c == '.' || c == 'x' || c == 'X'
  }

  lemma NumberChars(s: string)
    requires s != [] && IsDigit(s[0])
    ensures forall i :: 0 <= i < NumberLength(s) ==> IsNumberChar(s[i])
  {
    if OpensHex(s) {
      forall i | 2 <= i < NumberLength(s) ensures IsHexDigit(s[i]) {
        assert s[i] == s[2..][i - 2];
      }
    } else {
      var n := 1 + DigitRun(s[1..]);
      forall i | 1 <= i < n ensures IsDigit(s[i]) {
        assert s[i] == s[1..][i - 1];
      }
      forall i | n < i < NumberLength(s) ensures IsDigit(s[i]) {
        assert s[i] == s[n + 1..][i - n - 1];
      }
    }
  }

  lemma {:induction false} CleanPastPlain(s: string, n: nat, escaped: bool)
    requires 0 < n <= |s|
    requires forall i :: 0 <= i < n ==> IsNumberChar(s[i])
    ensures QuoteClean(s, escaped) <==> QuoteClean(s[n..], false)
    decreases n
  {
    if n > 1 {
      assert s[1..][n - 1..] == s[n..];
      CleanPastPlain(s[1..], n - 1, false);
    }
  }

  lemma {:induction false} RenumberKeepsClean(prev: char, s: string, escaped: bool)
    ensures QuoteClean(Renumber(prev, s), escaped) <==> QuoteClean(s, escaped)
    decreases |s|
  {
    if s == [] {
    } else if PrecedesNumber(prev) && IsDigit(s[0]) {
      var n := NumberLength(s);
      RenumberKeepsClean('?', s[n..], false);
      assert Renumber(prev, s)[1..] == Renumber('?', s[n..]);
      NumberChars(s);
      CleanPastPlain(s, n, escaped);
    } else {
      RenumberKeepsClean(s[0], s[1..], !escaped && s[0] == '\\');
      assert Renumber(prev, s)[1..] == Renumber(s[0], s[1..]);
    }
  }

  /** No comment marker starts inside a number. */
  lemma {:induction false} MarkersPastPlain(s: string, n: nat)
    requires n <= |s|
    requires forall i :: 0 <= i < n ==> IsNumberChar(s[i])
    ensures MarkersClosed(s) <==> MarkersClosed(s[n..])
  {
    if n > 0 {
      assert s[1..][n - 1..] == s[n..];
      MarkersPastPlain(s[1..], n - 1);
      assert LooseAt(s);
    }
  }

  lemma {:induction false} RenumberKeepsSpace(prev: char, s: string)
    ensures AllSpace(Renumber(prev, s)) <==> AllSpace(s)
    ensures Closed(Renumber(prev, s)) <==> Closed(s)
    decreases |s|
  {
    if s != [] && !(PrecedesNumber(prev) && IsDigit(s[0])) {
      RenumberKeepsSpace(s[0], s[1..]);
      var r := Renumber(prev, s);
      assert r[0] == s[0] && r[1..] == Renumber(s[0], s[1..]);
      RenumberSecond(s[0], s[1..], '/');
    }
  }

  lemma RenumberSecond(prev: char, s: string, c: char)
    requires !IsDigit(c) && c != '?'
    ensures var r := Renumber(prev, s); (r != [] && r[0] == c) <==> (s != [] && s[0] == c)
  {
  }

  lemma {:induction false} RenumberKeepsMarkers(prev: char, s: string)
    ensures MarkersClosed(Renumber(prev, s)) <==> MarkersClosed(s)
    decreases |s|
  {
    if s == [] {
    } else if PrecedesNumber(prev) && IsDigit(s[0]) {
      var n := NumberLength(s);
      RenumberKeepsMarkers('?', s[n..]);
      var r := Renumber(prev, s);
      assert r[1..] == Renumber('?', s[n..]);
      assert LooseAt(r);
      NumberChars(s);
      MarkersPastPlain(s, n);
    } else {
      RenumberKeepsMarkers(s[0], s[1..]);
      RenumberKeepsHead(prev, s);
      assert Renumber(prev, s)[1..] == Renumber(s[0], s[1..]);
    }
  }

  lemma RenumberKeepsHead(prev: char, s: string)
    requires s != [] && !(PrecedesNumber(prev) && IsDigit(s[0]))
    ensures LooseAt(Renumber(prev, s)) <==> LooseAt(s)
  {
    var r := Renumber(prev, s);
    var t := Renumber(s[0], s[1..]);
    assert r[0] == s[0] && r[1..] == t;
    RenumberKeepsSpace(s[0], s[1..]);
    RenumberSecond(s[0], s[1..], '-');
    RenumberSecond(s[0], s[1..], '*');
    if |s| > 1 && (s[1] == '-' || s[1] == '*') {
      assert t[1..] == Renumber(s[1], s[1..][1..]);
      assert r[2..] == t[1..] && s[2..] == s[1..][1..];
      RenumberKeepsSpace(s[1], s[2..]);
    }
  }

  lemma UnnumberedKeeps(s: string)
    ensures QuoteClean(Unnumbered(s), false) <==> QuoteClean(s, false)
    ensures MarkersClosed(Unnumbered(s)) <==> MarkersClosed(s)
    ensures s != [] ==> Unnumbered(s) != []
  {
    if s != [] {
      // The first character is kept, as after a character that precedes no number.
      assert Unnumbered(s) == Renumber('a', s);
      RenumberKeepsClean('a', s, false);
      RenumberKeepsMarkers('a', s);
    }
  }

  // ---------------------------------------------------------------- number abstraction

  /** The three shapes of number the pass replaces whole. */
  datatype Number = Decimal(digits: string) | Fraction(whole: string, part: string) | Hex(upperX: bool, digits: string)

  predicate AllDigits(s: string) {
    forall c :: c in s ==> IsDigit(c)
  }

  predicate ValidNumber(n: Number) {
    match n
    case Decimal(ds) => ds != [] && AllDigits(ds)
    case Fraction(w, p) => w != [] && AllDigits(w) && AllDigits(p)
    case Hex(_, ds) => forall c :: c in ds ==> IsHexDigit(c)
  }

  function NumberText(n: Number): string {
    match n
    case Decimal(ds) => ds
    case Fraction(w, p) => w + "." + p
    case Hex(upper, ds) => (if upper then "0X" else "0x") + ds
  }

  /** `s` does not continue the number before it. */
  predicate EndsBefore(n: Number, s: string) {
    s == [] ||
    match n
    case Decimal(ds) => !IsDigit(s[0]) && s[0] != '.' && (ds == "0" ==> s[0] != 'x' && s[0] != 'X')
    case Fraction(_, _) => !IsDigit(s[0])
    case Hex(_, _) => !IsHexDigit(s[0])
  }

  lemma DigitRunOf(ds: string, s: string)
    requires AllDigits(ds) && (s == [] || !IsDigit(s[0]))
    ensures DigitRun(ds + s) == |ds|
  {
    forall i | 0 <= i < |ds| ensures IsDigit((ds + s)[i]) {
      assert ds[i] in ds;
    }
    assert s != [] ==> (ds + s)[|ds|] == s[0];
  }

  lemma {:induction false} HexRunOf(ds: string, s: string)
    requires (forall c :: c in ds ==> IsHexDigit(c)) && (s == [] || !IsHexDigit(s[0]))
    ensures HexRun(ds + s) == |ds|
  {
    forall i | 0 <= i < |ds| ensures IsHexDigit((ds + s)[i]) {
      assert ds[i] in ds;
    }
    assert s != [] ==> (ds + s)[|ds|] == s[0];
  }

  lemma NumberIsWhole(n: Number, s: string)
    requires ValidNumber(n) && EndsBefore(n, s)
    ensures var t := NumberText(n) + s;
            t != [] && IsDigit(t[0]) && NumberLength(t) == |NumberText(n)|
  {
    match n {
      case Decimal(ds) => DecimalIsWhole(ds, s);
      case Fraction(w, p) => FractionIsWhole(w, p, s);
      case Hex(upper, ds) => HexIsWhole(if upper then "0X" else "0x", ds, s);
    }
  }

  lemma HexIsWhole(x: string, ds: string, s: string)
    requires x == "0x" || x == "0X"
    requires (forall c :: c in ds ==> IsHexDigit(c)) && (s == [] || !IsHexDigit(s[0]))
    ensures var t := x + ds + s; IsDigit(t[0]) && NumberLength(t) == 2 + |ds|
  {
    var t := x + ds + s;
    assert t[2..] == ds + s;
    HexRunOf(ds, s);
  }

  lemma DecimalIsWhole(ds: string, s: string)
    requires ValidNumber(Decimal(ds)) && EndsBefore(Decimal(ds), s)
    ensures IsDigit((ds + s)[0]) && NumberLength(ds + s) == |ds|
  {
    var t := ds + s;
    assert ds[0] in ds && t[0] == ds[0];
    assert t[1..] == ds[1..] + s;
    assert forall c :: c in ds[1..] ==> c in ds;
    DigitRunOf(ds[1..], s);
    if |ds| == 1 {
      assert ds == [ds[0]];
      assert s != [] ==> t[1] == s[0];
    } else {
      assert t[1] == ds[1] && ds[1] in ds;
    }
    assert s != [] ==> t[|ds|] == s[0];
  }

  lemma FractionIsWhole(w: string, p: string, s: string)
    requires ValidNumber(Fraction(w, p)) && EndsBefore(Fraction(w, p), s)
    ensures var t := w + "." + p + s; IsDigit(t[0]) && NumberLength(t) == |w| + 1 + |p|
  {
    FractionParts(w, p, s);
    assert w[0] in w;
    assert forall c :: c in w[1..] ==> c in w;
    DigitRunOf(w[1..], "." + p + s);
    assert |w| > 1 ==> w[1] in w;
    DigitRunOf(p, s);
  }

  lemma FractionParts(w: string, p: string, s: string)
    requires w != []
    ensures var t := w + "." + p + s;
            && |t| > |w| && t[0] == w[0] && t[1] == (if |w| > 1 then w[1] else '.')
            && t[1..] == w[1..] + ("." + p + s)
            && t[|w|] == '.' && t[|w| + 1..] == p + s
  {
  }

  /** Text that ends in a character which precedes numbers is handled on its own. */
  lemma {:induction false} RenumberAppend(prev: char, p: string, t: string)
    requires p != [] && PrecedesNumber(p[|p| - 1])
    ensures Renumber(prev, p + t) == Renumber(prev, p) + Renumber(p[|p| - 1], t)
    decreases |p|
  {
    hide NumberLength, PrecedesNumber, IsDigit;
    var tail := Renumber(p[|p| - 1], t);
    var number := PrecedesNumber(prev) && IsDigit(p[0]);
    var n := 1;
    if number {
      n := NumberLength(p);
      NumberLengthAppend(p, t);
    }
    var head := if number then '?' else p[0];
    var rest := p[n..];
    assert (p + t)[0] == p[0] && (p + t)[n..] == rest + t;
    if rest == [] {
      assert |p| == 1 && rest + t == t;
      assert Renumber(prev, p) == [head];
    } else {
      RenumberAppend(head, rest, t);
      assert rest[|rest| - 1] == p[|p| - 1];
      assert Renumber(prev, p) == [head] + Renumber(head, rest);
      Assoc([head], Renumber(head, rest), tail);
    }
  }

  lemma NumberLengthAppend(p: string, t: string)
    requires p != [] && IsDigit(p[0]) && PrecedesNumber(p[|p| - 1])
    ensures NumberLength(p + t) == NumberLength(p) < |p|
  {
    hide DigitRun, HexRun, PrecedesNumber, IsDigit;
    NumberLengthStops(p);
    if OpensHex(p) {
      DropPrefix(p, t, 2);
      HexRunPrefix(p[2..], t);
    } else {
      DropPrefix(p, t, 1);
      DigitRunPrefix(p[1..], t);
      var n := 1 + DigitRun(p[1..]);
      DropPrefix(p, t, n);
      if p[n] == '.' {
        DropPrefix(p, t, n + 1);
        DigitRunPrefix(p[n + 1..], t);
      }
    }
  }

  lemma DropPrefix(p: string, t: string, n: nat)
    requires n <= |p|
    ensures (p + t)[n..] == p[n..] + t && forall i :: 0 <= i < |p| ==> (p + t)[i] == p[i]
  {
  }

  /** The last character of p is no part of a number, so the runs stop before it. */
  lemma NumberLengthStops(p: string)
    requires p != [] && IsDigit(p[0]) && PrecedesNumber(p[|p| - 1])
    ensures NumberLength(p) < |p|
    ensures OpensHex(p) ==> HexRun(p[2..]) < |p[2..]|
    ensures !OpensHex(p) ==> 1 + DigitRun(p[1..]) < |p|
    ensures !OpensHex(p) && p[1 + DigitRun(p[1..])] == '.' ==>
              DigitRun(p[2 + DigitRun(p[1..])..]) < |p| - 2 - DigitRun(p[1..])
  {
    var last := p[|p| - 1];
    assert !IsHexDigit(last) && last != '.' && last != 'x' && last != 'X';
    if OpensHex(p) {
      assert p[2..][|p| - 3] == last;
    } else {
      assert p[1..][|p| - 2] == last;
      var n := 1 + DigitRun(p[1..]);
      if p[n] == '.' {
        assert n < |p| - 1;
        assert p[n + 1..][|p| - n - 2] == last;
      }
    }
  }

  lemma DigitRunPrefix(p: string, t: string)
    requires DigitRun(p) < |p|
    ensures DigitRun(p + t) == DigitRun(p)
  {
    var n, m := DigitRun(p), DigitRun(p + t);
    assert (p + t)[n] == p[n];
    if m < n {
      assert (p + t)[m] == p[m];
    }
  }

  lemma HexRunPrefix(p: string, t: string)
    requires HexRun(p) < |p|
    ensures HexRun(p + t) == HexRun(p)
  {
    var n, m := HexRun(p), HexRun(p + t);
    assert (p + t)[n] == p[n];
    if m < n {
      assert (p + t)[m] == p[m];
    }
  }

  /** A number right after one of the delimiters becomes '?', wherever it stands in the query, and the rest of
      the query goes its own way. */
  lemma NumberGoes(p: string, n: Number, s: string)
    requires p != [] && p[|p| - 1] in ",!(+-*/=~<>^%|& \t\n\U{0B}\U{0C}\r\U{A0}"
    requires ValidNumber(n) && EndsBefore(n, s)
    ensures Unnumbered(p + (NumberText(n) + s)) == Unnumbered(p) + Unnumbered("?" + s)
  {
    hide Renumber, NumberText, ValidNumber, EndsBefore;
    var last := p[|p| - 1];
    DelimitersAre(last);
    AfterFirst(p + (NumberText(n) + s));
    AfterFirst(p);
    RenumberAppend('a', p, NumberText(n) + s);
    RenumberHole(last, n, s);
    assert ("?" + s)[1..] == s;
  }

  /** The first character is kept, as after a character that precedes no number. */
  lemma AfterFirst(s: string)
    ensures Unnumbered(s) == Renumber('a', s)
  {
  }

  /** A stretch without delimiters keeps all its digits, unless it starts with one after a delimiter. */
  lemma {:induction false} WordStays(prev: char, w: string, s: string)
    requires w != [] && (!IsDigit(w[0]) || !PrecedesNumber(prev))
    requires forall i :: 0 <= i < |w| ==> !PrecedesNumber(w[i])
    ensures Renumber(prev, w + s) == w + Renumber(w[|w| - 1], s)
    decreases |w|
  {
    assert (w + s)[0] == w[0] && (w + s)[1..] == w[1..] + s;
    if |w| == 1 {
      assert w[1..] + s == s && w == [w[0]];
    } else {
      WordStays(w[0], w[1..], s);
      Prepend(w, Renumber(w[|w| - 1], s));
    }
  }

  /** A name with its digits comes out as it is, after a delimiter or at the start of the query; at the
      start so does a number. */
  lemma NameStays(p: string, w: string, s: string)
    requires p == [] || p[|p| - 1] in ",!(+-*/=~<>^%|& \t\n\U{0B}\U{0C}\r\U{A0}"
    requires w != [] && (p == [] || w[0] !in "0123456789")
    requires forall c :: c in w ==> c !in ",!(+-*/=~<>^%|& \t\n\U{0B}\U{0C}\r\U{A0}"
    requires s == [] || s[0] !in "0123456789"
    ensures Unnumbered(p + (w + s)) == Unnumbered(p) + (w + Unnumbered(s))
  {
    hide Renumber;
    forall i | 0 <= i < |w| ensures !PrecedesNumber(w[i]) {
      assert w[i] in w;
      DelimitersAre(w[i]);
    }
    DigitsAre(w[0]);
    AfterFirst(p + (w + s));
    AfterFirst(p);
    AfterFirst(s);
    if p != [] {
      DelimitersAre(p[|p| - 1]);
      RenumberAppend('a', p, w + s);
      WordStays(p[|p| - 1], w, s);
    } else {
      assert p + (w + s) == w + s;
      WordStays('a', w, s);
      assert Renumber('a', p) == [] by { AfterFirst([]); }
    }
    if s != [] {
      DigitsAre(s[0]);
    }
    FirstStays(w[|w| - 1], s);
  }

  lemma FirstStays(prev: char, s: string)
    requires s == [] || !IsDigit(s[0])
    ensures Renumber(prev, s) == Renumber('a', s)
  {
  }

  /** A query with number holes: text ending in a character that precedes numbers, a number, and
      so on. */
  datatype NumberSkeleton = Last(text: string) | Hole(text: string, rest: NumberSkeleton)

  predicate ValidHoles(k: NumberSkeleton) {
    k.Hole? ==> k.text != [] && PrecedesNumber(k.text[|k.text| - 1]) && ValidHoles(k.rest)
  }

  /** One number per hole, none of them continued by the text after it. */
  ghost predicate Fits(k: NumberSkeleton, nums: seq<Number>) {
    if k.Last? then nums == []
    else nums != [] && ValidNumber(nums[0]) && Fits(k.rest, nums[1..]) && EndsBefore(nums[0], k.rest.text)
         && (k.rest.Last? || k.rest.text != [])
  }

  function Fill(k: NumberSkeleton, nums: seq<Number>): string {
    if k.Last? || nums == [] then k.text
    else k.text + NumberText(nums[0]) + Fill(k.rest, nums[1..])
  }

  /** The text with '?' in every hole, its own numbers replaced as well. */
  function HolePattern(prev: char, k: NumberSkeleton): string
    decreases k
  {
    if k.Last? then Renumber(prev, k.text)
    else Renumber(prev, k.text) + "?" + HolePattern('?', k.rest)
  }

  /** The numbers in the holes leave no trace in the pattern. */
  lemma {:induction false} RenumberFilled(prev: char, k: NumberSkeleton, nums: seq<Number>)
    requires ValidHoles(k) && Fits(k, nums)
    ensures Renumber(prev, Fill(k, nums)) == HolePattern(prev, k)
    decreases k
  {
    hide Renumber, NumberText, ValidNumber, PrecedesNumber;
    if k.Hole? {
      var tail := Fill(k.rest, nums[1..]);
      var num := NumberText(nums[0]);
      assert Fill(k, nums) == k.text + (num + tail);
      RenumberAppend(prev, k.text, num + tail);
      FillStart(k.rest, nums[1..]);
      RenumberHole(k.text[|k.text| - 1], nums[0], tail);
      RenumberFilled('?', k.rest, nums[1..]);
      assert Renumber(prev, k.text) + ("?" + HolePattern('?', k.rest)) == HolePattern(prev, k);
    }
  }

  lemma RenumberHole(prev: char, n: Number, tail: string)
    requires PrecedesNumber(prev) && ValidNumber(n) && EndsBefore(n, tail)
    ensures Renumber(prev, NumberText(n) + tail) == "?" + Renumber('?', tail)
  {
    NumberIsWhole(n, tail);
    assert (NumberText(n) + tail)[|NumberText(n)|..] == tail;
  }

  lemma FillStart(k: NumberSkeleton, nums: seq<Number>)
    requires Fits(k, nums) && (k.Last? || k.text != [])
    ensures k.text == [] ==> Fill(k, nums) == []
    ensures k.text != [] ==> Fill(k, nums) != [] && Fill(k, nums)[0] == k.text[0]
  {
  }
}
