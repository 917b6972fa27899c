/** Query text: what the in-place passes use of C++ strings.

    A query is a `string`; the passes only compare characters, so every byte 0..255 is one
    character here.  Reading one past the end is legal in the source and gives NUL. */
module Text {

  const NUL: char := '\0'

  /** `query[i]`, with the terminating NUL. */
  function At(q: string, i: nat): char
    requires i <= |q|
  {
    if i < |q| then q[i] else NUL
  }

  /** `query.erase(pos, n)`: the count is clipped to what is left. */
  function Erase(q: string, pos: nat, n: nat): string
    requires pos <= |q|
  {
    if pos + n <= |q| then q[..pos] + q[pos + n..] else q[..pos]
  }

  /** `query.size() - k` on a 64-bit unsigned size: it wraps below zero. */
  function SizeMinus(n: nat, k: nat): nat
    requires k <= 0x1_0000_0000_0000_0000
  {
    if k <= n then n - k else 0x1_0000_0000_0000_0000 + n - k
  }

  /** The characters the macro `sql_space` accepts. */
  predicate IsSpace(c: char) {
    c == ' ' || c == '\U{A0}' || '\U{08}' < c < '\U{0E}'
  }

  predicate IsDigit(c: char) {
    '0' <= c <= '9'
  }

  function Lower(c: char): char {
    if 'A' <= c <= 'Z' then 'a' + (c - 'A') else c
  }

  predicate IsQuote(c: char) {
    c == '\'' || c == '"'
  }

  // ---------------------------------------------------------------- the characters by name

  /** The seven spaces, the ten digits and the two quotes. */
  lemma SpacesAre(c: char)
    ensures IsSpace(c) <==> c in " \t\n\U{0B}\U{0C}\r\U{A0}"
  {
  }

  lemma DigitsAre(c: char)
    ensures IsDigit(c) <==> c in "0123456789"
  {
    if IsDigit(c) {
      assert c == "0123456789"[(c - '0') as int];
    }
  }

  lemma QuotesAre(c: char)
    ensures IsQuote(c) <==> c in "'\""
  {
  }

  /** Each capital becomes its small letter, and nothing else changes. */
  lemma LowerIs(c: char)
    ensures var capitals, small := "ABCDEFGHIJKLMNOPQRSTUVWXYZ", "abcdefghijklmnopqrstuvwxyz";
            && (forall i :: 0 <= i < 26 && c == capitals[i] ==> Lower(c) == small[i])
            && (c !in capitals ==> Lower(c) == c)
  {
    if 'A' <= c <= 'Z' {
      assert c == "ABCDEFGHIJKLMNOPQRSTUVWXYZ"[(c - 'A') as int];
    }
  }

  /** `t` dropped by `n`, where `n` may run past the end. */
  function Drop(t: string, n: nat): string {
    if n <= |t| then t[n..] else []
  }

  predicate StartsWith(t: string, p: string) {
    |p| <= |t| && t[..|p|] == p
  }

  lemma Regroup(a: string, c: char, t: string)
    ensures a + ([c] + t) == (a + [c]) + t
  {
  }

  lemma Halves(a: string, b: string)
    ensures (a + b)[..|a|] == a && (a + b)[|a|..] == b
  {
  }

  lemma Prepend(a: string, t: string)
    requires a != []
    ensures [a[0]] + (a[1..] + t) == a + t
  {
  }

  lemma SplitPrefix(s: string, k: nat, n: nat)
    requires k <= n <= |s|
    ensures s[..n] == s[..k] + s[k..][..n - k]
    ensures n < |s| ==> s[n] == s[k..][n - k]
    ensures n + 1 < |s| ==> s[n + 1] == s[k..][n - k + 1]
  {
  }

  /** A measure of text that every normalising pass lowers or leaves alone:
      quotes, digits and unusual whitespace are heavy, a plain space is light. */
  function CharWeight(c: char): (w: nat)
    ensures w >= 1
  {
    if c == ' ' then 1 else if IsQuote(c) || IsDigit(c) || IsSpace(c) then 3 else 2
  }

  function Weight(s: string): nat {
    if s == [] then 0 else CharWeight(s[0]) + Weight(s[1..])
  }

  lemma {:induction false} WeightConcat(a: string, b: string)
    ensures Weight(a + b) == Weight(a) + Weight(b)
  {
    if a == [] {
      assert a + b == b;
    } else {
      assert (a + b)[1..] == a[1..] + b;
      WeightConcat(a[1..], b);
    }
  }

  /** Dropping a non-empty prefix lowers the weight by that prefix. */
  lemma WeightDrop(s: string, n: nat)
    requires n <= |s|
    ensures Weight(s) == Weight(s[..n]) + Weight(s[n..])
    ensures Weight(s[..n]) >= n
  {
    assert s == s[..n] + s[n..];
    WeightConcat(s[..n], s[n..]);
    WeightAtLeast(s[..n]);
  }

  lemma {:induction false} WeightAtLeast(s: string)
    ensures Weight(s) >= |s|
  {
    if s != [] {
      WeightAtLeast(s[1..]);
    }
  }
}
