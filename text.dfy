/** The few string operations of JavaScript that the generator relies on, over `seq<char>`. */
module Text {

  /** `s.startsWith(prefix)`. */
  predicate StartsWith(s: string, prefix: string) {
    |prefix| <= |s| && s[..|prefix|] == prefix
  }

  /** `sub` occurs in `s` starting at offset `i`. */
  predicate OccursAt(s: string, sub: string, i: nat) {
    i + |sub| <= |s| && s[i..i + |sub|] == sub
  }

  /** `s.includes(sub)`: `sub` occurs at some offset of `s` (the empty string occurs
      everywhere). */
  predicate Contains(s: string, sub: string)
    ensures Contains(s, sub) <==> exists i: nat :: OccursAt(s, sub, i)
    decreases |s|
  {
    OccursSplit(s, sub);
    StartsWith(s, sub) || (|s| > 0 && Contains(s[1..], sub))
  }

  /** An occurrence is at offset 0 or, shifted by one, an occurrence in the tail. */
  lemma OccursSplit(s: string, sub: string)
    ensures (exists i: nat :: OccursAt(s, sub, i)) <==>
      StartsWith(s, sub) || (|s| > 0 && exists i: nat :: OccursAt(s[1..], sub, i))
  {
    if exists i: nat :: OccursAt(s, sub, i) {
      var i: nat :| OccursAt(s, sub, i);
      if i == 0 {
        assert s[..|sub|] == sub;
      } else {
        OccursInTail(s, sub, i);
      }
    }
    if StartsWith(s, sub) {
      assert OccursAt(s, sub, 0);
    } else if |s| > 0 && exists i: nat :: OccursAt(s[1..], sub, i) {
      var i: nat :| OccursAt(s[1..], sub, i);
      OccursFromTail(s, sub, i);
    }
  }

  lemma OccursInTail(s: string, sub: string, i: nat)
    requires i > 0 && OccursAt(s, sub, i)
    ensures |s| > 0 && OccursAt(s[1..], sub, i - 1)
  {
    assert s[1..][i - 1..i - 1 + |sub|] == s[i..i + |sub|];
  }

  lemma OccursFromTail(s: string, sub: string, i: nat)
    requires |s| > 0 && OccursAt(s[1..], sub, i)
    ensures OccursAt(s, sub, i + 1)
  {
    assert s[i + 1..i + 1 + |sub|] == s[1..][i..i + |sub|];
  }

  /** The summed lengths of `xs`. */
  function TotalLength(xs: seq<string>): nat
    decreases |xs|
  {
    if |xs| == 0 then 0 else |xs[0]| + TotalLength(xs[1..])
  }

  /** `xs.join(sep)`: the strings with one separator between each neighbouring pair. */
  function Join(xs: seq<string>, sep: string): (r: string)
    ensures |xs| > 0 ==> |r| == TotalLength(xs) + |sep| * (|xs| - 1)
    ensures |xs| > 0 ==> StartsWith(r, xs[0])
    decreases |xs|
  {
    if |xs| == 0 then ""
    else if |xs| == 1 then xs[0]
    else xs[0] + sep + Join(xs[1..], sep)
  }

  /** Joining with a non-empty separator gives the empty string exactly when there is nothing
      to join or a single empty string: `[""]` and `[]` are the only lists joined to `""`. */
  lemma {:induction false} JoinIsEmpty(xs: seq<string>, sep: string)
    requires sep != ""
    ensures Join(xs, sep) == "" <==> (|xs| == 0 || (|xs| == 1 && xs[0] == ""))
  {
    if |xs| > 1 {
      assert |Join(xs, sep)| >= |sep|;
    }
  }

  /** ASCII lowercasing of one character: `A`-`Z` become `a`-`z`, everything else is kept. */
  function LowerChar(c: char): char {
    if 'A' <= c <= 'Z' then (c as int + 32) as char else c
  }

  /** `s.toLowerCase()`, restricted to ASCII letters. */
  function Lower(s: string): (r: string)
    ensures |r| == |s|
  {
    seq(|s|, i requires 0 <= i < |s| => LowerChar(s[i]))
  }

  /** Each capital `A`-`Z` becomes its small letter, 32 code points on, and every other
      character is kept; no capital is left. */
  lemma LowerMapsCapitals(s: string)
    ensures forall i :: 0 <= i < |s| && 'A' <= s[i] <= 'Z' ==> Lower(s)[i] as int == s[i] as int + 32
    ensures forall i :: 0 <= i < |s| && !('A' <= s[i] <= 'Z') ==> Lower(s)[i] == s[i]
    ensures forall i :: 0 <= i < |s| ==> !('A' <= Lower(s)[i] <= 'Z')
  {
  }

  /** Lowercasing works character by character from the front. */
  lemma LowerOfCons(c: char, s: string)
    ensures Lower([c] + s) == [LowerChar(c)] + Lower(s)
  {
    var t := [c] + s;
    assert forall i :: 1 <= i < |t| ==> t[i] == s[i - 1];
  }

  /** `s.slice(0, n)` for a non-negative `n`. */
  function Take<T>(s: seq<T>, n: nat): (r: seq<T>)
    ensures |r| == if n < |s| then n else |s|
    ensures r == s[..|r|]
  {
    if n < |s| then s[..n] else s
  }
}
