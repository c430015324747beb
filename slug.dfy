/** `slugify` of image-gen/generate.ts: the prompt is lowercased, every maximal run of
    characters outside `[a-z0-9]` becomes one `-`, leading and trailing `-` are stripped,
    and the result is cut to `maxLen` (45) characters. The cut comes after the strip, so a
    slug can end in `-` when the cut falls just after a separator. */
module Slugs {
  import opened Text

  const MaxSlugLength: nat := 45

  predicate IsSlugAlnum(c: char) {
    'a' <= c <= 'z' || '0' <= c <= '9'
  }

  predicate IsSlugChar(c: char) {
    IsSlugAlnum(c) || c == '-'
  }

  predicate AllSlugChars(s: string) {
    forall i :: 0 <= i < |s| ==> IsSlugChar(s[i])
  }

  predicate NoAlnum(s: string) {
    forall i :: 0 <= i < |s| ==> !IsSlugAlnum(s[i])
  }

  predicate AllHyphens(s: string) {
    forall i :: 0 <= i < |s| ==> s[i] == '-'
  }

  predicate NoDoubleHyphen(s: string) {
    forall i :: 0 <= i < |s| - 1 ==> !(s[i] == '-' && s[i + 1] == '-')
  }

  /** A string that slugify leaves as it is: slug characters only, no `--`, and no hyphen at
      either end. */
  predicate IsSlugSafe(s: string) {
    AllSlugChars(s) && NoDoubleHyphen(s) && (|s| > 0 ==> s[0] != '-' && s[|s| - 1] != '-')
  }

  /** The letters and digits of `s`, in order. */
  function AlnumOf(s: string): string
    decreases |s|
  {
    if |s| == 0 then [] else (if IsSlugAlnum(s[0]) then [s[0]] else []) + AlnumOf(s[1..])
  }

  /** What remains of `s` after its leading run of separators. */
  function DropSeparators(s: string): (r: string)
    ensures |r| <= |s| && r == s[|s| - |r|..]
    ensures |r| > 0 ==> IsSlugAlnum(r[0])
    ensures NoAlnum(s[..|s| - |r|])
    decreases |s|
  {
    if |s| > 0 && !IsSlugAlnum(s[0]) then
      var r := DropSeparators(s[1..]);
      assert s[..|s| - |r|] == [s[0]] + s[1..][..|s| - 1 - |r|];
      r
    else
      assert s[..0] == [];
      s
  }

  /** `.replace(/[^a-z0-9]+/g, "-")`: each maximal run of separators becomes one hyphen. */
  function Collapse(s: string): (r: string)
    ensures |r| <= |s|
    ensures |r| > 0 <==> |s| > 0
    decreases |s|
  {
    if |s| == 0 then []
    else if IsSlugAlnum(s[0]) then [s[0]] + Collapse(s[1..])
    else ['-'] + Collapse(DropSeparators(s[1..]))
  }

  /** The collapsed text has slug characters only and never `--`; it starts with `-` exactly
      when the input starts with a separator. */
  lemma {:induction false} CollapseShape(s: string)
    ensures AllSlugChars(Collapse(s)) && NoDoubleHyphen(Collapse(s))
    ensures |s| > 0 ==> (Collapse(s)[0] == '-' <==> !IsSlugAlnum(s[0]))
    decreases |s|
  {
    if |s| > 0 {
      if IsSlugAlnum(s[0]) {
        CollapseShape(s[1..]);
        ConsKeepsShape(s[0], Collapse(s[1..]));
      } else {
        var d := DropSeparators(s[1..]);
        CollapseShape(d);
        ConsKeepsShape('-', Collapse(d));
      }
    }
  }

  /** Putting a slug character in front keeps the shape, unless it makes a `--`. */
  lemma ConsKeepsShape(x: char, t: string)
    requires IsSlugChar(x) && AllSlugChars(t) && NoDoubleHyphen(t)
    requires x == '-' && |t| > 0 ==> t[0] != '-'
    ensures AllSlugChars([x] + t) && NoDoubleHyphen([x] + t)
  {
    var r := [x] + t;
    assert forall i :: 1 <= i < |r| ==> r[i] == t[i - 1];
  }

  /** `.replace(/^-+/, "")`. */
  function TrimStart(s: string): (r: string)
    ensures |r| <= |s| && r == s[|s| - |r|..]
    ensures |r| > 0 ==> r[0] != '-'
    ensures AllHyphens(s[..|s| - |r|])
    decreases |s|
  {
    if |s| > 0 && s[0] == '-' then
      var r := TrimStart(s[1..]);
      assert r == s[|s| - |r|..] by {
        assert s[1..][|s| - 1 - |r|..] == s[|s| - |r|..];
      }
      assert AllHyphens(s[..|s| - |r|]) by {
        assert s[..|s| - |r|] == [s[0]] + s[1..][..|s| - 1 - |r|];
      }
      r
    else
      assert s[..0] == [];
      s
  }

  /** `.replace(/-+$/, "")`. */
  function TrimEnd(s: string): (r: string)
    ensures |r| <= |s| && r == s[..|r|]
    ensures |r| > 0 ==> r[|r| - 1] != '-'
    ensures AllHyphens(s[|r|..])
    decreases |s|
  {
    if |s| > 0 && s[|s| - 1] == '-' then
      var r := TrimEnd(s[..|s| - 1]);
      assert s[|r|..] == s[..|s| - 1][|r|..] + [s[|s| - 1]];
      r
    else
      s
  }

  /** The slug before the final cut. */
  function Normalized(text: string): string {
    TrimEnd(TrimStart(Collapse(Lower(text))))
  }

  /** `slugify(text, maxLen)`: the normalized text cut to at most `maxLen` characters. */
  function Slugify(text: string, maxLen: nat): (r: string)
    ensures |r| <= maxLen
  {
    Take(Normalized(text), maxLen)
  }

  /** `slugify(text)` with the default length of 45. */
  function Slug(text: string): string {
    Slugify(text, MaxSlugLength)
  }

  // ----- Properties -----

  /** Before the cut, the slug has slug characters only, no `--`, and no hyphen at either end. */
  lemma NormalizedIsSlugSafe(text: string)
    ensures IsSlugSafe(Normalized(text))
  {
    CollapseShape(Lower(text));
    TrimmedIsSlugSafe(Collapse(Lower(text)));
  }

  /** Trimming the hyphens off both ends of a collapsed text leaves it slug-safe. */
  lemma TrimmedIsSlugSafe(c: string)
    requires AllSlugChars(c) && NoDoubleHyphen(c)
    ensures IsSlugSafe(TrimEnd(TrimStart(c)))
  {
    var a := TrimStart(c);
    SliceKeepsShape(c, |c| - |a|, |c|);
    assert a == c[|c| - |a|..|c|];
    var b := TrimEnd(a);
    SliceKeepsShape(a, 0, |b|);
    assert b == a[0..|b|];
    if |b| > 0 {
      assert b[0] == a[0];
    }
  }

  /** A slice of a text with slug characters only and no `--` has the same two properties. */
  lemma SliceKeepsShape(c: string, lo: nat, hi: nat)
    requires lo <= hi <= |c|
    requires AllSlugChars(c) && NoDoubleHyphen(c)
    ensures AllSlugChars(c[lo..hi]) && NoDoubleHyphen(c[lo..hi])
  {
    var s := c[lo..hi];
    assert forall i :: 0 <= i < |s| ==> s[i] == c[lo + i];
  }

  /** The slug is at most `maxLen` long, has slug characters only, never contains `--` and
      never starts with `-`; it is a prefix of the normalized text. */
  lemma SlugifyShape(text: string, maxLen: nat)
    ensures var r := Slugify(text, maxLen);
      && |r| <= maxLen
      && AllSlugChars(r)
      && NoDoubleHyphen(r)
      && (|r| > 0 ==> r[0] != '-')
      && r == Normalized(text)[..|r|]
  {
    NormalizedIsSlugSafe(text);
    var n := Normalized(text);
    var r := Slugify(text, maxLen);
    assert forall i :: 0 <= i < |r| ==> r[i] == n[i];
  }

  /** The slug ends in `-` exactly when the cut falls inside the normalized text, just after a
      hyphen. */
  lemma SlugEndsWithHyphen(text: string, maxLen: nat)
    ensures var r := Slugify(text, maxLen); var n := Normalized(text);
      (|r| > 0 && r[|r| - 1] == '-') <==> (0 < maxLen < |n| && n[maxLen - 1] == '-')
  {
    NormalizedIsSlugSafe(text);
  }

  lemma {:induction false} AlnumOfAppend(a: string, b: string)
    ensures AlnumOf(a + b) == AlnumOf(a) + AlnumOf(b)
    decreases |a|
  {
    if |a| > 0 {
      assert (a + b)[0] == a[0];
      assert (a + b)[1..] == a[1..] + b;
      AlnumOfAppend(a[1..], b);
      var h := if IsSlugAlnum(a[0]) then [a[0]] else [];
      calc {
        AlnumOf(a + b);
        h + AlnumOf(a[1..] + b);
        h + (AlnumOf(a[1..]) + AlnumOf(b));
        (h + AlnumOf(a[1..])) + AlnumOf(b);
      }
    } else {
      assert a + b == b;
    }
  }

  lemma {:induction false} AlnumOfSeparators(s: string)
    requires NoAlnum(s) || AllHyphens(s)
    ensures AlnumOf(s) == []
    decreases |s|
  {
    if |s| > 0 {
      AlnumOfSeparators(s[1..]);
    }
  }

  /** Collapsing separators keeps every letter and digit, in order. */
  lemma {:induction false} CollapseKeepsAlnum(s: string)
    ensures AlnumOf(Collapse(s)) == AlnumOf(s)
    decreases |s|
  {
    if |s| > 0 {
      if IsSlugAlnum(s[0]) {
        CollapseKeepsAlnum(s[1..]);
        AlnumOfAppend([s[0]], Collapse(s[1..]));
      } else {
        var t := s[1..];
        var d := DropSeparators(t);
        CollapseKeepsAlnum(d);
        AlnumOfAppend(['-'], Collapse(d));
        assert t == t[..|t| - |d|] + d;
        AlnumOfAppend(t[..|t| - |d|], d);
        AlnumOfSeparators(t[..|t| - |d|]);
      }
    }
  }

  /** The letters and digits of the slug, before the cut, are exactly those of the lowercased
      text, in order: only separators are rewritten or dropped. */
  lemma NormalizedKeepsAlnum(text: string)
    ensures AlnumOf(Normalized(text)) == AlnumOf(Lower(text))
  {
    var c := Collapse(Lower(text));
    CollapseKeepsAlnum(Lower(text));
    TrimStartKeepsAlnum(c);
    TrimEndKeepsAlnum(TrimStart(c));
  }

  lemma TrimStartKeepsAlnum(c: string)
    ensures AlnumOf(TrimStart(c)) == AlnumOf(c)
  {
    var a := TrimStart(c);
    var k := |c| - |a|;
    assert c == c[..k] + a;
    AlnumOfAppend(c[..k], a);
    AlnumOfSeparators(c[..k]);
  }

  lemma TrimEndKeepsAlnum(a: string)
    ensures AlnumOf(TrimEnd(a)) == AlnumOf(a)
  {
    var b := TrimEnd(a);
    assert a == b + a[|b|..];
    AlnumOfAppend(b, a[|b|..]);
    AlnumOfSeparators(a[|b|..]);
  }

  lemma LowerOfSlugChars(s: string)
    requires AllSlugChars(s)
    ensures Lower(s) == s
  {
  }

  /** Collapsing leaves alone a string of slug characters without `--`. */
  lemma {:induction false} CollapseOfSlugChars(s: string)
    requires AllSlugChars(s) && NoDoubleHyphen(s)
    ensures Collapse(s) == s
    decreases |s|
  {
    if |s| > 0 {
      if IsSlugAlnum(s[0]) {
        CollapseOfSlugChars(s[1..]);
        assert s == [s[0]] + s[1..];
      } else {
        var t := s[1..];
        assert |t| > 0 ==> IsSlugAlnum(t[0]);
        assert DropSeparators(t) == t;
        CollapseOfSlugChars(t);
        assert s == ['-'] + t;
      }
    }
  }

  /** A slug-safe string no longer than `maxLen` is its own slug. */
  lemma SlugifyFixpoint(s: string, maxLen: nat)
    requires IsSlugSafe(s) && |s| <= maxLen
    ensures Slugify(s, maxLen) == s
  {
    LowerOfSlugChars(s);
    CollapseOfSlugChars(s);
  }

  /** Slugifying a slug again changes nothing, unless the slug ends in `-`: only then does the
      second pass strip that hyphen. */
  lemma SlugifyIdempotent(text: string, maxLen: nat)
    ensures var r := Slugify(text, maxLen);
      Slugify(r, maxLen) == r <==> (|r| == 0 || r[|r| - 1] != '-')
  {
    var r := Slugify(text, maxLen);
    SlugifyShape(text, maxLen);
    if |r| == 0 || r[|r| - 1] != '-' {
      SlugifyFixpoint(r, maxLen);
    } else {
      LowerOfSlugChars(r);
      CollapseOfSlugChars(r);
      assert TrimStart(r) == r;
      assert |TrimEnd(r)| < |r|;
      assert |Slugify(r, maxLen)| < |r|;
    }
  }

  /** A drop of leading separators that stops inside `x` does not look at what follows. */
  lemma {:induction false} DropSeparatorsAppend(x: string, w: string)
    requires |x| > 0 && IsSlugAlnum(x[|x| - 1])
    ensures DropSeparators(x + w) == DropSeparators(x) + w
    decreases |x|
  {
    assert (x + w)[0] == x[0];
    if !IsSlugAlnum(x[0]) {
      assert (x + w)[1..] == x[1..] + w;
      DropSeparatorsAppend(x[1..], w);
    }
  }

  /** Dropping a whole separator run lands on what follows it. */
  lemma {:induction false} DropSeparatorsOfRun(sep: string, v: string)
    requires NoAlnum(sep)
    requires |v| == 0 || IsSlugAlnum(v[0])
    ensures DropSeparators(sep + v) == v
    decreases |sep|
  {
    if |sep| > 0 {
      assert (sep + v)[0] == sep[0];
      assert (sep + v)[1..] == sep[1..] + v;
      DropSeparatorsOfRun(sep[1..], v);
    } else {
      assert sep + v == v;
    }
  }

  /** Collapsing works piecewise across a boundary that follows a letter or digit: no run of
      separators straddles it. */
  lemma {:induction false} CollapseAppend(u: string, w: string)
    requires |u| == 0 || IsSlugAlnum(u[|u| - 1])
    ensures Collapse(u + w) == Collapse(u) + Collapse(w)
    decreases |u|
  {
    if |u| == 0 {
      assert u + w == w;
    } else if IsSlugAlnum(u[0]) {
      CollapseAppend(u[1..], w);
      CollapseOfAlnumHead(u, w);
      ConsAssociates(u[0], Collapse(u[1..]), Collapse(w));
    } else {
      var x := u[1..];
      assert x[|x| - 1] == u[|u| - 1];
      DropSeparatorsAppend(x, w);
      var d := DropSeparators(x);
      assert |d| > 0;
      assert d[|d| - 1] == x[|x| - 1];
      CollapseAppend(d, w);
      CollapseOfSeparatorHead(u, w);
      ConsAssociates('-', Collapse(d), Collapse(w));
    }
  }

  /** Unfolding `Collapse` once on `u + w` when `u` starts with a letter or digit. */
  lemma CollapseOfAlnumHead(u: string, w: string)
    requires |u| > 0 && IsSlugAlnum(u[0])
    ensures Collapse(u + w) == [u[0]] + Collapse(u[1..] + w)
  {
    var t := u + w;
    assert t[0] == u[0];
    assert t[1..] == u[1..] + w;
  }

  lemma ConsAssociates(c: char, a: string, b: string)
    ensures [c] + (a + b) == ([c] + a) + b
  {
  }

  /** Unfolding `Collapse` once on `u + w` when `u` starts with a separator. */
  lemma CollapseOfSeparatorHead(u: string, w: string)
    requires |u| > 0 && !IsSlugAlnum(u[0])
    ensures Collapse(u + w) == ['-'] + Collapse(DropSeparators(u[1..] + w))
  {
    var t := u + w;
    assert t[0] == u[0];
    assert t[1..] == u[1..] + w;
  }

  /** A run of separators followed by a word start collapses to a single leading hyphen. */
  lemma {:induction false} CollapseOfRun(sep: string, v: string)
    requires |sep| > 0 && NoAlnum(sep)
    requires |v| == 0 || IsSlugAlnum(v[0])
    ensures Collapse(sep + v) == "-" + Collapse(v)
  {
    var t := sep + v;
    assert t[0] == sep[0];
    assert t[1..] == sep[1..] + v;
    DropSeparatorsOfRun(sep[1..], v);
  }

  /** `/[^a-z0-9]+/g -> "-"`: a run of separators between a word end and a word start becomes
      exactly one hyphen, whatever its length. */
  lemma {:induction false} CollapseSeparatorRun(u: string, sep: string, v: string)
    requires |u| == 0 || IsSlugAlnum(u[|u| - 1])
    requires |sep| > 0 && NoAlnum(sep)
    requires |v| == 0 || IsSlugAlnum(v[0])
    ensures Collapse(u + (sep + v)) == Collapse(u) + ("-" + Collapse(v))
  {
    CollapseOfRun(sep, v);
    CollapseAppend(u, sep + v);
  }

  /** Letters and digits only: one word of a prompt, already lowercase. */
  predicate IsWord(w: string) {
    |w| > 0 && forall i :: 0 <= i < |w| ==> IsSlugAlnum(w[i])
  }

  /** Spaces and punctuation: neither a letter of either case nor a digit. */
  predicate IsPunctuation(s: string) {
    |s| > 0 && forall i :: 0 <= i < |s| ==> !IsSlugAlnum(s[i]) && !('A' <= s[i] <= 'Z')
  }

  lemma LowerWithoutCapitals(s: string)
    requires forall i :: 0 <= i < |s| ==> !('A' <= s[i] <= 'Z')
    ensures Lower(s) == s
  {
  }

  lemma {:induction false} TrimEndOneHyphen(w: string)
    requires |w| > 0 && w[|w| - 1] != '-'
    ensures TrimEnd(w + "-") == w
  {
    assert (w + "-")[..|w + "-"| - 1] == w;
  }

  lemma TwoWordCollapse(w1: string, sep: string, w2: string, trail: string)
    requires IsWord(w1) && IsWord(w2) && IsPunctuation(sep) && IsPunctuation(trail)
    ensures Collapse(w1 + (sep + (w2 + trail))) == w1 + ("-" + (w2 + "-"))
  {
    CollapseOfSlugChars(w1);
    CollapseOfSlugChars(w2);
    assert Collapse("") == "";
    CollapseSeparatorRun(w2, trail, "");
    assert trail + "" == trail;
    CollapseSeparatorRun(w1, sep, w2 + trail);
  }

  /** Two words, a run of punctuation between them and another after them: the inner run
      becomes one hyphen and the trailing one disappears, as `hero banner!!` gives
      `hero-banner`. */
  lemma TwoWordSlug(w1: string, sep: string, w2: string, trail: string, maxLen: nat)
    requires IsWord(w1) && IsWord(w2) && IsPunctuation(sep) && IsPunctuation(trail)
    requires |w1| + 1 + |w2| <= maxLen
    ensures Slugify(w1 + (sep + (w2 + trail)), maxLen) == w1 + "-" + w2
  {
    var text := w1 + (sep + (w2 + trail));
    LowerWithoutCapitals(text);
    TwoWordCollapse(w1, sep, w2, trail);
    var c := w1 + ("-" + (w2 + "-"));
    var n := w1 + "-" + w2;
    assert c == n + "-";
    assert c[0] == w1[0];
    assert TrimStart(c) == c;
    TrimEndOneHyphen(n);
  }

  /** The cut can leave a trailing hyphen: a word of `maxLen - 1` letters or digits, a space
      and a further word slugify to the first word followed by `-`. With the default length
      this is any 44-character word. */
  lemma TruncationCanLeaveHyphen(w: string, x: string, maxLen: nat)
    requires |w| + 1 == maxLen && IsWord(w) && IsWord(x)
    ensures Slugify(w + " " + x, maxLen) == w + "-"
  {
    assert w + " " + x == w + (" " + x);
    SpacedWordsNormalized(w, x);
    assert (w + ("-" + x))[..maxLen] == w + "-";
  }

  /** Two words with one space between them normalize to the words joined by `-`. */
  lemma SpacedWordsNormalized(w: string, x: string)
    requires IsWord(w) && IsWord(x)
    ensures Normalized(w + (" " + x)) == w + ("-" + x)
  {
    var text := w + (" " + x);
    LowerWithoutCapitals(text);
    SpacedWordsCollapse(w, x);
    var c := w + ("-" + x);
    assert c[0] == w[0];
    assert TrimStart(c) == c;
    assert c[|c| - 1] == x[|x| - 1];
  }

  lemma SpacedWordsCollapse(w: string, x: string)
    requires IsWord(w) && IsWord(x)
    ensures Collapse(w + (" " + x)) == w + ("-" + x)
  {
    CollapseOfSlugChars(w);
    CollapseOfSlugChars(x);
    CollapseSeparatorRun(w, " ", x);
  }
}
