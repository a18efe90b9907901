/** The few Python string built-ins the tool relies on (`in`, `lower`, `strip`,
    `replace`), written over `seq<char>`, plus the optional value every lookup
    returns. */
module Text {

  datatype Option<+T> = None | Some(value: T)

  /** Python truthiness of an optional string: `None` and `""` are both false. */
  predicate Truthy(o: Option<string>) {
    o.Some? && o.value != ""
  }

  /** What an f-string prints for an optional string: `None` prints as "None". */
  function Show(o: Option<string>): string {
    if o.Some? then o.value else "None"
  }

  /** Python's `str.isspace()`, which is also what `\s` matches in a `str` regex. */
  predicate IsSpace(c: char) {
    var n := c as int;
    (9 <= n <= 13) || (28 <= n <= 32) || n == 0x85 || n == 0xA0 || n == 0x1680
    || (0x2000 <= n <= 0x200A) || n == 0x2028 || n == 0x2029 || n == 0x202F
    || n == 0x205F || n == 0x3000
  }

  /** `str.lower()` restricted to ASCII letters. */
  function LowerChar(c: char): char {
    if 'A' <= c <= 'Z' then (c as int + 32) as char else c
  }

  function Lower(s: string): (r: string)
    ensures |r| == |s|
    ensures forall i :: 0 <= i < |s| ==> r[i] == LowerChar(s[i])
  {
    seq(|s|, i requires 0 <= i < |s| => LowerChar(s[i]))
  }

  /** Lowering twice is lowering once, so a lowered needle is its own lowering. */
  lemma LowerIdempotent(s: string)
    ensures Lower(Lower(s)) == Lower(s)
  {
  }

  predicate StartsWith(s: string, p: string) {
    |p| <= |s| && s[..|p|] == p
  }

  /** Python's `t in s` for strings: `t` occurs in `s` as a contiguous block. */
  predicate Contains(s: string, t: string)
    decreases |s|
  {
    StartsWith(s, t) || (|s| > 0 && Contains(s[1..], t))
  }

  lemma {:induction false} ContainsAt(s: string, t: string, i: nat)
    requires i + |t| <= |s| && s[i..i + |t|] == t
    ensures Contains(s, t)
    decreases i
  {
    if i > 0 {
      assert s[1..][i - 1..i - 1 + |t|] == s[i..i + |t|];
      ContainsAt(s[1..], t, i - 1);
    }
  }

  /** `Contains` means what it says: some window of `s` equals `t`. */
  lemma {:induction false} ContainsWitness(s: string, t: string) returns (i: nat)
    requires Contains(s, t)
    ensures i + |t| <= |s| && s[i..i + |t|] == t
    decreases |s|
  {
    if StartsWith(s, t) {
      i := 0;
    } else {
      var j := ContainsWitness(s[1..], t);
      i := j + 1;
      assert s[i..i + |t|] == s[1..][j..j + |t|];
    }
  }

  /** Number of whitespace characters at the front of `s`. */
  function LeadingSpaces(s: string): (n: nat)
    ensures n <= |s|
    ensures forall i :: 0 <= i < n ==> IsSpace(s[i])
    ensures n < |s| ==> !IsSpace(s[n])
    decreases |s|
  {
    if |s| > 0 && IsSpace(s[0]) then 1 + LeadingSpaces(s[1..]) else 0
  }

  /** Number of whitespace characters at the back of `s`. */
  function TrailingSpaces(s: string): (n: nat)
    ensures n <= |s|
    ensures forall i :: |s| - n <= i < |s| ==> IsSpace(s[i])
    ensures n < |s| ==> !IsSpace(s[|s| - 1 - n])
    decreases |s|
  {
    if |s| > 0 && IsSpace(s[|s| - 1]) then 1 + TrailingSpaces(s[..|s| - 1]) else 0
  }

  predicate IsStripped(s: string) {
    s == [] || (!IsSpace(s[0]) && !IsSpace(s[|s| - 1]))
  }

  /** `r` is the block of `s` starting at `a`, with only whitespace around it. */
  predicate Window(s: string, r: string, a: nat) {
    && a + |r| <= |s|
    && r == s[a..a + |r|]
    && (forall i :: 0 <= i < a ==> IsSpace(s[i]))
    && (forall i :: a + |r| <= i < |s| ==> IsSpace(s[i]))
  }

  /** `str.strip()`: the result neither starts nor ends with whitespace, and it
      is a contiguous part of `s` outside which there is only whitespace. */
  function Strip(s: string): (r: string)
    ensures IsStripped(r)
    ensures exists a: nat :: Window(s, r, a)
  {
    var a := LeadingSpaces(s);
    var t := s[a..];
    var r := t[..|t| - TrailingSpaces(t)];
    assert Window(s, r, a);
    r
  }

  lemma StripStripped(s: string)
    requires IsStripped(s)
    ensures Strip(s) == s
  {
  }

  /** `s.replace(pat, rep)`: every occurrence, leftmost first, non-overlapping. */
  function Replace(s: string, pat: string, rep: string): (r: string)
    requires |pat| > 0
    ensures !Contains(s, pat) ==> r == s
    ensures |pat| == |rep| ==> |r| == |s|
    decreases |s|
  {
    if |s| < |pat| then s
    else if s[..|pat|] == pat then rep + Replace(s[|pat|..], pat, rep)
    else [s[0]] + Replace(s[1..], pat, rep)
  }

  /** An occurrence of `pat` at the front becomes `rep`, and the scan goes on
      after it. */
  lemma ReplaceAtPattern(pat: string, s: string, rep: string)
    requires |pat| > 0
    ensures Replace(pat + s, pat, rep) == rep + Replace(s, pat, rep)
  {
    assert (pat + s)[..|pat|] == pat;
    assert (pat + s)[|pat|..] == s;
  }

  /** Text in which no occurrence of `pat` starts is copied unchanged, and the
      rest is replaced on its own. */
  lemma {:induction false} ReplaceCopiesUntil(a: string, s: string, pat: string, rep: string)
    requires |pat| > 0
    requires forall k :: 0 <= k < |a| ==> !StartsWith((a + s)[k..], pat)
    ensures Replace(a + s, pat, rep) == a + Replace(s, pat, rep)
    decreases |a|
  {
    var x := a + s;
    if a == [] {
      assert x == s;
    } else if |x| < |pat| {
      assert Replace(s, pat, rep) == s;
    } else {
      assert x[..|pat|] != pat by {
        assert !StartsWith(x[0..], pat);
        assert x[0..] == x;
      }
      assert x[1..] == a[1..] + s;
      forall k | 0 <= k < |a[1..]|
        ensures !StartsWith((a[1..] + s)[k..], pat)
      {
        assert (a[1..] + s)[k..] == x[k + 1..];
      }
      ReplaceCopiesUntil(a[1..], s, pat, rep);
      calc {
        Replace(x, pat, rep);
        [x[0]] + Replace(a[1..] + s, pat, rep);
        [a[0]] + (a[1..] + Replace(s, pat, rep));
        { assert a == [a[0]] + a[1..]; }
        a + Replace(s, pat, rep);
      }
    }
  }

  /** `a` can be obtained from `b` by deleting characters. */
  predicate IsSubsequence(a: string, b: string)
    decreases |b|
  {
    a == [] || (b != [] && ((a[0] == b[0] && IsSubsequence(a[1..], b[1..])) || IsSubsequence(a, b[1..])))
  }

  lemma {:induction false} SubsequenceLength(a: string, b: string)
    requires IsSubsequence(a, b)
    ensures |a| <= |b|
    decreases |b|
  {
    if a != [] {
      if a[0] == b[0] && IsSubsequence(a[1..], b[1..]) {
        SubsequenceLength(a[1..], b[1..]);
      } else {
        SubsequenceLength(a, b[1..]);
      }
    }
  }

  lemma {:induction false} SubsequenceTransitive(a: string, b: string, c: string)
    requires IsSubsequence(a, b) && IsSubsequence(b, c)
    ensures IsSubsequence(a, c)
    decreases |c|
  {
    if a != [] {
      assert b != [];
      if b[0] == c[0] && IsSubsequence(b[1..], c[1..]) {
        if a[0] == b[0] && IsSubsequence(a[1..], b[1..]) {
          SubsequenceTransitive(a[1..], b[1..], c[1..]);
        } else {
          SubsequenceTransitive(a, b[1..], c[1..]);
        }
      } else {
        SubsequenceTransitive(a, b, c[1..]);
      }
    }
  }

  lemma {:induction false} SubsequenceReflexive(s: string)
    ensures IsSubsequence(s, s)
    decreases |s|
  {
    if s != [] {
      SubsequenceReflexive(s[1..]);
    }
  }

  lemma {:induction false} SubsequenceCons(c: char, a: string, b: string)
    requires IsSubsequence(a, b)
    ensures IsSubsequence([c] + a, [c] + b)
  {
    assert ([c] + a)[1..] == a && ([c] + b)[1..] == b;
  }

  lemma {:induction false} SubsequenceSuffix(s: string, k: nat)
    requires k <= |s|
    ensures IsSubsequence(s[k..], s)
    decreases k
  {
    if k == 0 {
      SubsequenceReflexive(s);
    } else {
      SubsequenceSuffix(s[1..], k - 1);
      assert s[1..][k - 1..] == s[k..];
    }
  }

  lemma {:induction false} SubsequencePrefix(s: string, k: nat)
    requires k <= |s|
    ensures IsSubsequence(s[..k], s)
    decreases |s|
  {
    if k > 0 {
      SubsequencePrefix(s[1..], k - 1);
      assert s[..k][1..] == s[1..][..k - 1];
    }
  }

  lemma SubsequenceSlice(s: string, a: nat, b: nat)
    requires a <= b <= |s|
    ensures IsSubsequence(s[a..b], s)
  {
    SubsequencePrefix(s[a..], b - a);
    assert s[a..][..b - a] == s[a..b];
    SubsequenceSuffix(s, a);
    SubsequenceTransitive(s[a..b], s[a..], s);
  }

  /** `strip()` only deletes characters. */
  lemma StripSubsequence(s: string)
    ensures IsSubsequence(Strip(s), s)
  {
    var a := LeadingSpaces(s);
    var t := s[a..];
    var b := a + |t| - TrailingSpaces(t);
    assert Strip(s) == s[a..b];
    SubsequenceSlice(s, a, b);
  }

  /** A prefix of `replace`'s result that never shows the first character of the
      replacement was copied unchanged from the input. */
  lemma {:induction false} ReplacePrefixCopied(s: string, pat: string, rep: string, q: string)
    requires |pat| > 0 && |rep| > 0
    requires forall k :: 0 <= k < |q| ==> q[k] != rep[0]
    requires StartsWith(Replace(s, pat, rep), q)
    ensures StartsWith(s, q)
    decreases |s|
  {
    if |s| >= |pat| && q != [] {
      assert s[..|pat|] == pat ==> Replace(s, pat, rep)[0] == rep[0];
      if s[..|pat|] != pat {
        var t := Replace(s[1..], pat, rep);
        assert Replace(s, pat, rep) == [s[0]] + t;
        assert StartsWith(t, q[1..]);
        ReplacePrefixCopied(s[1..], pat, rep, q[1..]);
        assert s[..|q|] == [s[0]] + s[1..][..|q| - 1];
      }
    }
  }

  /** One character in front of a text without `pat` creates one only by starting it. */
  lemma NoPatAfterChar(c: char, t: string, pat: string)
    requires |pat| > 0
    requires !Contains(t, pat)
    requires !(c == pat[0] && StartsWith(t, pat[1..]))
    ensures !Contains([c] + t, pat)
  {
    assert ([c] + t)[1..] == t;
  }

  /** A replacement without the first character of `pat` in front of a text
      without `pat` does not create one. */
  lemma {:induction false} NoPatAfterRep(rep: string, t: string, pat: string)
    requires |pat| > 0
    requires forall k :: 0 <= k < |rep| ==> rep[k] != pat[0]
    requires !Contains(t, pat)
    ensures !Contains(rep + t, pat)
    decreases |rep|
  {
    if rep == [] {
      assert rep + t == t;
    } else {
      NoPatAfterRep(rep[1..], t, pat);
      assert rep + t == [rep[0]] + (rep[1..] + t);
      NoPatAfterChar(rep[0], rep[1..] + t, pat);
    }
  }

  /** After `s.replace(pat, rep)` no `pat` is left, provided a `pat` can neither
      start inside a replacement nor end in one. */
  lemma {:induction false} ReplaceRemovesAll(s: string, pat: string, rep: string)
    requires |pat| > 0 && |rep| > 0
    requires forall k :: 0 <= k < |rep| ==> rep[k] != pat[0]
    requires forall k :: 1 <= k < |pat| ==> pat[k] != rep[0]
    ensures !Contains(Replace(s, pat, rep), pat)
    decreases |s|
  {
    if |s| < |pat| {
      if Contains(s, pat) {
        var i := ContainsWitness(s, pat);
      }
    } else if s[..|pat|] == pat {
      ReplaceRemovesAll(s[|pat|..], pat, rep);
      NoPatAfterRep(rep, Replace(s[|pat|..], pat, rep), pat);
    } else {
      var t := Replace(s[1..], pat, rep);
      ReplaceRemovesAll(s[1..], pat, rep);
      if s[0] == pat[0] && StartsWith(t, pat[1..]) {
        ReplacePrefixCopied(s[1..], pat, rep, pat[1..]);
      }
      NoPatAfterChar(s[0], t, pat);
    }
  }

  /** Replacing one character by another maps every position on its own. */
  lemma {:induction false} ReplaceChar(s: string, c: char, d: char)
    ensures |Replace(s, [c], [d])| == |s|
    ensures forall i :: 0 <= i < |s| ==> Replace(s, [c], [d])[i] == (if s[i] == c then d else s[i])
    decreases |s|
  {
    if |s| > 0 {
      ReplaceChar(s[1..], c, d);
      var t := Replace(s[1..], [c], [d]);
      assert Replace(s, [c], [d]) == [if s[0] == c then d else s[0]] + t by {
        assert s[..1] == [s[0]];
      }
    }
  }

  /** A string made of whitespace strips to nothing. */
  lemma StripBlank(s: string)
    requires forall i :: 0 <= i < |s| ==> IsSpace(s[i])
    ensures Strip(s) == ""
  {
    assert LeadingSpaces(s) == |s|;
  }

  /** `strip()` keeps a contiguous block: the result occurs in its input. */
  lemma StripContained(s: string)
    ensures Contains(s, Strip(s))
  {
    var a: nat :| Window(s, Strip(s), a);
    ContainsAt(s, Strip(s), a);
  }
}
