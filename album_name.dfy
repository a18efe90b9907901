/** `clean_album_name`: the folder-name normaliser, in both of its copies. Each
    copy is three regular-expression substitutions and a `strip()`:
      1. an anchored year marker and the whitespace after it is removed
         (`^[\[(]\d{4}[\])]\s*` in the package, `^\[\d{4}\]\s*` in the script);
      2. every `\(.*?\)` span is removed, leftmost first;
      3. every `\[.*?\]` span is removed, leftmost first;
      4. surrounding whitespace is stripped.
    `.` does not match a newline, so a span never crosses one. */
module AlbumName {
  import opened Text

  /** The package copy (artwork_embedder/utils.py) or the standalone script's copy. */
  datatype Variant = Package | Script

  /** `\d`, restricted to ASCII digits. */
  predicate IsDigit(c: char) {
    '0' <= c <= '9'
  }

  predicate OpensYear(v: Variant, c: char) {
    c == '[' || (v == Package && c == '(')
  }

  predicate ClosesYear(v: Variant, c: char) {
    c == ']' || (v == Package && c == ')')
  }

  /** The name starts with a year marker: in the package any of `[` `(` then four
      digits then any of `]` `)`, so `[1999)` counts; in the script only `[1999]`. */
  predicate HasYearPrefix(v: Variant, s: string) {
    && |s| >= 6
    && OpensYear(v, s[0])
    && IsDigit(s[1]) && IsDigit(s[2]) && IsDigit(s[3]) && IsDigit(s[4])
    && ClosesYear(v, s[5])
  }

  /** Substitution 1: the marker and the whitespace run after it. */
  function DropYearPrefix(v: Variant, s: string): (r: string)
    ensures !HasYearPrefix(v, s) ==> r == s
    ensures HasYearPrefix(v, s) ==> |r| <= |s| - 6 && r == s[|s| - |r|..]
    ensures HasYearPrefix(v, s) ==> forall i :: 6 <= i < |s| - |r| ==> IsSpace(s[i])
    ensures HasYearPrefix(v, s) && r != [] ==> !IsSpace(r[0])
  {
    if HasYearPrefix(v, s) then s[6..][LeadingSpaces(s[6..])..] else s
  }

  /** Where the lazy `.*?` followed by `close` first succeeds in `t`: the first
      `close`, provided no newline comes before it. */
  function FindClose(t: string, close: char): (r: Option<nat>)
    ensures r.Some? ==> r.value < |t| && t[r.value] == close
    ensures r.Some? ==> forall j :: 0 <= j < r.value ==> t[j] != close && t[j] != '\n'
    ensures r.None? ==> forall j :: 0 <= j < |t| && t[j] == close ==> exists k :: 0 <= k < j && t[k] == '\n'
    decreases |t|
  {
    if t == [] then None
    else if t[0] == close then Some(0)
    else if t[0] == '\n' then None
    else match FindClose(t[1..], close)
      case Some(j) => Some(j + 1)
      case None => None
  }

  /** `re.sub(open + ".*?" + close, "", s)`: scanning left to right, a span from an
      `open` to the first `close` after it (no newline between) is deleted and the
      scan resumes after it; an `open` without such a `close` is kept. */
  function StripSpans(s: string, open: char, close: char): (r: string)
    ensures |r| <= |s|
    decreases |s|
  {
    if s == [] then []
    else if s[0] == open && FindClose(s[1..], close).Some? then
      StripSpans(s[FindClose(s[1..], close).value + 2..], open, close)
    else [s[0]] + StripSpans(s[1..], open, close)
  }

  /** `clean_album_name(folder_name)` of the given copy. */
  function CleanAlbumName(v: Variant, s: string): (r: string)
    ensures IsStripped(r)
  {
    Strip(StripSpans(StripSpans(DropYearPrefix(v, s), '(', ')'), '[', ']'))
  }

  /** No `open` in `s` is followed by a `close` without a newline between them. */
  predicate NoSpan(s: string, open: char, close: char) {
    forall i, j :: 0 <= i < j < |s| && s[i] == open && s[j] == close ==>
      exists k :: i < k < j && s[k] == '\n'
  }

  /** The same as `NoSpan`, phrased so that it can be proved by induction: the lazy
      match fails at every `open`. */
  predicate SpanFree(s: string, open: char, close: char)
    decreases |s|
  {
    s == [] || ((s[0] == open ==> FindClose(s[1..], close).None?) && SpanFree(s[1..], open, close))
  }

  lemma {:induction false} SpanFreeIsNoSpan(s: string, open: char, close: char)
    requires SpanFree(s, open, close)
    ensures NoSpan(s, open, close)
    decreases |s|
  {
    if s != [] {
      SpanFreeIsNoSpan(s[1..], open, close);
      forall i, j | 0 <= i < j < |s| && s[i] == open && s[j] == close
        ensures exists k :: i < k < j && s[k] == '\n'
      {
        if i == 0 {
          assert s[1..][j - 1] == close;
          var k :| 0 <= k < j - 1 && s[1..][k] == '\n';
          assert s[k + 1] == '\n';
        } else {
          assert s[1..][i - 1] == open && s[1..][j - 1] == close;
          var k :| i - 1 < k < j - 1 && s[1..][k] == '\n';
          assert s[k + 1] == '\n';
        }
      }
    }
  }

  lemma {:induction false} SpanFreeSuffix(s: string, open: char, close: char, k: nat)
    requires SpanFree(s, open, close) && k <= |s|
    ensures SpanFree(s[k..], open, close)
    decreases k
  {
    if k > 0 {
      SpanFreeSuffix(s[1..], open, close, k - 1);
      assert s[1..][k - 1..] == s[k..];
    }
  }

  lemma {:induction false} NoClosePrefix(t: string, close: char, m: nat)
    requires FindClose(t, close).None? && m <= |t|
    ensures FindClose(t[..m], close).None?
    decreases |t|
  {
    if m > 0 && t[0] != close && t[0] != '\n' {
      NoClosePrefix(t[1..], close, m - 1);
      assert t[..m][1..] == t[1..][..m - 1];
    }
  }

  lemma {:induction false} SpanFreePrefix(s: string, open: char, close: char, m: nat)
    requires SpanFree(s, open, close) && m <= |s|
    ensures SpanFree(s[..m], open, close)
    decreases |s|
  {
    if m > 0 {
      assert s[..m][1..] == s[1..][..m - 1];
      if s[0] == open {
        NoClosePrefix(s[1..], close, m - 1);
      }
      SpanFreePrefix(s[1..], open, close, m - 1);
    }
  }

  lemma StripKeepsSpanFree(s: string, open: char, close: char)
    requires SpanFree(s, open, close)
    ensures SpanFree(Strip(s), open, close)
  {
    var a := LeadingSpaces(s);
    var t := s[a..];
    SpanFreeSuffix(s, open, close, a);
    SpanFreePrefix(t, open, close, |t| - TrailingSpaces(t));
  }

  /** Skipping characters that are neither newlines nor `close` keeps a failed
      lazy match failed. */
  lemma {:induction false} NoCloseSkip(u: string, close: char, k: nat)
    requires FindClose(u, close).None? && k <= |u|
    requires forall i :: 0 <= i < k ==> u[i] != '\n'
    ensures FindClose(u[k..], close).None?
    decreases k
  {
    if k > 0 {
      assert u[0] != close;
      NoCloseSkip(u[1..], close, k - 1);
      assert u[1..][k - 1..] == u[k..];
    }
  }

  /** Deleting spans of one kind never completes a span of another kind: a lazy
      match for `close2` that failed still fails afterwards. */
  lemma {:induction false} StripSpansKeepsNoClose(t: string, open: char, close: char, close2: char)
    requires open != '\n' && close != '\n'
    requires FindClose(t, close2).None?
    ensures FindClose(StripSpans(t, open, close), close2).None?
    decreases |t|
  {
    if t != [] && t[0] != '\n' {
      assert t[0] != close2;
      var rest := StripSpans(t[1..], open, close);
      if t[0] == open && FindClose(t[1..], close).Some? {
        var j := FindClose(t[1..], close).value;
        NoCloseSkip(t[1..], close2, j + 1);
        assert t[1..][j + 1..] == t[j + 2..];
        StripSpansKeepsNoClose(t[j + 2..], open, close, close2);
      } else {
        StripSpansKeepsNoClose(t[1..], open, close, close2);
        assert ([t[0]] + rest)[1..] == rest;
      }
    }
  }

  /** A substitution pass leaves no span of its own kind. */
  lemma {:induction false} StripSpansSpanFree(s: string, open: char, close: char)
    requires open != '\n' && close != '\n'
    ensures SpanFree(StripSpans(s, open, close), open, close)
    decreases |s|
  {
    if s != [] {
      if s[0] == open && FindClose(s[1..], close).Some? {
        StripSpansSpanFree(s[FindClose(s[1..], close).value + 2..], open, close);
      } else {
        var rest := StripSpans(s[1..], open, close);
        StripSpansSpanFree(s[1..], open, close);
        assert ([s[0]] + rest)[1..] == rest;
        if s[0] == open {
          StripSpansKeepsNoClose(s[1..], open, close, close);
        }
      }
    }
  }

  /** A substitution pass of one kind keeps the result of the other pass span-free. */
  lemma {:induction false} StripSpansKeepsSpanFree(s: string, open: char, close: char, open2: char, close2: char)
    requires open != '\n' && close != '\n'
    requires SpanFree(s, open2, close2)
    ensures SpanFree(StripSpans(s, open, close), open2, close2)
    decreases |s|
  {
    if s != [] {
      if s[0] == open && FindClose(s[1..], close).Some? {
        var j := FindClose(s[1..], close).value;
        SpanFreeSuffix(s, open2, close2, j + 2);
        StripSpansKeepsSpanFree(s[j + 2..], open, close, open2, close2);
      } else {
        var rest := StripSpans(s[1..], open, close);
        StripSpansKeepsSpanFree(s[1..], open, close, open2, close2);
        assert ([s[0]] + rest)[1..] == rest;
        if s[0] == open2 {
          StripSpansKeepsNoClose(s[1..], open, close, close2);
        }
      }
    }
  }

  lemma {:induction false} StripSpansSubsequence(s: string, open: char, close: char)
    ensures IsSubsequence(StripSpans(s, open, close), s)
    decreases |s|
  {
    if s != [] {
      if s[0] == open && FindClose(s[1..], close).Some? {
        var k := FindClose(s[1..], close).value + 2;
        StripSpansSubsequence(s[k..], open, close);
        SubsequenceSuffix(s, k);
        SubsequenceTransitive(StripSpans(s[k..], open, close), s[k..], s);
      } else {
        StripSpansSubsequence(s[1..], open, close);
        SubsequenceCons(s[0], StripSpans(s[1..], open, close), s[1..]);
        assert [s[0]] + s[1..] == s;
      }
    }
  }

  lemma {:induction false} StripSpansIdentity(s: string, open: char, close: char)
    requires SpanFree(s, open, close)
    ensures StripSpans(s, open, close) == s
    decreases |s|
  {
    if s != [] {
      StripSpansIdentity(s[1..], open, close);
    }
  }

  lemma {:induction false} NoOpenSpanFree(s: string, open: char, close: char)
    requires forall i :: 0 <= i < |s| ==> s[i] != open
    ensures SpanFree(s, open, close)
    decreases |s|
  {
    if s != [] {
      NoOpenSpanFree(s[1..], open, close);
    }
  }

  /** The normaliser only deletes characters. */
  lemma CleanAlbumNameSubsequence(v: Variant, s: string)
    ensures IsSubsequence(CleanAlbumName(v, s), s)
  {
    var y0 := DropYearPrefix(v, s);
    var y1 := StripSpans(y0, '(', ')');
    var y2 := StripSpans(y1, '[', ']');
    if HasYearPrefix(v, s) {
      var n := 6 + LeadingSpaces(s[6..]);
      assert y0 == s[n..];
      SubsequenceSuffix(s, n);
    } else {
      SubsequenceReflexive(s);
    }
    StripSpansSubsequence(y0, '(', ')');
    StripSpansSubsequence(y1, '[', ']');
    StripSubsequence(y2);
    SubsequenceTransitive(y1, y0, s);
    SubsequenceTransitive(y2, y1, s);
    SubsequenceTransitive(Strip(y2), y2, s);
  }

  lemma CleanAlbumNameSpanFree(v: Variant, s: string)
    ensures SpanFree(CleanAlbumName(v, s), '(', ')')
    ensures SpanFree(CleanAlbumName(v, s), '[', ']')
  {
    var y1 := StripSpans(DropYearPrefix(v, s), '(', ')');
    var y2 := StripSpans(y1, '[', ']');
    StripSpansSpanFree(DropYearPrefix(v, s), '(', ')');
    StripSpansKeepsSpanFree(y1, '[', ']', '(', ')');
    StripSpansSpanFree(y1, '[', ']');
    StripKeepsSpanFree(y2, '(', ')');
    StripKeepsSpanFree(y2, '[', ']');
  }

  /** After the call no `(` is followed by a `)`, and no `[` by a `]`, unless a
      newline lies between them. */
  lemma CleanAlbumNameLeavesNoSpans(v: Variant, s: string)
    ensures NoSpan(CleanAlbumName(v, s), '(', ')')
    ensures NoSpan(CleanAlbumName(v, s), '[', ']')
  {
    CleanAlbumNameSpanFree(v, s);
    SpanFreeIsNoSpan(CleanAlbumName(v, s), '(', ')');
    SpanFreeIsNoSpan(CleanAlbumName(v, s), '[', ']');
  }

  lemma {:induction false} NoCloseSpanFree(s: string, open: char, close: char)
    requires forall i :: 0 <= i < |s| ==> s[i] != close
    ensures SpanFree(s, open, close)
    decreases |s|
  {
    if s != [] {
      NoCloseSpanFree(s[1..], open, close);
    }
  }

  /** Without a year marker and without spans the name comes back merely stripped. */
  lemma CleanAlbumNameSpanFreeInput(v: Variant, s: string)
    requires !HasYearPrefix(v, s) && SpanFree(s, '(', ')') && SpanFree(s, '[', ']')
    ensures CleanAlbumName(v, s) == Strip(s)
  {
    StripSpansIdentity(s, '(', ')');
    StripSpansIdentity(s, '[', ']');
  }

  /** A name with no bracket of either kind comes back merely stripped. */
  lemma CleanAlbumNamePlain(v: Variant, s: string)
    requires forall i :: 0 <= i < |s| ==> s[i] != '(' && s[i] != ')' && s[i] != '[' && s[i] != ']'
    ensures CleanAlbumName(v, s) == Strip(s)
  {
    NoOpenSpanFree(s, '(', ')');
    NoOpenSpanFree(s, '[', ']');
    CleanAlbumNameSpanFreeInput(v, s);
  }

  /** A stripped, span-free name without a year marker is a fixed point. */
  lemma CleanAlbumNameFixpoint(v: Variant, y: string)
    requires IsStripped(y) && SpanFree(y, '(', ')') && SpanFree(y, '[', ']')
    requires !HasYearPrefix(v, y)
    ensures CleanAlbumName(v, y) == y
  {
    StripSpansIdentity(y, '(', ')');
    StripSpansIdentity(y, '[', ']');
    StripStripped(y);
  }

  /** Normalising a normalised name changes it exactly when it still starts with a
      year marker; both copies behave so. */
  lemma CleanAlbumNameIdempotentUnlessYear(v: Variant, s: string)
    ensures CleanAlbumName(v, CleanAlbumName(v, s)) == CleanAlbumName(v, s)
        <==> !HasYearPrefix(v, CleanAlbumName(v, s))
  {
    var y := CleanAlbumName(v, s);
    if HasYearPrefix(v, y) {
      var n := 6 + LeadingSpaces(y[6..]);
      var y0 := DropYearPrefix(v, y);
      assert y0 == y[n..];
      var y1 := StripSpans(y0, '(', ')');
      var y2 := StripSpans(y1, '[', ']');
      StripSpansSubsequence(y0, '(', ')');
      StripSpansSubsequence(y1, '[', ']');
      StripSubsequence(y2);
      SubsequenceTransitive(y2, y1, y0);
      SubsequenceTransitive(Strip(y2), y2, y0);
      SubsequenceLength(CleanAlbumName(v, y), y0);
    } else {
      CleanAlbumNameSpanFree(v, s);
      CleanAlbumNameFixpoint(v, y);
    }
  }

  /** The script's copy is idempotent: a leading `[YYYY]` would be a bracket span,
      and none survives. */
  lemma ScriptCleanAlbumNameIdempotent(s: string)
    ensures CleanAlbumName(Script, CleanAlbumName(Script, s)) == CleanAlbumName(Script, s)
  {
    var y := CleanAlbumName(Script, s);
    CleanAlbumNameSpanFree(Script, s);
    ScriptYearMarkerIsSpan(y);
    CleanAlbumNameIdempotentUnlessYear(Script, s);
  }

  /** An opening bracket with no closing one after it (before a newline) is kept,
      and the scan goes on with the next character. */
  lemma StripSpansUnclosedOpen(t: string, open: char, close: char)
    requires FindClose(t, close).None?
    ensures StripSpans([open] + t, open, close) == [open] + StripSpans(t, open, close)
  {
    assert ([open] + t)[1..] == t;
  }

  /** The script's year marker `[YYYY]` is itself a bracket span. */
  lemma ScriptYearMarkerIsSpan(y: string)
    ensures HasYearPrefix(Script, y) ==> !SpanFree(y, '[', ']')
  {
    if HasYearPrefix(Script, y) {
      assert y[1..][4] == ']';
    }
  }

  lemma {:induction false} StripSpansPlainPrefix(p: string, rest: string, open: char, close: char)
    requires forall i :: 0 <= i < |p| ==> p[i] != open
    ensures StripSpans(p + rest, open, close) == p + StripSpans(rest, open, close)
    decreases |p|
  {
    if p != [] {
      var s := p + rest;
      assert s[0] == p[0];
      assert s[1..] == p[1..] + rest;
      StripSpansPlainPrefix(p[1..], rest, open, close);
      calc {
        StripSpans(s, open, close);
        [s[0]] + StripSpans(s[1..], open, close);
        [p[0]] + (p[1..] + StripSpans(rest, open, close));
        { assert [p[0]] + p[1..] == p; }
        p + StripSpans(rest, open, close);
      }
    } else {
      assert p + rest == rest;
    }
  }

  lemma StripSpansSpan(q: string, rest: string, open: char, close: char)
    requires forall i :: 0 <= i < |q| ==> q[i] != close && q[i] != '\n'
    ensures StripSpans([open] + q + [close] + rest, open, close) == StripSpans(rest, open, close)
  {
    var s := [open] + q + [close] + rest;
    assert s[1..][|q|] == close;
    assert s[|q| + 2..] == rest;
  }

  /** Four ASCII digits. */
  predicate IsYear(d: string) {
    |d| == 4 && IsDigit(d[0]) && IsDigit(d[1]) && IsDigit(d[2]) && IsDigit(d[3])
  }

  /** A non-empty stripped title with no bracket of either kind. */
  predicate IsPlainTitle(w: string) {
    && w != [] && IsStripped(w)
    && forall i :: 0 <= i < |w| ==> w[i] != '(' && w[i] != ')' && w[i] != '[' && w[i] != ']'
  }

  lemma StripTrailingBlank(w: string)
    requires w != [] && IsStripped(w)
    ensures Strip(w + " ") == w
  {
    var s := w + " ";
    assert s[..|s| - 1] == w;
    assert TrailingSpaces(s) == 1;
    assert s[0] == w[0];
  }

  /** `[YYYY] Title (Annotation)` becomes `Title` in both copies. */
  lemma {:induction false} YearAndAnnotationRemoved(v: Variant, d: string, w: string, q: string)
    requires IsYear(d) && IsPlainTitle(w)
    requires forall i :: 0 <= i < |q| ==> q[i] != ')' && q[i] != '\n'
    ensures CleanAlbumName(v, "[" + d + "] " + w + " (" + q + ")") == w
  {
    var s := "[" + d + "] " + w + " (" + q + ")";
    assert HasYearPrefix(v, s);
    var t := " " + w + " (" + q + ")";
    assert s[6..] == t;
    assert t[1..] == w + " (" + q + ")";
    assert LeadingSpaces(t) == 1;
    var y0 := w + " " + (['('] + q + [')'] + "");
    assert DropYearPrefix(v, s) == y0;
    StripSpansPlainPrefix(w + " ", ['('] + q + [')'] + "", '(', ')');
    StripSpansSpan(q, "", '(', ')');
    StripSpansPlainPrefix(w + " ", "", '[', ']');
    assert w + " " + "" == w + " ";
    StripTrailingBlank(w);
  }

  /** The package also takes a mismatched `[YYYY)` for a year marker. */
  lemma MismatchedYearMarkerAtStart(d: string, w: string)
    requires IsYear(d) && IsPlainTitle(w)
    ensures CleanAlbumName(Package, "[" + d + ") " + w) == w
  {
    var m := "[" + d + ") " + w;
    assert HasYearPrefix(Package, m);
    assert m[6..] == " " + w && (" " + w)[1..] == w;
    assert LeadingSpaces(" " + w) == 1;
    assert DropYearPrefix(Package, m) == w;
    NoOpenSpanFree(w, '(', ')');
    StripSpansIdentity(w, '(', ')');
    NoOpenSpanFree(w, '[', ']');
    StripSpansIdentity(w, '[', ']');
    StripStripped(w);
  }

  /** No `(` and no `]`: neither substitution finds a span. */
  lemma CleanAlbumNameNoParenNoClose(v: Variant, s: string)
    requires forall i :: 0 <= i < |s| ==> s[i] != '(' && s[i] != ']'
    requires !HasYearPrefix(v, s) && IsStripped(s)
    ensures CleanAlbumName(v, s) == s
  {
    NoOpenSpanFree(s, '(', ')');
    NoCloseSpanFree(s, '[', ']');
    CleanAlbumNameSpanFreeInput(v, s);
    StripStripped(s);
  }

  /** `[YYYY) Title` holds no `(` and no `]`, and is stripped. */
  lemma MismatchedMarkerPlain(d: string, w: string)
    requires IsYear(d) && IsPlainTitle(w)
    ensures forall i :: 0 <= i < |"[" + d + ") " + w| ==> ("[" + d + ") " + w)[i] != '(' && ("[" + d + ") " + w)[i] != ']'
    ensures IsStripped("[" + d + ") " + w)
  {
    var m := "[" + d + ") " + w;
    assert m[0] == '[' && m[|m| - 1] == w[|w| - 1];
    assert forall i :: 7 <= i < |m| ==> m[i] == w[i - 7];
  }

  /** The script keeps a mismatched `[YYYY)`, and the package keeps it after a
      plain title, with no paren before it. */
  lemma MismatchedYearMarkerKept(d: string, w: string, p: string)
    requires IsYear(d) && IsPlainTitle(w) && IsPlainTitle(p)
    ensures CleanAlbumName(Script, "[" + d + ") " + w) == "[" + d + ") " + w
    ensures CleanAlbumName(Package, p + " [" + d + ") " + w) == p + " [" + d + ") " + w
  {
    var m := "[" + d + ") " + w;
    assert m[5] == ')';
    MismatchedMarkerPlain(d, w);
    CleanAlbumNameNoParenNoClose(Script, m);
    var n := p + " " + m;
    assert n == p + " [" + d + ") " + w;
    assert n[0] == p[0] && n[|n| - 1] == m[|m| - 1];
    assert forall i :: 0 <= i < |p| ==> n[i] == p[i];
    assert forall i :: |p| + 1 <= i < |n| ==> n[i] == m[i - |p| - 1];
    CleanAlbumNameNoParenNoClose(Package, n);
  }

  /** A leading paren span that the year pattern does not take disappears, and
      what follows it is cleaned as usual: `(Live) Title` gives `Title`. */
  lemma LeadingParenSpanRemoved(v: Variant, q: string, m: string)
    requires forall i :: 0 <= i < |q| ==> q[i] != ')' && q[i] != '\n'
    requires !HasYearPrefix(v, ['('] + q + [')'] + m)
    ensures CleanAlbumName(v, ['('] + q + [')'] + m) == Strip(StripSpans(StripSpans(m, '(', ')'), '[', ']'))
    ensures (forall i :: 0 <= i < |m| ==> m[i] != '(' && m[i] != ']') ==>
      CleanAlbumName(v, ['('] + q + [')'] + m) == Strip(m)
  {
    var x := ['('] + q + [')'] + m;
    assert DropYearPrefix(v, x) == x;
    StripSpansSpan(q, m, '(', ')');
    if forall i :: 0 <= i < |m| ==> m[i] != '(' && m[i] != ']' {
      NoOpenSpanFree(m, '(', ')');
      StripSpansIdentity(m, '(', ')');
      NoCloseSpanFree(m, '[', ']');
      StripSpansIdentity(m, '[', ']');
    }
  }

  /** The package copy is not idempotent: a paren span in front of a mismatched
      marker hides the marker from the first call, and the second call strips it. */
  lemma PackageNotIdempotent(q: string, d: string, w: string)
    requires forall i :: 0 <= i < |q| ==> q[i] != ')' && q[i] != '\n'
    requires q == [] || !IsDigit(q[0])
    requires IsYear(d) && IsPlainTitle(w)
    ensures CleanAlbumName(Package, "(" + q + ")" + "[" + d + ") " + w) == "[" + d + ") " + w
    ensures CleanAlbumName(Package, "[" + d + ") " + w) == w
  {
    var m := "[" + d + ") " + w;
    var x := "(" + q + ")" + "[" + d + ") " + w;
    assert x == ['('] + q + [')'] + m;
    assert x[1] == if q == [] then ')' else q[0];
    assert !HasYearPrefix(Package, x);
    MismatchedMarkerPlain(d, w);
    LeadingParenSpanRemoved(Package, q, m);
    StripStripped(m);
    MismatchedYearMarkerAtStart(d, w);
  }

  lemma StripLeadingBlank(w: string)
    requires w != [] && IsStripped(w)
    ensures Strip(" " + w) == w
  {
    var s := " " + w;
    assert s[1..] == w;
    assert LeadingSpaces(s) == 1;
    assert s[|s| - 1] == w[|w| - 1];
  }

  /** `(YYYY) Title` becomes `Title` in both copies: the package drops it as a year
      marker, the script as an ordinary paren span. */
  lemma ParenYearRemoved(v: Variant, d: string, w: string)
    requires IsYear(d) && IsPlainTitle(w)
    ensures CleanAlbumName(v, "(" + d + ") " + w) == w
  {
    var s := "(" + d + ") " + w;
    var t := " " + w;
    assert s == ['('] + d + [')'] + t;
    assert forall i :: 0 <= i < |t| ==> t[i] != '(' && t[i] != '[';
    if v == Package {
      assert HasYearPrefix(Package, s);
      assert s[6..] == t && t[1..] == w;
      assert LeadingSpaces(t) == 1;
      assert DropYearPrefix(Package, s) == w;
      NoOpenSpanFree(w, '(', ')');
      StripSpansIdentity(w, '(', ')');
      NoOpenSpanFree(w, '[', ']');
      StripSpansIdentity(w, '[', ']');
      StripStripped(w);
    } else {
      assert !HasYearPrefix(Script, s);
      StripSpansSpan(d, t, '(', ')');
      NoOpenSpanFree(t, '(', ')');
      StripSpansIdentity(t, '(', ')');
      NoOpenSpanFree(t, '[', ']');
      StripSpansIdentity(t, '[', ']');
      StripLeadingBlank(w);
    }
  }

  /** The worked examples. */
  lemma CleanAlbumNameYearExample(v: Variant, d: string, w: string, q: string)
    requires d == "1999" && w == "Album" && q == "Deluxe"
    ensures CleanAlbumName(v, "[" + d + "] " + w + " (" + q + ")") == "Album"
  {
    YearAndAnnotationRemoved(v, d, w, q);
  }

  lemma PackageNotIdempotentExample(q: string, d: string, w: string)
    requires q == "b" && d == "1999" && w == "X"
    ensures CleanAlbumName(Package, "(" + q + ")" + "[" + d + ") " + w) == "[" + d + ") " + w
    ensures CleanAlbumName(Package, "[" + d + ") " + w) == "X"
  {
    PackageNotIdempotent(q, d, w);
  }
}
