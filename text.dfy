/** String handling of the contact-page script: the `\s` class of its
    regular expressions, `String.prototype.trim`, the collapsing of
    whitespace runs that prepares text for speech, and character counts. */
module Text {

  /** The characters JavaScript's `\s` matches and `trim` removes: the
      WhiteSpace and LineTerminator code points of ECMAScript. */
  predicate IsSpace(c: char) {
    c == '\t' || c == '\n' || c == '\U{000B}' || c == '\U{000C}' || c == '\r' || c == ' '
    || c == '\U{00A0}' || c == '\U{1680}' || ('\U{2000}' <= c <= '\U{200A}')
    || c == '\U{2028}' || c == '\U{2029}' || c == '\U{202F}' || c == '\U{205F}'
    || c == '\U{3000}' || c == '\U{FEFF}'
  }

  predicate AllSpace(s: string) {
    forall i :: 0 <= i < |s| ==> IsSpace(s[i])
  }

  predicate NoSpace(s: string) {
    forall i :: 0 <= i < |s| ==> !IsSpace(s[i])
  }

  /** The number of occurrences of `c` in `s`. */
  function Count(s: string, c: char): (n: nat)
    ensures n <= |s|
    ensures n == 0 <==> c !in s
  {
    if s == [] then 0
    else
      assert c in s <==> s[0] == c || c in s[1..];
      (if s[0] == c then 1 else 0) + Count(s[1..], c)
  }

  lemma {:induction false} CountConcat(a: string, b: string, c: char)
    ensures Count(a + b, c) == Count(a, c) + Count(b, c)
  {
    if a == [] {
      assert a + b == b;
    } else {
      assert (a + b)[0] == a[0] && (a + b)[1..] == a[1..] + b;
      CountConcat(a[1..], b, c);
    }
  }

  /** The length of the whitespace run at the start of `s`. */
  function LeadingSpace(s: string): (n: nat)
    ensures n <= |s| && AllSpace(s[..n])
    ensures n == |s| || !IsSpace(s[n])
  {
    if s != [] && IsSpace(s[0]) then
      var n := LeadingSpace(s[1..]);
      SpacePrefixStep(s, n + 1);
      n + 1
    else
      0
  }

  /** A whitespace character before a whitespace prefix of the rest. */
  lemma SpacePrefixStep(s: string, k: nat)
    requires 1 <= k <= |s| && IsSpace(s[0]) && AllSpace(s[1..][..k - 1])
    ensures AllSpace(s[..k])
  {
    forall j | 0 <= j < k ensures IsSpace(s[..k][j]) {
      if j > 0 {
        assert s[..k][j] == s[1..][..k - 1][j - 1];
      }
    }
  }

  /** The length of the whitespace run at the end of `s`. */
  function TrailingSpace(s: string): (n: nat)
    ensures n <= |s| && AllSpace(s[|s| - n..])
    ensures n == |s| || !IsSpace(s[|s| - n - 1])
  {
    if s != [] && IsSpace(s[|s| - 1]) then
      var n := TrailingSpace(s[..|s| - 1]);
      SpaceSuffixStep(s, |s| - 1 - n);
      n + 1
    else
      0
  }

  /** A whitespace character after a whitespace suffix of the rest. */
  lemma SpaceSuffixStep(s: string, k: nat)
    requires k < |s| && IsSpace(s[|s| - 1]) && AllSpace(s[..|s| - 1][k..])
    ensures AllSpace(s[k..])
  {
    forall j | 0 <= j < |s| - k ensures IsSpace(s[k..][j]) {
      if j < |s| - 1 - k {
        assert s[k..][j] == s[..|s| - 1][k..][j];
      }
    }
  }

  /** The leading run is the only all-whitespace prefix followed by a
      non-whitespace character or by nothing. */
  lemma LeadingSpaceIs(s: string, n: nat)
    requires n <= |s| && AllSpace(s[..n]) && (n == |s| || !IsSpace(s[n]))
    ensures LeadingSpace(s) == n
  {
    var m := LeadingSpace(s);
    forall j | 0 <= j < n ensures IsSpace(s[j]) {
      assert s[..n][j] == s[j];
    }
    forall j | 0 <= j < m ensures IsSpace(s[j]) {
      assert s[..m][j] == s[j];
    }
  }

  /** The trailing run is the only all-whitespace suffix preceded by a
      non-whitespace character or by nothing. */
  lemma TrailingSpaceIs(s: string, n: nat)
    requires n <= |s| && AllSpace(s[|s| - n..]) && (n == |s| || !IsSpace(s[|s| - n - 1]))
    ensures TrailingSpace(s) == n
  {
    var m := TrailingSpace(s);
    forall j | |s| - n <= j < |s| ensures IsSpace(s[j]) {
      assert s[|s| - n..][j - (|s| - n)] == s[j];
    }
    forall j | |s| - m <= j < |s| ensures IsSpace(s[j]) {
      assert s[|s| - m..][j - (|s| - m)] == s[j];
    }
  }

  /** `s` without its leading whitespace: the longest all-whitespace prefix is dropped. */
  function TrimStart(s: string): (r: string)
    ensures |r| <= |s| && r == s[|s| - |r|..]
    ensures AllSpace(s[..|s| - |r|])
    ensures r == [] || !IsSpace(r[0])
  {
    s[LeadingSpace(s)..]
  }

  /** `s` without its trailing whitespace: the longest all-whitespace suffix is dropped. */
  function TrimEnd(s: string): (r: string)
    ensures |r| <= |s| && r == s[..|r|]
    ensures AllSpace(s[|r|..])
    ensures r == [] || !IsSpace(r[|r| - 1])
  {
    s[..|s| - TrailingSpace(s)]
  }

  /** `s.trim()`: the result neither starts nor ends with whitespace, and
      TrimSplit shows how `s` frames it. */
  function Trim(s: string): (r: string)
    ensures |r| <= |s|
    ensures r == [] || (!IsSpace(r[0]) && !IsSpace(r[|r| - 1]))
  {
    TrimEnd(TrimStart(s))
  }

  /** `s` is the trimmed text with whitespace before and after it. */
  lemma TrimSplit(s: string) returns (i: nat)
    ensures i + |Trim(s)| <= |s| && Trim(s) == s[i..i + |Trim(s)|]
    ensures AllSpace(s[..i]) && AllSpace(s[i + |Trim(s)|..])
    ensures s == s[..i] + Trim(s) + s[i + |Trim(s)|..]
  {
    var t := TrimStart(s);
    var r := TrimEnd(t);
    i := |s| - |t|;
    assert s[i + |r|..] == t[|r|..];
    SplitThree(s, i, i + |r|);
  }

  lemma SplitThree(s: string, i: nat, j: nat)
    requires i <= j <= |s|
    ensures s == s[..i] + s[i..j] + s[j..]
  {
  }

  lemma TrimEmptyIff(s: string)
    ensures Trim(s) == [] <==> AllSpace(s)
  {
    var i := TrimSplit(s);
    if Trim(s) == [] {
      assert s == s[..i] + s[i..];
    } else {
      assert !IsSpace(s[i]);
    }
  }

  /** The whitespace-free characters of `s`, in their order. */
  function Visible(s: string): string {
    if s == [] then [] else (if IsSpace(s[0]) then [] else [s[0]]) + Visible(s[1..])
  }

  lemma {:induction false} VisibleConcat(a: string, b: string)
    ensures Visible(a + b) == Visible(a) + Visible(b)
  {
    if a != [] {
      var h := if IsSpace(a[0]) then [] else [a[0]];
      calc {
        Visible(a + b);
        { assert (a + b)[0] == a[0] && (a + b)[1..] == a[1..] + b; }
        h + Visible(a[1..] + b);
        { VisibleConcat(a[1..], b); }
        h + Visible(a[1..]) + Visible(b);
      }
    } else {
      assert a + b == b;
    }
  }

  lemma {:induction false} VisibleOfSpace(a: string)
    requires AllSpace(a)
    ensures Visible(a) == []
  {
    if a != [] {
      VisibleOfSpace(a[1..]);
    }
  }

  /** Whitespace around a text adds no visible character. */
  lemma VisibleFramed(before: string, r: string, after: string)
    requires AllSpace(before) && AllSpace(after)
    ensures Visible(before + r + after) == Visible(r)
  {
    VisibleConcat(before + r, after);
    VisibleConcat(before, r);
    VisibleOfSpace(before);
    VisibleOfSpace(after);
  }

  /** `trim` of a text framed by whitespace is the text, when the text
      starts and ends with a non-whitespace character. */
  lemma TrimFramed(before: string, r: string, after: string)
    requires AllSpace(before) && AllSpace(after)
    requires r != [] && !IsSpace(r[0]) && !IsSpace(r[|r| - 1])
    ensures Trim(before + r + after) == r
  {
    var s := before + r + after;
    assert s[..|before|] == before && s[|before|] == r[0];
    LeadingSpaceIs(s, |before|);
    var t := r + after;
    assert TrimStart(s) == t;
    assert t[|t| - |after|..] == after && t[|t| - |after| - 1] == r[|r| - 1];
    TrailingSpaceIs(t, |after|);
    assert TrimEnd(t) == r;
  }

  /** A text ending in a non-whitespace character loses nothing at its end to `trim`. */
  lemma TrimStartOnly(x: string) returns (i: nat)
    requires x != [] && !IsSpace(x[|x| - 1])
    ensures i < |x| && AllSpace(x[..i]) && x == x[..i] + Trim(x)
    ensures Trim(x) != [] && Trim(x)[|Trim(x)| - 1] == x[|x| - 1]
  {
    i := TrimSplit(x);
    var tx := Trim(x);
    var ax := x[i + |tx|..];
    TrimEmptyIff(x);
    assert !AllSpace(x);
    assert x == x[..i] + tx;
  }

  /** A text starting with a non-whitespace character loses nothing at its start to `trim`. */
  lemma TrimEndOnly(y: string) returns (j: nat)
    requires y != [] && !IsSpace(y[0])
    ensures |Trim(y)| <= j <= |y| && AllSpace(y[j..]) && y == Trim(y) + y[j..]
    ensures Trim(y) != [] && Trim(y)[0] == y[0]
  {
    var i := TrimSplit(y);
    var ty := Trim(y);
    TrimEmptyIff(y);
    assert !AllSpace(y);
    j := i + |ty|;
    assert y[..i] == [];
    assert y == ty + y[j..];
  }

  /** Two words joined by one space: `trim` works on the outer ends only. */
  lemma TrimJoin(x: string, y: string)
    requires x != [] && !IsSpace(x[|x| - 1]) && y != [] && !IsSpace(y[0])
    ensures Trim(x + " " + y) == Trim(x) + " " + Trim(y)
  {
    var i := TrimStartOnly(x);
    var j := TrimEndOnly(y);
    var r := Trim(x) + " " + Trim(y);
    assert x + " " + y == x[..i] + r + y[j..];
    assert r[0] == Trim(x)[0] && r[|r| - 1] == Trim(y)[|Trim(y)| - 1];
    TrimFramed(x[..i], r, y[j..]);
  }

  /** Trimming removes whitespace only. */
  lemma TrimKeepsVisible(s: string)
    ensures Visible(Trim(s)) == Visible(s)
  {
    var r := Trim(s);
    var i := TrimSplit(s);
    VisibleFramed(s[..i], r, s[i + |r|..]);
  }

  /** Every whitespace character of `r` is a U+0020 with no whitespace next to it. */
  predicate SingleSpaced(r: string) {
    (forall i :: 0 <= i < |r| && IsSpace(r[i]) ==> r[i] == ' ')
    && (forall i :: 0 <= i < |r| - 1 && IsSpace(r[i]) ==> !IsSpace(r[i + 1]))
  }

  lemma SingleSpacedSlice(r: string, i: nat, j: nat)
    requires i <= j <= |r| && SingleSpaced(r)
    ensures SingleSpaced(r[i..j])
  {
    var t := r[i..j];
    forall k | 0 <= k < |t| - 1 && IsSpace(t[k]) ensures !IsSpace(t[k + 1]) {
      assert t[k] == r[i + k] && t[k + 1] == r[i + k + 1];
    }
  }

  lemma TrimKeepsSingleSpaced(s: string)
    requires SingleSpaced(s)
    ensures SingleSpaced(Trim(s))
  {
    var r := Trim(s);
    var i := TrimSplit(s);
    SingleSpacedSlice(s, i, i + |r|);
    assert r == s[i..i + |r|];
  }

  /** `s.replace(/\s+/g, " ")`: each maximal run of whitespace becomes one U+0020. */
  function CollapseRuns(s: string): (r: string)
    ensures |r| <= |s|
    ensures r == [] <==> s == []
    ensures r != [] ==> (IsSpace(r[0]) <==> IsSpace(s[0]))
    decreases |s|
  {
    if s == [] then []
    else if IsSpace(s[0]) then
      var t := TrimStart(s);
      assert |t| < |s|;
      " " + CollapseRuns(t)
    else [s[0]] + CollapseRuns(s[1..])
  }

  /** What collapsing promises: runs became single spaces, and the other
      characters are kept, in order. */
  lemma {:induction false} CollapseRunsSpec(s: string)
    ensures SingleSpaced(CollapseRuns(s))
    ensures Visible(CollapseRuns(s)) == Visible(s)
    decreases |s|
  {
    if s == [] {
    } else if IsSpace(s[0]) {
      var t := TrimStart(s);
      assert |t| < |s|;
      CollapseRunsSpec(t);
      var c := CollapseRuns(t);
      var r := " " + c;
      assert r == CollapseRuns(s);
      forall k | 0 <= k < |r| - 1 && IsSpace(r[k]) ensures !IsSpace(r[k + 1]) {
        if k > 0 {
          assert r[k] == c[k - 1] && r[k + 1] == c[k];
        }
      }
      assert s == s[..|s| - |t|] + t;
      VisibleConcat(s[..|s| - |t|], t);
      VisibleOfSpace(s[..|s| - |t|]);
      assert Visible(r) == Visible(" ") + Visible(c) by { VisibleConcat(" ", c); }
    } else {
      CollapseRunsSpec(s[1..]);
      var c := CollapseRuns(s[1..]);
      var r := [s[0]] + c;
      assert r == CollapseRuns(s);
      forall k | 0 <= k < |r| - 1 && IsSpace(r[k]) ensures !IsSpace(r[k + 1]) {
        assert r[k] == c[k - 1] && r[k + 1] == c[k];
      }
      forall k | 0 <= k < |r| && IsSpace(r[k]) ensures r[k] == ' ' {
        assert r[k] == c[k - 1];
      }
      VisibleConcat([s[0]], c);
    }
  }

  /** An all-whitespace run collapses to one U+0020. */
  lemma CollapseRunsOfRun(w: string)
    requires w != [] && AllSpace(w)
    ensures CollapseRuns(w) == " "
  {
    TrimStartOfRun(w, []);
    assert w + [] == w;
  }

  /** Collapsing distributes over a concatenation that does not cut a
      whitespace run in two. */
  lemma {:induction false} CollapseRunsConcat(a: string, b: string)
    requires a == [] || b == [] || !IsSpace(a[|a| - 1]) || !IsSpace(b[0])
    ensures CollapseRuns(a + b) == CollapseRuns(a) + CollapseRuns(b)
    decreases |a|
  {
    if a == [] {
      assert a + b == b;
    } else if b == [] {
      assert a + b == a;
    } else if !IsSpace(a[0]) {
      CollapseRunsHeadWord(a, b);
      CollapseRunsConcat(a[1..], b);
    } else if LeadingSpace(a) < |a| {
      var t := CollapseRunsHeadRun(a, b);
      CollapseRunsConcat(t, b);
    } else {
      assert a[..|a|] == a;
      CollapseRunsAfterRun(a, b);
    }
  }

  /** Collapsing a text that starts with a non-whitespace character, with and without a tail. */
  lemma CollapseRunsHeadWord(a: string, b: string)
    requires a != [] && !IsSpace(a[0])
    ensures a[1..] == [] || a[1..][|a[1..]| - 1] == a[|a| - 1]
    ensures CollapseRuns(a[1..] + b) == CollapseRuns(a[1..]) + CollapseRuns(b) ==>
      CollapseRuns(a + b) == CollapseRuns(a) + CollapseRuns(b)
  {
    assert (a + b)[0] == a[0] && (a + b)[1..] == a[1..] + b;
    assert CollapseRuns(a + b) == [a[0]] + CollapseRuns(a[1..] + b);
    assert CollapseRuns(a) == [a[0]] + CollapseRuns(a[1..]);
  }

  /** Collapsing a text that starts with a whitespace run and goes on, with and without a tail. */
  lemma CollapseRunsHeadRun(a: string, b: string) returns (t: string)
    requires a != [] && IsSpace(a[0]) && LeadingSpace(a) < |a|
    ensures t != [] && |t| < |a| && t[|t| - 1] == a[|a| - 1]
    ensures CollapseRuns(t + b) == CollapseRuns(t) + CollapseRuns(b) ==>
      CollapseRuns(a + b) == CollapseRuns(a) + CollapseRuns(b)
  {
    t := TrimStart(a);
    assert (a + b)[0] == a[0];
    TrimStartConcat(a, b);
    assert CollapseRuns(a + b) == " " + CollapseRuns(t + b);
    assert CollapseRuns(a) == " " + CollapseRuns(t);
  }

  /** A whitespace run before a non-whitespace character collapses on its own. */
  lemma CollapseRunsAfterRun(a: string, b: string)
    requires a != [] && AllSpace(a) && b != [] && !IsSpace(b[0])
    ensures CollapseRuns(a + b) == CollapseRuns(a) + CollapseRuns(b)
  {
    assert (a + b)[0] == a[0];
    TrimStartOfRun(a, b);
    TrimStartOfRun(a, []);
    assert a + [] == a;
  }

  /** Text that does not start with whitespace, after some, is what `trimStart` leaves. */
  lemma TrimStartOfRun(w: string, b: string)
    requires AllSpace(w) && (b == [] || !IsSpace(b[0]))
    ensures TrimStart(w + b) == b
  {
    var s := w + b;
    assert s[..|w|] == w;
    assert |w| < |s| ==> s[|w|] == b[0];
    LeadingSpaceIs(s, |w|);
  }

  /** Text that is not all whitespace keeps what follows it when trimmed at the start. */
  lemma TrimStartConcat(a: string, b: string)
    requires LeadingSpace(a) < |a|
    ensures TrimStart(a + b) == TrimStart(a) + b
  {
    var n := LeadingSpace(a);
    var s := a + b;
    assert s[..n] == a[..n];
    assert s[n] == a[n];
    LeadingSpaceIs(s, n);
    DropConcat(a, b, n);
  }

  lemma DropConcat(a: string, b: string, n: nat)
    requires n <= |a|
    ensures (a + b)[n..] == a[n..] + b
  {
  }

  /** A text ending in a non-whitespace character collapses to a text ending in it. */
  lemma CollapseRunsLast(a: string)
    requires a != [] && !IsSpace(a[|a| - 1])
    ensures CollapseRuns(a) != [] && CollapseRuns(a)[|CollapseRuns(a)| - 1] == a[|a| - 1]
  {
    var x := a[|a| - 1];
    assert a == a[..|a| - 1] + [x];
    CollapseRunsConcat(a[..|a| - 1], [x]);
    assert [x][1..] == [];
    assert CollapseRuns([x]) == [x];
  }

  /** `t.replace(/\s+/g, " ").trim()`, the speech text of an element. */
  function NormalizeSpace(s: string): (r: string)
    ensures r == [] || (!IsSpace(r[0]) && !IsSpace(r[|r| - 1]))
    ensures SingleSpaced(r)
    ensures Visible(r) == Visible(s)
  {
    var c := CollapseRuns(s);
    CollapseRunsSpec(s);
    TrimKeepsVisible(c);
    TrimKeepsSingleSpaced(c);
    Trim(c)
  }

  /** A single-spaced text that starts with whitespace starts with one U+0020
      followed by a non-whitespace character or nothing. */
  lemma SingleSpaceHead(r: string)
    requires SingleSpaced(r) && r != [] && IsSpace(r[0])
    ensures r[0] == ' ' && (r[1..] == [] || !IsSpace(r[1..][0]))
  {
    if |r| > 1 {
      assert r[1..][0] == r[1];
    }
  }

  /** Text that is already single-spaced is left as it is by collapsing. */
  lemma {:induction false} CollapseRunsFixes(r: string)
    requires SingleSpaced(r)
    ensures CollapseRuns(r) == r
    decreases |r|
  {
    if r != [] {
      var u := r[1..];
      SingleSpacedSlice(r, 1, |r|);
      CollapseRunsFixes(u);
      assert r == [r[0]] + u;
      if IsSpace(r[0]) {
        SingleSpaceHead(r);
        assert TrimStart(r) == TrimStart(u) == u;
      }
    }
  }

  /** Text without whitespace at either end is left as it is by `trim`. */
  lemma TrimFixes(r: string)
    requires r == [] || (!IsSpace(r[0]) && !IsSpace(r[|r| - 1]))
    ensures Trim(r) == r
  {
  }

  /** Normalising twice is normalising once. */
  lemma NormalizeSpaceIdempotent(s: string)
    ensures NormalizeSpace(NormalizeSpace(s)) == NormalizeSpace(s)
  {
    var r := NormalizeSpace(s);
    CollapseRunsFixes(r);
    TrimFixes(r);
  }

  /** Words stay apart: the whitespace between two words, however long,
      becomes exactly one U+0020, and each side is normalised on its own. */
  lemma NormalizeSpaceJoin(a: string, w: string, b: string)
    requires w != [] && AllSpace(w)
    requires a != [] && !IsSpace(a[|a| - 1]) && b != [] && !IsSpace(b[0])
    ensures NormalizeSpace(a + w + b) == NormalizeSpace(a) + " " + NormalizeSpace(b)
  {
    assert a + w + b == a + (w + b);
    assert (w + b)[0] == w[0];
    CollapseRunsConcat(a, w + b);
    CollapseRunsConcat(w, b);
    CollapseRunsOfRun(w);
    CollapseRunsLast(a);
    var x, y := CollapseRuns(a), CollapseRuns(b);
    assert CollapseRuns(a + w + b) == x + " " + y;
    TrimJoin(x, y);
  }

  /** A word without whitespace is its own speech text. */
  lemma NormalizeSpaceOfWord(x: string)
    requires NoSpace(x)
    ensures NormalizeSpace(x) == x
  {
    CollapseRunsFixes(x);
    TrimFixes(x);
  }

  /** Text made only of whitespace has no speech text. */
  lemma NormalizeSpaceOfRun(w: string)
    requires AllSpace(w)
    ensures NormalizeSpace(w) == []
  {
    if w != [] {
      CollapseRunsOfRun(w);
      assert NormalizeSpace(w) == Trim(" ");
      TrimEmptyIff(" ");
    }
  }
}
