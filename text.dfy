/**
 * String primitives of Python's `str` that the gatekeeping, fence extraction
 * and analysis code rely on: `in`, `find`, the first two pieces of `split`,
 * `strip()` with no argument, and `lower()` restricted to ASCII letters.
 */
module Text {

  datatype Option<T> = None | Some(value: T)

  /** The characters for which Python's `str.isspace()` holds, the set `strip()` removes. */
  predicate IsSpace(c: char) {
    || ('\t' <= c <= '\r')
    || ('\U{1C}' <= c <= '\U{1F}')
    || c == ' '
    || c == '\U{85}'
    || c == '\U{A0}'
    || c == '\U{1680}'
    || ('\U{2000}' <= c <= '\U{200A}')
    || c == '\U{2028}'
    || c == '\U{2029}'
    || c == '\U{202F}'
    || c == '\U{205F}'
    || c == '\U{3000}'
  }

  predicate AllSpace(s: string) {
    forall i :: 0 <= i < |s| ==> IsSpace(s[i])
  }

  // ---------------------------------------------------------------------
  // Substring search
  // ---------------------------------------------------------------------

  /** `pat` occurs in `s` starting at index `i`. */
  predicate OccursAt(s: string, pat: string, i: nat) {
    i + |pat| <= |s| && s[i..i + |pat|] == pat
  }

  /** Python's `pat in s`. */
  predicate Contains(s: string, pat: string) {
    exists i: nat | i <= |s| :: OccursAt(s, pat, i)
  }

  function FindFrom(s: string, pat: string, from: nat): (r: Option<nat>)
    ensures r.Some? ==> from <= r.value && OccursAt(s, pat, r.value)
    ensures r.Some? ==> forall j: nat :: from <= j < r.value ==> !OccursAt(s, pat, j)
    ensures r.None? ==> forall j: nat :: from <= j ==> !OccursAt(s, pat, j)
    decreases |s| - from
  {
    if from + |pat| > |s| then None
    else if s[from..from + |pat|] == pat then Some(from)
    else FindFrom(s, pat, from + 1)
  }

  /** Python's `s.find(pat)`: the first occurrence, if any. */
  function Find(s: string, pat: string): (r: Option<nat>)
    ensures r.Some? ==> OccursAt(s, pat, r.value)
    ensures r.Some? ==> forall j: nat :: j < r.value ==> !OccursAt(s, pat, j)
    ensures r.None? <==> !Contains(s, pat)
  {
    FindFrom(s, pat, 0)
  }

  /** The first occurrence is determined by the occurrence and the absence before it. */
  lemma FindIs(s: string, pat: string, i: nat)
    requires OccursAt(s, pat, i) && forall j: nat :: j < i ==> !OccursAt(s, pat, j)
    ensures Find(s, pat) == Some(i)
  {
    assert Contains(s, pat);
  }

  /** A first occurrence found in a prefix is the first occurrence in the whole string. */
  lemma FindInPrefix(t: string, s: string, pat: string, i: nat)
    requires |t| <= |s| && t == s[..|t|] && Find(t, pat) == Some(i)
    ensures Find(s, pat) == Some(i)
  {
    assert OccursAt(t, pat, i);
    SliceOfPrefix(s, |t|, i, i + |pat|);
    forall j: nat | j < i ensures !OccursAt(s, pat, j) {
      assert !OccursAt(t, pat, j);
      SliceOfPrefix(s, |t|, j, j + |pat|);
    }
    FindIs(s, pat, i);
  }

  /** A slice inside a prefix is the same slice of the whole string. */
  lemma SliceOfPrefix(s: string, n: nat, a: nat, b: nat)
    requires a <= b <= n <= |s|
    ensures s[..n][a..b] == s[a..b]
  {
  }

  /** Python's `s.split(sep)[0]`: everything before the first `sep`, or all of `s`. */
  function Before(s: string, sep: string): (r: string)
    requires sep != []
    ensures |r| <= |s| && r == s[..|r|]
    ensures Contains(s, sep) ==> Find(s, sep) == Some(|r|)
    ensures !Contains(s, sep) ==> r == s
    ensures !Contains(r, sep)
  {
    match Find(s, sep)
    case None => s
    case Some(i) =>
      PrefixBeforeFirst(s, sep, i);
      s[..i]
  }

  lemma PrefixBeforeFirst(s: string, sep: string, i: nat)
    requires sep != [] && i <= |s| && forall j: nat :: j < i ==> !OccursAt(s, sep, j)
    ensures !Contains(s[..i], sep)
  {
    forall j: nat | OccursAt(s[..i], sep, j) ensures false {
      assert s[j..j + |sep|] == s[..i][j..j + |sep|];
      assert OccursAt(s, sep, j);
    }
  }

  /** Everything after the first `sep`; `s.split(sep)[1]` is `Before(After(s, sep), sep)`. */
  function After(s: string, sep: string): (r: string)
    requires sep != [] && Contains(s, sep)
    ensures exists i: nat :: OccursAt(s, sep, i) && r == s[i + |sep|..]
    ensures Find(s, sep).Some? && r == s[Find(s, sep).value + |sep|..]
  {
    var i := Find(s, sep).value;
    s[i + |sep|..]
  }

  // ---------------------------------------------------------------------
  // strip()
  // ---------------------------------------------------------------------

  function TrimStart(s: string): string {
    if |s| > 0 && IsSpace(s[0]) then TrimStart(s[1..]) else s
  }

  /** Trimming the front leaves a suffix whose first character is not a space, after spaces only. */
  lemma {:induction false} TrimStartFacts(s: string)
    ensures var r := TrimStart(s);
            && |r| <= |s| && r == s[|s| - |r|..]
            && AllSpace(s[..|s| - |r|])
            && (|r| > 0 ==> !IsSpace(r[0]))
  {
    if |s| > 0 && IsSpace(s[0]) {
      var r := TrimStart(s[1..]);
      TrimStartFacts(s[1..]);
      assert s[1..][|s| - 1 - |r|..] == s[|s| - |r|..];
      SpaceHead(s, |s| - 1 - |r|);
    }
  }

  /** A space followed by a run of spaces is a run of spaces. */
  lemma SpaceHead(s: string, k: nat)
    requires k < |s| && IsSpace(s[0]) && AllSpace(s[1..][..k])
    ensures AllSpace(s[..k + 1])
  {
    forall i | 0 < i < k + 1 ensures IsSpace(s[i]) {
      assert s[i] == s[1..][..k][i - 1];
    }
  }

  function TrimEnd(s: string): string {
    if |s| > 0 && IsSpace(s[|s| - 1]) then TrimEnd(s[..|s| - 1]) else s
  }

  /** Trimming the back leaves a prefix whose last character is not a space, before spaces only. */
  lemma {:induction false} TrimEndFacts(s: string)
    ensures var r := TrimEnd(s);
            && |r| <= |s| && r == s[..|r|]
            && AllSpace(s[|r|..])
            && (|r| > 0 ==> !IsSpace(r[|r| - 1]))
  {
    if |s| > 0 && IsSpace(s[|s| - 1]) {
      var init := s[..|s| - 1];
      var r := TrimEnd(init);
      TrimEndFacts(init);
      assert init[..|r|] == s[..|r|];
      forall i | |r| <= i < |s| ensures IsSpace(s[i]) {
        if i < |s| - 1 {
          assert s[i] == init[|r|..][i - |r|];
        }
      }
    }
  }

  /** Python's `s.strip()`. */
  function Strip(s: string): (r: string)
    ensures |r| <= |s|
    ensures r == [] || (!IsSpace(r[0]) && !IsSpace(r[|r| - 1]))
    ensures r == [] <==> AllSpace(s)
    ensures exists i: nat :: OccursAt(s, r, i)
  {
    var t := TrimStart(s);
    var r := TrimEnd(t);
    TrimStartFacts(s);
    TrimEndFacts(t);
    TrimBothFacts(s, t, r);
    r
  }

  lemma TrimBothFacts(s: string, t: string, r: string)
    requires t == TrimStart(s) && r == TrimEnd(t) && |t| <= |s|
    ensures OccursAt(s, r, |s| - |t|)
    ensures r == [] <==> AllSpace(s)
  {
    TrimStartFacts(s);
    TrimEndFacts(t);
    var a := |s| - |t|;
    SplitFacts(s, a, t, r);
    if r == [] {
      assert AllSpace(t) by { assert t[|r|..] == t; }
      AllSpaceJoin(s[..a], t);
    }
  }

  lemma SplitFacts(s: string, a: nat, t: string, r: string)
    requires a <= |s| && t == s[a..] && |r| <= |t| && r == t[..|r|]
    requires |r| > 0 ==> !IsSpace(r[0])
    ensures OccursAt(s, r, a)
    ensures s == s[..a] + t
    ensures r != [] ==> !AllSpace(s)
  {
    assert s[a..a + |r|] == r;
    if r != [] {
      assert r[0] == s[a];
    }
  }

  lemma AllSpaceJoin(u: string, v: string)
    requires AllSpace(u) && AllSpace(v)
    ensures AllSpace(u + v)
  {
    forall i | 0 <= i < |u + v| ensures IsSpace((u + v)[i]) {
      if i < |u| { assert (u + v)[i] == u[i]; } else { assert (u + v)[i] == v[i - |u|]; }
    }
  }

  /** Stripping takes exactly the whitespace padding off a core with non-space ends. */
  lemma {:induction false} StripPadded(pre: string, core: string, post: string)
    requires AllSpace(pre) && AllSpace(post)
    requires core == [] || (!IsSpace(core[0]) && !IsSpace(core[|core| - 1]))
    ensures Strip(pre + core + post) == core
  {
    var s := pre + core + post;
    if core == [] {
      assert AllSpace(s) by {
        forall i | 0 <= i < |s| ensures IsSpace(s[i]) {
          if i < |pre| { assert s[i] == pre[i]; } else { assert s[i] == post[i - |pre|]; }
        }
      }
    } else {
      TrimStartPadded(pre, core + post);
      assert pre + core + post == pre + (core + post);
      TrimEndPadded(core, post);
    }
  }

  lemma {:induction false} TrimStartPadded(pre: string, rest: string)
    requires AllSpace(pre)
    requires rest != [] && !IsSpace(rest[0])
    ensures TrimStart(pre + rest) == rest
  {
    if pre != [] {
      assert (pre + rest)[1..] == pre[1..] + rest;
      TrimStartPadded(pre[1..], rest);
    }
  }

  lemma {:induction false} TrimEndPadded(rest: string, post: string)
    requires AllSpace(post)
    requires rest != [] && !IsSpace(rest[|rest| - 1])
    ensures TrimEnd(rest + post) == rest
  {
    if post != [] {
      assert (rest + post)[..|rest + post| - 1] == rest + post[..|post| - 1];
      TrimEndPadded(rest, post[..|post| - 1]);
    }
  }

  /** Stripping twice is stripping once. */
  lemma StripIdempotent(s: string)
    ensures Strip(Strip(s)) == Strip(s)
  {
    var r := Strip(s);
    StripPadded([], r, []);
    assert [] + r + [] == r;
  }

  /** A substring of a string without `pat` has no `pat` either. */
  lemma NoOccurrenceInInfix(s: string, t: string, k: nat, pat: string)
    requires OccursAt(s, t, k) && !Contains(s, pat)
    ensures !Contains(t, pat)
  {
    forall j: nat | OccursAt(t, pat, j) ensures false {
      assert t == s[k..k + |t|];
      forall m | 0 <= m < |pat| ensures s[k + j + m] == pat[m] {
        assert t[j..j + |pat|][m] == t[j + m];
      }
      assert s[k + j..k + j + |pat|] == pat;
      assert OccursAt(s, pat, k + j);
    }
  }

  // ---------------------------------------------------------------------
  // lower(), on ASCII letters
  // ---------------------------------------------------------------------

  function LowerChar(c: char): (d: char)
    ensures 'A' <= c <= 'Z' ==> d as int == c as int + 32
    ensures !('A' <= c <= 'Z') ==> d == c
  {
    if 'A' <= c <= 'Z' then (c as int + 32) as char else c
  }

  function Lower(s: string): (r: string)
    ensures |r| == |s|
    ensures forall i :: 0 <= i < |s| ==> r[i] == LowerChar(s[i])
  {
    seq(|s|, i requires 0 <= i < |s| => LowerChar(s[i]))
  }

  /** Lower-casing is idempotent and leaves every non-letter where it was. */
  lemma LowerIdempotent(s: string)
    ensures Lower(Lower(s)) == Lower(s)
  {
  }

  lemma LowerSlice(s: string, i: nat, j: nat)
    requires i <= j <= |s|
    ensures Lower(s[i..j]) == Lower(s)[i..j]
  {
  }
}
