/**
  The few Python string primitives the receipt pipeline's post-processing
  relies on, written as explicit character scans: `str.strip()`, slicing,
  `in` on strings, the first literal occurrence found by `re.search` of a
  plain pattern, and `str.replace(pat, "")`.
 */
module PyText {

  datatype Option<T> = None | Some(value: T)

  /** The characters `str.isspace()` accepts, which `str.strip()` removes. */
  predicate IsSpace(c: char) {
    ('\t' <= c <= '\r') || ('\U{1c}' <= c <= ' ') || c == '\U{85}' || c == '\U{a0}' ||
    c == '\U{1680}' || ('\U{2000}' <= c <= '\U{200a}') || c == '\U{2028}' || c == '\U{2029}' ||
    c == '\U{202f}' || c == '\U{205f}' || c == '\U{3000}'
  }

  /** Every character of `s[a..b]` is whitespace. */
  predicate SpaceBetween(s: string, a: int, b: int) {
    forall i | a <= i < b && 0 <= i < |s| :: IsSpace(s[i])
  }

  /** First index at or after `i` that does not hold whitespace. */
  function SkipSpace(s: string, i: nat): (k: nat)
    requires i <= |s|
    ensures i <= k <= |s| && SpaceBetween(s, i, k)
    ensures k < |s| ==> !IsSpace(s[k])
    decreases |s| - i
  {
    if i < |s| && IsSpace(s[i]) then SkipSpace(s, i + 1) else i
  }

  /** Smallest index `k >= lo` such that `s[k..j]` is all whitespace. */
  function SkipSpaceBack(s: string, lo: nat, j: nat): (k: nat)
    requires lo <= j <= |s|
    ensures lo <= k <= j && SpaceBetween(s, k, j)
    ensures k > lo ==> !IsSpace(s[k - 1])
    decreases j
  {
    if j > lo && IsSpace(s[j - 1]) then SkipSpaceBack(s, lo, j - 1) else j
  }

  /** Python's `s.strip()`: the longest whitespace prefix and suffix removed. */
  function Strip(s: string): (r: string)
    ensures |r| <= |s|
    ensures r == [] || (!IsSpace(r[0]) && !IsSpace(r[|r| - 1]))
    ensures exists a :: 0 <= a <= |s| - |r| && s[a..a + |r|] == r && SpaceBetween(s, 0, a) && SpaceBetween(s, a + |r|, |s|)
  {
    var a := SkipSpace(s, 0);
    var b := SkipSpaceBack(s, a, |s|);
    assert s[a..a + |s[a..b]|] == s[a..b];
    s[a..b]
  }

  /** Text that neither starts nor ends with whitespace is left as it is. */
  lemma StripKeepsTrimmed(s: string)
    requires s == [] || (!IsSpace(s[0]) && !IsSpace(s[|s| - 1]))
    ensures Strip(s) == s
  {
    if s != [] {
      assert SkipSpace(s, 0) == 0;
      assert SkipSpaceBack(s, 0, |s|) == |s|;
      assert s[0..|s|] == s;
    }
  }

  /** Stripping twice is stripping once. */
  lemma StripIdempotent(s: string)
    ensures Strip(Strip(s)) == Strip(s)
  {
    StripKeepsTrimmed(Strip(s));
  }

  /** Python's slice `s[a:b]` for in-range bounds: empty when `a >= b`. */
  function Slice(s: string, a: nat, b: nat): string
    requires a <= |s| && b <= |s|
  {
    if a < b then s[a..b] else []
  }

  /** `pat` occurs in `s` starting at index `i`. */
  predicate OccursAt(s: string, pat: string, i: int) {
    0 <= i && i + |pat| <= |s| && s[i..i + |pat|] == pat
  }

  /** Python's `pat in s`. */
  predicate Contains(s: string, pat: string) {
    exists i | 0 <= i <= |s| - |pat| :: OccursAt(s, pat, i)
  }

  /** What occurs in a piece of `t` occurs in `t`. */
  lemma {:induction false} ContainsTransitive(t: string, v: string, u: string)
    requires Contains(t, v) && Contains(v, u)
    ensures Contains(t, u)
  {
    var b :| 0 <= b <= |t| - |v| && OccursAt(t, v, b);
    var a :| 0 <= a <= |v| - |u| && OccursAt(v, u, a);
    forall m | 0 <= m < |u| ensures t[b + a + m] == u[m] {
      assert u[m] == v[a..a + |u|][m] == v[a + m] == t[b..b + |v|][a + m];
    }
    assert OccursAt(t, u, b + a);
  }

  /** Index of the first occurrence of `pat` in `s` at or after `from`, as
      `re.search` returns it for a pattern without metacharacters. */
  function FindSub(s: string, pat: string, from: nat): (r: Option<nat>)
    ensures r.Some? ==> from <= r.value && OccursAt(s, pat, r.value)
    ensures r.Some? ==> forall j | from <= j < r.value :: !OccursAt(s, pat, j)
    ensures r.None? ==> forall j | from <= j :: !OccursAt(s, pat, j)
    decreases |s| - from
  {
    if from + |pat| > |s| then None
    else if s[from..from + |pat|] == pat then Some(from)
    else FindSub(s, pat, from + 1)
  }

  /** Python's `s.replace(pat, "")`: every non-overlapping occurrence, scanned
      left to right, is deleted; an empty `pat` leaves `s` unchanged. */
  function RemoveAll(s: string, pat: string): (r: string)
    ensures |r| <= |s|
    ensures r == s <==> pat == [] || !Contains(s, pat)
  {
    if pat == [] then s
    else
      RemoveFromSize(s, pat);
      RemoveFrom(s, pat)
  }

  /** The left-to-right scan behind `RemoveAll`, for a non-empty `pat`. */
  function RemoveFrom(s: string, pat: string): string
    requires pat != []
    decreases |s|
  {
    if |s| < |pat| then s
    else if s[..|pat|] == pat then RemoveFrom(s[|pat|..], pat)
    else [s[0]] + RemoveFrom(s[1..], pat)
  }

  /** The scan never lengthens the text, and shortens it exactly when `pat`
      occurs. */
  lemma {:induction false} RemoveFromSize(s: string, pat: string)
    requires pat != []
    ensures |RemoveFrom(s, pat)| <= |s|
    ensures Contains(s, pat) ==> |RemoveFrom(s, pat)| < |s|
    ensures !Contains(s, pat) ==> RemoveFrom(s, pat) == s
    decreases |s|
  {
    if |s| < |pat| {
    } else if s[..|pat|] == pat {
      assert OccursAt(s, pat, 0);
      RemoveFromSize(s[|pat|..], pat);
    } else {
      ContainsTail(s, pat);
      RemoveFromSize(s[1..], pat);
    }
  }

  /** The scan cuts the leftmost occurrence, keeps what precedes it and goes
      on after it. */
  lemma {:induction false} RemoveFromFirst(s: string, pat: string, i: nat)
    requires pat != [] && OccursAt(s, pat, i)
    requires forall j | 0 <= j < i :: !OccursAt(s, pat, j)
    ensures RemoveFrom(s, pat) == s[..i] + RemoveFrom(s[i + |pat|..], pat)
    decreases i, 1
  {
    if i == 0 {
      RemoveFromHead(s, pat);
    } else {
      OccursShift(s, pat, i - 1);
      ShiftNone(s, pat, i);
      RemoveFromSkip(s, s[1..], pat, i - 1, i);
    }
  }

  lemma RemoveFromHead(s: string, pat: string)
    requires pat != [] && OccursAt(s, pat, 0)
    ensures RemoveFrom(s, pat) == s[..0] + RemoveFrom(s[0 + |pat|..], pat)
  {
    assert s[..|pat|] == pat;
    assert s[..0] == [];
  }

  /** No occurrence before `i` in `s` means none before `i - 1` in its tail. */
  lemma ShiftNone(s: string, pat: string, i: nat)
    requires 0 < i <= |s|
    requires forall j | 0 <= j < i :: !OccursAt(s, pat, j)
    ensures forall j | 0 <= j < i - 1 :: !OccursAt(s[1..], pat, j)
  {
    forall j | 0 <= j < i - 1 ensures !OccursAt(s[1..], pat, j) {
      OccursShift(s, pat, j);
    }
  }

  /** The step of `RemoveFromFirst` past a first character that starts no
      occurrence: the leftmost occurrence in `s` is at `i`, in its tail `t` at
      `k`, one less. */
  lemma {:induction false} RemoveFromSkip(s: string, t: string, pat: string, k: nat, i: nat)
    requires pat != [] && i == k + 1 && OccursAt(s, pat, i) && !OccursAt(s, pat, 0) && t == s[1..]
    requires OccursAt(t, pat, k) && forall j | 0 <= j < k :: !OccursAt(t, pat, j)
    ensures RemoveFrom(s, pat) == s[..i] + RemoveFrom(s[i + |pat|..], pat)
    decreases i, 0
  {
    RemoveFromFirst(t, pat, k);
    var u := t[k + |pat|..];
    assert u == s[i + |pat|..];
    assert s[..|pat|] != pat;
    assert RemoveFrom(s, pat) == [s[0]] + RemoveFrom(t, pat);
    ConsPrefix(s, t, k, i, RemoveFrom(s, pat), RemoveFrom(t, pat), RemoveFrom(u, pat));
  }

  lemma ConsPrefix(s: string, t: string, k: nat, i: nat, a: string, b: string, x: string)
    requires i == k + 1 && i <= |s| && t == s[1..] && a == [s[0]] + b && b == t[..k] + x
    ensures a == s[..i] + x
  {
    assert [s[0]] + t[..k] == s[..i];
  }

  /** An occurrence in the tail is an occurrence one further on. */
  lemma OccursShift(s: string, pat: string, j: nat)
    requires |s| > 0
    ensures OccursAt(s[1..], pat, j) <==> OccursAt(s, pat, j + 1)
  {
    if j + |pat| <= |s| - 1 {
      assert s[1..][j..j + |pat|] == s[j + 1..j + 1 + |pat|];
    }
  }

  /** `replace` in terms of the search for the first occurrence: without one
      the text is unchanged; with one at `i`, the text before `i` is kept and
      the rest after the occurrence is processed the same way. */
  lemma RemoveAllFind(s: string, pat: string)
    requires pat != []
    ensures match FindSub(s, pat, 0)
      case None => RemoveAll(s, pat) == s
      case Some(i) => RemoveAll(s, pat) == s[..i] + RemoveAll(s[i + |pat|..], pat)
  {
    match FindSub(s, pat, 0)
    case None =>
      assert !Contains(s, pat);
    case Some(i) =>
      RemoveFromFirst(s, pat, i);
      var rest := s[i + |pat|..];
      assert RemoveAll(s, pat) == RemoveFrom(s, pat);
      assert RemoveAll(rest, pat) == RemoveFrom(rest, pat);
  }

  /** An occurrence that does not start at index 0 is an occurrence in the tail. */
  lemma ContainsTail(s: string, pat: string)
    requires |s| > 0 && !OccursAt(s, pat, 0)
    ensures Contains(s, pat) <==> Contains(s[1..], pat)
  {
    if Contains(s, pat) {
      var i :| 0 <= i <= |s| - |pat| && OccursAt(s, pat, i);
      assert s[1..][i - 1..i - 1 + |pat|] == s[i..i + |pat|];
      assert OccursAt(s[1..], pat, i - 1);
    }
    if Contains(s[1..], pat) {
      var i :| 0 <= i <= |s[1..]| - |pat| && OccursAt(s[1..], pat, i);
      assert s[1..][i..i + |pat|] == s[i + 1..i + 1 + |pat|];
      assert OccursAt(s, pat, i + 1);
    }
  }
}
