/** String primitives shared by the host (TypeScript) and the helper (Go) models.
    Strings are `seq<char>`, and a `char` is a Unicode scalar value. For text
    inside the Basic Multilingual Plane that is one UTF-16 code unit of a
    JavaScript string; surrogate pairs cannot be written. */
module Text {

  function Min(a: int, b: int): int { if a <= b then a else b }
  function Max(a: int, b: int): int { if a <= b then b else a }

  /** `s` ends with `suffix`. */
  predicate EndsWith(s: string, suffix: string) {
    |suffix| <= |s| && s[|s| - |suffix|..] == suffix
  }

  /** `pat` occurs in `s` starting at index `k`. */
  predicate OccursAt(s: string, pat: string, k: int) {
    0 <= k && k + |pat| <= |s| && s[k..k + |pat|] == pat
  }

  /** `k` is the first index at or after `from` where `pat` occurs in `s`. */
  ghost predicate FirstAt(s: string, pat: string, from: int, k: int) {
    from <= k && OccursAt(s, pat, k) && forall j :: from <= j < k ==> !OccursAt(s, pat, j)
  }

  /** `pat` occurs nowhere in `s` at or after `from`. */
  ghost predicate NoneFrom(s: string, pat: string, from: int) {
    forall j :: from <= j ==> !OccursAt(s, pat, j)
  }

  /** JavaScript's `s.indexOf(pat, from)` for a non-empty `pat`: the first
      occurrence at or after `from` (a negative `from` searches from 0), or -1. */
  function IndexOf(s: string, pat: string, from: int): (r: int)
    requires pat != []
    ensures r == -1 <==> NoneFrom(s, pat, from)
    ensures r != -1 ==> FirstAt(s, pat, from, r)
    decreases |s| - from
  {
    if from < 0 then
      var r := IndexOf(s, pat, 0);
      assert forall j :: from <= j < 0 ==> !OccursAt(s, pat, j);
      r
    else if from + |pat| > |s| then -1
    else if s[from..from + |pat|] == pat then
      assert OccursAt(s, pat, from);
      from
    else IndexOf(s, pat, from + 1)
  }

  /** The first occurrence is unique: whatever satisfies `FirstAt` is what `IndexOf` finds. */
  lemma IndexOfFinds(s: string, pat: string, from: int, k: int)
    requires pat != []
    requires FirstAt(s, pat, from, k)
    ensures IndexOf(s, pat, from) == k
  {
  }

  /** JavaScript's `s.substring(start, end)`: both bounds are clamped to
      `[0, |s|]` and swapped when out of order. */
  function Substring(s: string, start: int, end: int): (r: string)
    ensures 0 <= start <= end <= |s| ==> r == s[start..end]
    ensures 0 <= end <= start <= |s| ==> r == s[end..start]
    ensures 0 <= start <= |s| <= end ==> r == s[start..]
    ensures 0 <= end <= |s| <= start ==> r == s[end..]
    ensures start <= 0 <= end <= |s| ==> r == s[..end]
    ensures end <= 0 <= start <= |s| ==> r == s[..start]
    ensures (start <= 0 && end >= |s|) || (end <= 0 && start >= |s|) ==> r == s
    ensures (start <= 0 && end <= 0) || (start >= |s| && end >= |s|) ==> r == []
    ensures |r| <= |s|
  {
    var a := Min(Max(start, 0), |s|);
    var b := Min(Max(end, 0), |s|);
    s[Min(a, b)..Max(a, b)]
  }

  /** JavaScript's one-argument `s.substring(start)`. */
  function SubstringFrom(s: string, start: int): (r: string)
    ensures 0 <= start <= |s| ==> r == s[start..]
    ensures start <= 0 ==> r == s
    ensures start >= |s| ==> r == []
  {
    Substring(s, start, |s|)
  }

  /** The characters JavaScript's `String.prototype.trim` removes: the
      WhiteSpace and LineTerminator code points of ECMAScript. */
  predicate IsJsSpace(c: char) {
    c == '\t' || c == '\n' || c == '\U{B}' || c == '\U{C}' || c == '\r' || c == ' '
    || c == '\U{A0}' || c == '\U{1680}' || ('\U{2000}' <= c <= '\U{200A}')
    || c == '\U{2028}' || c == '\U{2029}' || c == '\U{202F}' || c == '\U{205F}'
    || c == '\U{3000}' || c == '\U{FEFF}'
  }

  predicate AllSpace(s: string) {
    forall i :: 0 <= i < |s| ==> IsJsSpace(s[i])
  }

  /** `r` is a contiguous piece of `s` with only whitespace before and after it. */
  ghost predicate Infix(s: string, r: string) {
    exists a :: 0 <= a <= |s| - |r| && r == s[a..a + |r|] && AllSpace(s[..a]) && AllSpace(s[a + |r|..])
  }

  /** Leading whitespace removed: what remains is a suffix of `s` that does not start with whitespace. */
  function TrimStart(s: string): (r: string)
    ensures |r| <= |s| && r == s[|s| - |r|..]
    ensures AllSpace(s[..|s| - |r|])
    ensures r == [] || !IsJsSpace(r[0])
  {
    if s != [] && IsJsSpace(s[0]) then
      var r := TrimStart(s[1..]);
      assert s[..|s| - |r|] == [s[0]] + s[1..][..|s| - 1 - |r|];
      r
    else s
  }

  /** Trailing whitespace removed: what remains is a prefix of `s` that does not end with whitespace. */
  function TrimEnd(s: string): (r: string)
    ensures |r| <= |s| && r == s[..|r|]
    ensures AllSpace(s[|r|..])
    ensures r == [] || !IsJsSpace(r[|r| - 1])
  {
    if s != [] && IsJsSpace(s[|s| - 1]) then
      var r := TrimEnd(s[..|s| - 1]);
      assert s[|r|..] == s[..|s| - 1][|r|..] + [s[|s| - 1]];
      r
    else s
  }

  /** JavaScript's `s.trim()`: the infix of `s` left after removing whitespace at both ends. */
  function Trim(s: string): (r: string)
    ensures |r| <= |s|
    ensures AllSpace(s) <==> r == []
    ensures r != [] ==> !IsJsSpace(r[0]) && !IsJsSpace(r[|r| - 1])
    ensures forall c :: c in r ==> c in s
    ensures Infix(s, r)
  {
    var a := TrimStart(s);
    var r := TrimEnd(a);
    TrimEmptyIffAllSpace(s, a, r);
    r
  }

  lemma TrimEmptyIffAllSpace(s: string, a: string, r: string)
    requires |a| <= |s| && a == s[|s| - |a|..] && AllSpace(s[..|s| - |a|])
    requires a == [] || !IsJsSpace(a[0])
    requires |r| <= |a| && r == a[..|r|] && AllSpace(a[|r|..])
    ensures AllSpace(s) <==> r == []
    ensures forall c :: c in r ==> c in s
    ensures Infix(s, r)
  {
    var n := |s| - |a|;
    assert s == s[..n] + a;
    assert r == s[n..n + |r|] && s[n + |r|..] == a[|r|..];
    if r == [] {
      assert a[|r|..] == a;
      assert a == [];  // otherwise a[0] would be whitespace and not whitespace
      assert s[..n] == s;
    } else {
      assert r[0] == a[0] == s[n];
    }
    forall c | c in r
      ensures c in s
    {
      var k :| 0 <= k < |r| && r[k] == c;
      assert a[k] == c;
      assert s[n + k] == c;
    }
  }

  /** JavaScript's `parts.join(sep)`. */
  function Join(parts: seq<string>, sep: string): (r: string)
    ensures parts == [] ==> r == []
    ensures |parts| == 1 ==> r == parts[0]
  {
    if parts == [] then []
    else if |parts| == 1 then parts[0]
    else parts[0] + sep + Join(parts[1..], sep)
  }

  /** Joining two non-empty runs equals joining each and putting one separator between them:
      the parts appear in order, separated exactly once. */
  lemma {:induction false} JoinConcat(xs: seq<string>, ys: seq<string>, sep: string)
    requires xs != [] && ys != []
    ensures Join(xs + ys, sep) == Join(xs, sep) + sep + Join(ys, sep)
    decreases |xs|
  {
    if |xs| == 1 {
      assert (xs + ys)[1..] == ys;
    } else {
      JoinConcat(xs[1..], ys, sep);
      assert (xs + ys)[1..] == xs[1..] + ys;
    }
  }
}
