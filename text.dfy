/**
 * The few Python string primitives the summariser relies on, written out
 * with Python's exact semantics: `str.replace`, `str.isspace`, `str.strip`,
 * `str.endswith` and `str.join`, plus predicates for talking about
 * occurrences and runs of characters.
 */
module Text {

  datatype Option<T> = None | Some(value: T) {
    /** `dict.get(key, default)` */
    function GetOr(default: T): T {
      if Some? then value else default
    }
  }

  // ---------------------------------------------------------------------
  // Occurrences, prefixes and suffixes
  // ---------------------------------------------------------------------

  /** `p` occurs in `s` starting at index `i`. */
  predicate OccursAt(s: string, i: int, p: string) {
    0 <= i && i + |p| <= |s| && s[i..i + |p|] == p
  }

  /** A non-empty sequence is its front followed by its last element. */
  lemma SplitLast<T>(s: seq<T>)
    requires s != []
    ensures s == s[..|s| - 1] + [s[|s| - 1]]
  {
  }

  /** Dropping the appended element gives back the front. */
  lemma FrontOfSnoc<T>(front: seq<T>, e: T)
    ensures (front + [e])[..|front|] == front
  {
  }

  /** A prefix one longer is the prefix followed by the next element. */
  lemma TakeNext<T>(s: seq<T>, i: nat)
    requires i < |s|
    ensures s[..i + 1] == s[..i] + [s[i]]
  {
  }

  /** Taking the whole of a sequence gives the sequence. */
  lemma TakeAll<T>(s: seq<T>)
    ensures s[..|s|] == s
  {
  }

  /** Appending after a concatenation. */
  lemma SnocAssoc<T>(a: seq<T>, front: seq<T>, last: T)
    ensures a + (front + [last]) == (a + front) + [last]
  {
  }

  /** Concatenation regrouped: `(p + q) + step` is `p + (q + step)`. */
  lemma Regroup<T>(whole: seq<T>, p: seq<T>, q: seq<T>, step: seq<T>, tail: seq<T>)
    requires whole == (p + q) + step && tail == q + step
    ensures whole == p + tail
  {
  }

  /** Concatenation is associative. */
  lemma Assoc<T>(a: seq<T>, b: seq<T>, c: seq<T>)
    ensures a + b + c == a + (b + c)
  {
  }

  /** `p in s` for strings. */
  ghost predicate Contains(s: string, p: string) {
    exists i :: OccursAt(s, i, p)
  }

  /** `s.endswith(p)` */
  predicate EndsWith(s: string, p: string)
    ensures EndsWith(s, p) <==> |p| <= |s| && s == s[..|s| - |p|] + p
  {
    |p| <= |s| && s[|s| - |p|..] == p
  }

  lemma OccursInTail(c: char, t: string, i: int, p: string)
    requires 1 <= i
    ensures OccursAt([c] + t, i, p) <==> OccursAt(t, i - 1, p)
  {
    if 0 <= i - 1 && i - 1 + |p| <= |t| {
      assert ([c] + t)[i..i + |p|] == t[i - 1..i - 1 + |p|];
    }
  }

  lemma OccursAfterPrefix(a: string, t: string, i: int, p: string)
    requires |a| <= i
    ensures OccursAt(a + t, i, p) <==> OccursAt(t, i - |a|, p)
  {
    if i + |p| <= |a| + |t| {
      assert (a + t)[i..i + |p|] == t[i - |a|..i - |a| + |p|];
    }
  }

  // ---------------------------------------------------------------------
  // str.replace
  // ---------------------------------------------------------------------

  /**
   * `s.replace(pat, rep)`: scans left to right, replaces every
   * non-overlapping occurrence of `pat` and resumes after it.
   */
  function Replace(s: string, pat: string, rep: string): (r: string)
    requires |pat| > 0
    ensures |pat| == |rep| ==> |r| == |s|
    decreases |s|
  {
    if s == [] then []
    else if |pat| <= |s| && s[..|pat|] == pat then rep + Replace(s[|pat|..], pat, rep)
    else [s[0]] + Replace(s[1..], pat, rep)
  }

  /** Replacing one character by another rewrites exactly the positions that held it. */
  lemma {:induction false} ReplaceCharAt(s: string, a: char, b: char)
    ensures |Replace(s, [a], [b])| == |s|
    ensures forall i :: 0 <= i < |s| ==>
      Replace(s, [a], [b])[i] == if s[i] == a then b else s[i]
  {
    if s != [] {
      ReplaceCharAt(s[1..], a, b);
      var r := Replace(s, [a], [b]);
      var rest := Replace(s[1..], [a], [b]);
      assert r == (if s[0] == a then [b] else [s[0]]) + rest;
      forall i | 1 <= i < |s|
        ensures r[i] == if s[i] == a then b else s[i]
      {
        assert r[i] == rest[i - 1];
      }
    }
  }

  /** After `s.replace(a, b)` with `a != b`, no `a` is left. */
  lemma ReplaceCharRemoves(s: string, a: char, b: char)
    requires a != b
    ensures a !in Replace(s, [a], [b])
  {
    ReplaceCharAt(s, a, b);
    var r := Replace(s, [a], [b]);
    assert forall i :: 0 <= i < |r| ==> r[i] != a;
  }

  /** Up to the first occurrence of `pat`, `replace` copies its input. */
  lemma {:induction false} ReplaceSkips(t: string, pat: string, rep: string, j: nat)
    requires |pat| > 0 && j <= |t|
    requires forall m :: 0 <= m < j ==> !OccursAt(t, m, pat)
    ensures Replace(t, pat, rep) == t[..j] + Replace(t[j..], pat, rep)
  {
    if j > 0 {
      assert !OccursAt(t, 0, pat);
      forall m | 0 <= m < j - 1 ensures !OccursAt(t[1..], m, pat) {
        assert [t[0]] + t[1..] == t;
        OccursInTail(t[0], t[1..], m + 1, pat);
      }
      ReplaceSkips(t[1..], pat, rep, j - 1);
      assert t[1..][j - 1..] == t[j..];
      assert t[..j] == [t[0]] + t[1..][..j - 1];
    }
  }

  /** A string without any occurrence of `pat` is returned unchanged. */
  lemma {:induction false} ReplaceAbsent(s: string, pat: string, rep: string)
    requires |pat| > 0
    requires !Contains(s, pat)
    ensures Replace(s, pat, rep) == s
  {
    if s != [] {
      assert !OccursAt(s, 0, pat);
      assert !Contains(s[1..], pat) by {
        forall i ensures !OccursAt(s[1..], i, pat) {
          if 0 <= i {
            assert [s[0]] + s[1..] == s;
            OccursInTail(s[0], s[1..], i + 1, pat);
          }
        }
      }
      ReplaceAbsent(s[1..], pat, rep);
    }
  }

  /** `s.replace(c, '')`, equivalently `re.sub(c, '', s)`: `s` with every `c` deleted. */
  function Without(s: string, c: char): (r: string)
    ensures c !in r
    ensures |r| <= |s|
    ensures forall x :: x in r ==> x in s
    decreases |s|
  {
    if s == [] then []
    else if s[0] == c then Without(s[1..], c)
    else [s[0]] + Without(s[1..], c)
  }

  /** Every other character survives the deletion. */
  lemma {:induction false} WithoutKeeps(s: string, c: char, x: char)
    requires x != c && x in s
    ensures x in Without(s, c)
    decreases |s|
  {
    if s[0] != x {
      assert x in s[1..];
      WithoutKeeps(s[1..], c, x);
    }
  }

  /** Deleting a character that does not occur changes nothing. */
  lemma {:induction false} WithoutAbsent(s: string, c: char)
    requires c !in s
    ensures Without(s, c) == s
  {
    if s != [] {
      assert c !in s[1..] by { assert forall x :: x in s[1..] ==> x in s; }
      WithoutAbsent(s[1..], c);
    }
  }

  /** Deleting a character distributes over concatenation. */
  lemma {:induction false} WithoutConcat(a: string, b: string, c: char)
    ensures Without(a + b, c) == Without(a, c) + Without(b, c)
  {
    if a != [] {
      assert (a + b)[1..] == a[1..] + b;
      WithoutConcat(a[1..], b, c);
    } else {
      assert a + b == b;
    }
  }

  // ---------------------------------------------------------------------
  // str.isspace, str.strip
  // ---------------------------------------------------------------------

  /**
   * The characters Python's `str.isspace` accepts, which are the ones
   * `str.strip()` removes when called without arguments.
   */
  predicate IsSpace(c: char) {
    || ('\t' <= c <= '\r')
    || ('\U{1C}' <= c <= ' ')
    || c == '\U{85}' || c == '\U{A0}' || c == '\U{1680}'
    || ('\U{2000}' <= c <= '\U{200A}')
    || c == '\U{2028}' || c == '\U{2029}' || c == '\U{202F}' || c == '\U{205F}'
    || c == '\U{3000}'
  }

  /** Every character of `s` is whitespace (also true of ""). */
  predicate AllSpace(s: string) {
    forall k :: 0 <= k < |s| ==> IsSpace(s[k])
  }

  /** `s.lstrip()`: the suffix of `s` after its leading whitespace. */
  function StripLeft(s: string): (r: string)
    ensures |r| <= |s| && r == s[|s| - |r|..]
    ensures AllSpace(s[..|s| - |r|])
    ensures r == [] || !IsSpace(r[0])
    decreases |s|
  {
    if s != [] && IsSpace(s[0]) then
      var r := StripLeft(s[1..]);
      assert s[..|s| - |r|] == [s[0]] + s[1..][..|s| - 1 - |r|];
      r
    else s
  }

  /** `s.rstrip()`: the prefix of `s` before its trailing whitespace. */
  function StripRight(s: string): (r: string)
    ensures |r| <= |s| && r == s[..|r|]
    ensures AllSpace(s[|r|..])
    ensures r == [] || !IsSpace(r[|r| - 1])
    decreases |s|
  {
    if s != [] && IsSpace(s[|s| - 1]) then
      var r := StripRight(s[..|s| - 1]);
      assert s[|r|..] == s[..|s| - 1][|r|..] + [s[|s| - 1]];
      r
    else s
  }

  /**
   * `s.strip()`: the part of `s` between its leading and trailing
   * whitespace; empty exactly when `s` is all whitespace.
   */
  function Strip(s: string): (r: string)
    ensures |r| <= |s|
    ensures r == [] <==> AllSpace(s)
    ensures r != [] ==> !IsSpace(r[0]) && !IsSpace(r[|r| - 1])
  {
    var l := StripLeft(s);
    var r := StripRight(l);
    assert r == [] ==> s[..|s| - |l|] == s;
    assert r != [] ==> l[0] == r[0] && s[|s| - |l|] == l[0];
    r
  }

  /** What `s.strip()` keeps is one contiguous slice of `s`. */
  lemma StripIsSlice(s: string)
    ensures |s| - |StripLeft(s)| + |Strip(s)| <= |s|
    ensures Strip(s) == s[|s| - |StripLeft(s)|..|s| - |StripLeft(s)| + |Strip(s)|]
  {
    var l := StripLeft(s);
    var r := StripRight(l);
    assert Strip(s) == r;
    PrefixOfSuffix(s, |s| - |l|, |r|);
  }

  lemma PrefixOfSuffix<T>(s: seq<T>, i: nat, k: nat)
    requires i + k <= |s|
    ensures s[i..][..k] == s[i..i + k]
  {
  }

  /** Stripping removes whitespace only: every other character stays. */
  lemma StripKeeps(s: string, x: char)
    requires !IsSpace(x) && x in s
    ensures x in Strip(s)
  {
    var i :| 0 <= i < |s| && s[i] == x;
    var l := StripLeft(s);
    var p := |s| - |l|;
    OutsideSpacePrefix(s, p, i);
    var r := StripRight(l);
    OutsideSpaceSuffix(l, |r|, i - p);
    assert r[i - p] == x;
  }

  /** A non-space character lies after an all-space prefix. */
  lemma OutsideSpacePrefix(s: string, p: nat, i: nat)
    requires p <= |s| && i < |s| && AllSpace(s[..p]) && !IsSpace(s[i])
    ensures p <= i
  {
  }

  /** A non-space character lies before an all-space suffix. */
  lemma OutsideSpaceSuffix(s: string, p: nat, i: nat)
    requires p <= |s| && i < |s| && AllSpace(s[p..]) && !IsSpace(s[i])
    ensures i < p
  {
  }

  /** Text that neither starts nor ends with whitespace is its own strip. */
  lemma StripStripped(s: string)
    requires s == [] || (!IsSpace(s[0]) && !IsSpace(s[|s| - 1]))
    ensures Strip(s) == s
  {
  }

  // ---------------------------------------------------------------------
  // str.join
  // ---------------------------------------------------------------------

  /** `sep.join(parts)` */
  function Join(parts: seq<string>, sep: string): (r: string)
    ensures parts == [] ==> r == []
    ensures |parts| == 1 ==> r == parts[0]
    ensures |parts| >= 2 ==> r == Join(parts[..|parts| - 1], sep) + sep + parts[|parts| - 1]
    decreases |parts|
  {
    if parts == [] then []
    else if |parts| == 1 then parts[0]
    else
      var rest := Join(parts[1..], sep);
      FrontOfTail(parts);
      if |parts| == 2 then parts[0] + sep + rest
      else
        var front := parts[..|parts| - 1];
        var middle := Join(parts[1..][..|parts| - 2], sep);
        assert Join(front, sep) == front[0] + sep + Join(front[1..], sep);
        Regroup5(parts[0], sep, middle, sep, parts[|parts| - 1]);
        parts[0] + sep + rest
  }

  /** Concatenation of five sequences regrouped. */
  lemma Regroup5<T>(a: seq<T>, b: seq<T>, x: seq<T>, c: seq<T>, d: seq<T>)
    ensures a + b + (x + c + d) == (a + b + x) + c + d
  {
  }

  /** Dropping the first and the last element, in either order. */
  lemma FrontOfTail<T>(s: seq<T>)
    requires |s| >= 2
    ensures s[..|s| - 1][1..] == s[1..][..|s| - 2] && s[..|s| - 1][0] == s[0]
    ensures s[1..][|s| - 2] == s[|s| - 1]
  {
  }

  /** Every part of a join appears in it, at an offset. */
  lemma {:induction false} JoinContainsParts(parts: seq<string>, sep: string, k: nat)
    requires k < |parts|
    ensures exists i :: OccursAt(Join(parts, sep), i, parts[k])
  {
    var r := Join(parts, sep);
    if |parts| == 1 {
      assert OccursAt(r, 0, parts[0]);
    } else {
      var rest := Join(parts[1..], sep);
      var a := parts[0] + sep;
      assert r == a + rest;
      if k == 0 {
        OccursAtStart(parts[0], sep, rest);
      } else {
        JoinContainsParts(parts[1..], sep, k - 1);
        var j :| OccursAt(rest, j, parts[k]);
        OccursAfterPrefix(a, rest, j + |a|, parts[k]);
      }
    }
  }

  /** The first of three concatenated strings occurs at the start. */
  lemma OccursAtStart(p: string, q: string, t: string)
    ensures OccursAt(p + q + t, 0, p)
  {
    assert (p + q + t)[0..|p|] == p;
  }

  // ---------------------------------------------------------------------
  // Runs of one character
  // ---------------------------------------------------------------------

  /** `s[i..i+len]` consists of `len` copies of `c`. */
  predicate RunAt(s: string, i: int, c: char, len: nat) {
    0 <= i && i + len <= |s| && forall j :: i <= j < i + len ==> s[j] == c
  }

  /** `s` has no `len` consecutive copies of `c`. */
  ghost predicate NoRunOf(s: string, c: char, len: nat) {
    forall i :: !RunAt(s, i, c, len)
  }

  /** `n` copies of `c`. */
  function Repeat(c: char, n: nat): (r: string)
    ensures |r| == n && forall j :: 0 <= j < n ==> r[j] == c
  {
    seq(n, _ => c)
  }

  /** A character that does not occur has no run. */
  lemma NoRunOfAbsent(s: string, c: char, len: nat)
    requires c !in s && len >= 1
    ensures NoRunOf(s, c, len)
  {
    forall i ensures !RunAt(s, i, c, len) {
      if 0 <= i && i + len <= |s| {
        assert s[i] in s;
      }
    }
  }

  /** A slice of a string without a run has none either. */
  lemma NoRunOfSlice(s: string, c: char, len: nat, i: int, j: int)
    requires 0 <= i <= j <= |s|
    requires NoRunOf(s, c, len)
    ensures NoRunOf(s[i..j], c, len)
    ensures j == |s| ==> NoRunOf(s[i..], c, len)
  {
    assert j == |s| ==> s[i..j] == s[i..];
    forall k ensures !RunAt(s[i..j], k, c, len) {
      if RunAt(s[i..j], k, c, len) {
        assert RunAt(s, k + i, c, len) by {
          forall m | k + i <= m < k + i + len ensures s[m] == c {
            assert s[m] == s[i..j][m - i];
          }
        }
      }
    }
  }
}
