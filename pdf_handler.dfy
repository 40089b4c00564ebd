/**
 * The PDF handler: turns an arXiv abstract link into a PDF link, extracts
 * and normalises the text of the first pages of the downloaded document,
 * truncates it to a character budget, and falls back to the paper's title
 * and abstract when anything on the way raises.
 *
 * The network download and the PDF parser are not modelled: the outcome of
 * downloading and opening the document at a URL is a parameter of type
 * `PdfSource` that yields either the texts of the document's pages or
 * `None` (any exception).
 */
module PdfHandler {
  import opened Text

  // ---------------------------------------------------------------------
  // get_pdf_url
  // ---------------------------------------------------------------------

  const AbsSegment: string := "/abs/"
  const PdfSegment: string := "/pdf/"
  const PdfSuffix: string := ".pdf"

  /** `get_pdf_url`: `/abs/` becomes `/pdf/` everywhere, and `.pdf` is appended unless already there. */
  function GetPdfUrl(link: string): (url: string)
    ensures EndsWith(url, PdfSuffix)
    ensures |url| == |link| || |url| == |link| + |PdfSuffix|
  {
    var replaced := Replace(link, AbsSegment, PdfSegment);
    if EndsWith(replaced, PdfSuffix) then replaced
    else
      assert (replaced + PdfSuffix)[|replaced|..] == PdfSuffix;
      replaced + PdfSuffix
  }

  /** The example of the function's documentation. */
  lemma GetPdfUrlExample(link: string)
    requires link == "https://arxiv.org/abs/2312.12345"
    ensures GetPdfUrl(link) == "https://arxiv.org/pdf/2312.12345.pdf"
  {
    var host, id := "https://arxiv.org", "2312.12345";
    assert link == host + AbsSegment + id by {
      ExampleLinkParts(link, host, id);
    }
    ExampleParts(link, host, id);
  }

  /** The literal split at its `/abs/`, and joined again around `/pdf/`. */
  lemma ExampleLinkParts(link: string, host: string, id: string)
    requires link == "https://arxiv.org/abs/2312.12345"
    requires host == "https://arxiv.org" && id == "2312.12345"
    ensures link == host + AbsSegment + id
    ensures host + PdfSegment + id + PdfSuffix == "https://arxiv.org/pdf/2312.12345.pdf"
  {
  }

  lemma ExampleParts(link: string, host: string, id: string)
    requires link == host + AbsSegment + id
    requires host == "https://arxiv.org" && id == "2312.12345"
    ensures GetPdfUrl(link) == "https://arxiv.org/pdf/2312.12345.pdf"
  {
    forall m | 0 <= m < |host| ensures !OccursAt(link, m, AbsSegment) {
      assert link[m..m + 5][0] == link[m] && link[m..m + 5][1] == link[m + 1] && link[m..m + 5][2] == link[m + 2];
    }
    ReplaceOneAbs(host, id);
    var replaced := host + PdfSegment + id;
    assert !EndsWith(replaced, PdfSuffix) by {
      assert replaced[|replaced| - 4..][0] == replaced[|replaced| - 4] == '2';
    }
    ExampleLinkParts("https://arxiv.org/abs/2312.12345", host, id);
  }

  /** A link with a single `/abs/`, that no earlier overlap hides, gets exactly that segment rewritten. */
  lemma {:induction false} ReplaceOneAbs(host: string, id: string)
    requires forall m :: 0 <= m < |host| ==> !OccursAt(host + AbsSegment + id, m, AbsSegment)
    requires '/' !in id
    ensures Replace(host + AbsSegment + id, AbsSegment, PdfSegment) == host + PdfSegment + id
  {
    var link := host + AbsSegment + id;
    ReplaceSkips(link, AbsSegment, PdfSegment, |host|);
    assert link[..|host|] == host;
    assert link[|host|..] == AbsSegment + id;
    ReplaceLeadingAbs(id);
    assert host + (PdfSegment + id) == host + PdfSegment + id;
  }

  /** `/abs/` followed by text without a `/` becomes `/pdf/` followed by that text. */
  lemma ReplaceLeadingAbs(id: string)
    requires '/' !in id
    ensures Replace(AbsSegment + id, AbsSegment, PdfSegment) == PdfSegment + id
  {
    assert (AbsSegment + id)[..5] == AbsSegment && (AbsSegment + id)[5..] == id;
    NoSlashNoAbs(id);
    ReplaceAbsent(id, AbsSegment, PdfSegment);
  }

  /** A link without `/abs/` that already ends in `.pdf` is returned unchanged. */
  lemma GetPdfUrlUnchanged(link: string)
    requires !Contains(link, AbsSegment) && EndsWith(link, PdfSuffix)
    ensures GetPdfUrl(link) == link
  {
    ReplaceAbsent(link, AbsSegment, PdfSegment);
  }

  /** Text without a `/` holds no `/abs/`. */
  lemma {:induction false} NoSlashNoAbs(s: string)
    requires '/' !in s
    ensures !Contains(s, AbsSegment)
  {
    forall i | 0 <= i && i + 5 <= |s| ensures !OccursAt(s, i, AbsSegment) {
      assert s[i..i + 5][0] == s[i];
    }
  }

  /** The rewrite keeps the first character: both segments start with `/`. */
  lemma {:induction false} ReplaceKeepsHead(t: string)
    requires t != []
    ensures Replace(t, AbsSegment, PdfSegment)[0] == t[0]
  {
    if |AbsSegment| <= |t| && t[..|AbsSegment|] == AbsSegment {
      assert t[0] == t[..|AbsSegment|][0];
    }
  }

  /** Before the first `/`, the rewrite copies the input character by character. */
  lemma {:induction false} ReplaceAgreesBeforeSlash(t: string, j: nat)
    requires j < |t|
    requires forall m :: 0 <= m < j ==> t[m] != '/'
    ensures Replace(t, AbsSegment, PdfSegment)[j] == t[j]
  {
    forall m | 0 <= m < j ensures !OccursAt(t, m, AbsSegment) {
      if m + 5 <= |t| { assert t[m..m + 5][0] == t[m]; }
    }
    ReplaceSkips(t, AbsSegment, PdfSegment, j);
    ReplaceKeepsHead(t[j..]);
  }

  /** If the rewritten text starts with `abs/`, so did the input. */
  lemma {:induction false} ReplaceStartingAbs(t: string)
    requires |t| >= 4
    ensures Replace(t, AbsSegment, PdfSegment)[..4] == "abs/" ==> t[..4] == "abs/"
  {
    var r := Replace(t, AbsSegment, PdfSegment);
    if r[..4] == "abs/" {
      assert r[0] == 'a' && r[1] == 'b' && r[2] == 's' && r[3] == '/' by {
        assert r[..4][0] == r[0] && r[..4][1] == r[1] && r[..4][2] == r[2] && r[..4][3] == r[3];
      }
      ReplaceAgreesBeforeSlash(t, 0);
      assert t[0] == 'a';
      ReplaceAgreesBeforeSlash(t, 1);
      assert t[1] == 'b';
      ReplaceAgreesBeforeSlash(t, 2);
      assert t[2] == 's';
      ReplaceAgreesBeforeSlash(t, 3);
      assert t[3] == '/';
    }
  }

  /** Where `/abs/abs/` never occurs, an `/abs/` is not followed by `abs/`. */
  lemma {:induction false} NoDoubleAbs(s: string)
    requires !Contains(s, "/abs/abs/")
    requires |s| >= 9 && s[..5] == AbsSegment
    ensures s[5..9] != "abs/"
  {
    assert !OccursAt(s, 0, "/abs/abs/");
    assert s[..9] == s[..5] + s[5..9];
  }

  /**
   * Python's `replace` skips overlapping occurrences, so `/abs/` can only
   * survive where the input had two overlapping ones, `/abs/abs/`.
   */
  lemma {:induction false} ReplaceLeavesNoAbs(s: string)
    requires !Contains(s, "/abs/abs/")
    ensures !Contains(Replace(s, AbsSegment, PdfSegment), AbsSegment)
    decreases |s|
  {
    var r := Replace(s, AbsSegment, PdfSegment);
    if s == [] {
    } else if |AbsSegment| <= |s| && s[..|AbsSegment|] == AbsSegment {
      var tail := s[5..];
      assert s == s[..5] + tail;
      assert !Contains(tail, "/abs/abs/") by {
        forall j | 0 <= j ensures !OccursAt(tail, j, "/abs/abs/") {
          OccursAfterPrefix(s[..5], tail, j + 5, "/abs/abs/");
        }
      }
      ReplaceLeavesNoAbs(tail);
      var rt := Replace(tail, AbsSegment, PdfSegment);
      assert r == PdfSegment + rt;
      forall i | 0 <= i && i + 5 <= |r| ensures !OccursAt(r, i, AbsSegment) {
        if 5 <= i {
          OccursAfterPrefix(PdfSegment, rt, i, AbsSegment);
        } else if i <= 3 {
          assert r[i..i + 5][0] == r[i] && r[i..i + 5][1] == r[i + 1];
        } else {
          // an occurrence at 4 would need `tail` to start with `abs/`
          NoDoubleAbs(s);
          assert AbsSegment == ['/'] + "abs/";
          assert s[5..9] == tail[..4];
          ReplaceStartingAbs(tail);
          assert r[4..9][1..] == rt[..4];
        }
      }
    } else {
      var tail := s[1..];
      assert s == [s[0]] + tail;
      assert !Contains(tail, "/abs/abs/") by {
        forall j | 0 <= j ensures !OccursAt(tail, j, "/abs/abs/") {
          OccursInTail(s[0], tail, j + 1, "/abs/abs/");
        }
      }
      ReplaceLeavesNoAbs(tail);
      var rt := Replace(tail, AbsSegment, PdfSegment);
      assert r == [s[0]] + rt;
      forall i | 0 <= i && i + 5 <= |r| ensures !OccursAt(r, i, AbsSegment) {
        if 1 <= i {
          OccursInTail(s[0], rt, i, AbsSegment);
          assert !OccursAt(r, i, AbsSegment);
        } else if s[0] != '/' {
          assert r[..5][0] == r[0];
          assert !OccursAt(r, i, AbsSegment);
        } else {
          // an occurrence at 0 would need `tail` to start with `abs/`
          assert AbsSegment == ['/'] + "abs/";
          assert s[..5] == [s[0]] + tail[..4];
          assert |tail| >= 4;
          assert s[..5] != AbsSegment;
          assert tail[..4] != "abs/";
          ReplaceStartingAbs(tail);
          assert rt[..4] != "abs/";
          assert r[0..5][1..] == rt[..4];
          assert AbsSegment[1..] == "abs/";
          assert !OccursAt(r, i, AbsSegment);
        }
      }
    }
  }

  /**
   * Unless the link holds two overlapping `/abs/` segments, the PDF URL
   * holds no `/abs/` at all.
   */
  lemma {:induction false} GetPdfUrlNoAbs(link: string)
    requires !Contains(link, "/abs/abs/")
    ensures !Contains(GetPdfUrl(link), AbsSegment)
  {
    ReplaceLeavesNoAbs(link);
    var r := Replace(link, AbsSegment, PdfSegment);
    if !EndsWith(r, PdfSuffix) {
      var u := r + PdfSuffix;
      forall i | 0 <= i && i + 5 <= |u| ensures !OccursAt(u, i, AbsSegment) {
        if i + 5 <= |r| {
          assert u[i..i + 5] == r[i..i + 5];
          assert !OccursAt(r, i, AbsSegment);
          assert !OccursAt(u, i, AbsSegment);
        } else {
          // such an occurrence would cover the `.` that starts the suffix
          var k := |r| - i;
          assert u[|r|] == PdfSuffix[0] == '.';
          assert u[i..i + 5][k] == u[|r|];
          assert AbsSegment[k] != '.';
          assert !OccursAt(u, i, AbsSegment);
        }
      }
    }
  }

  /** Python's non-overlapping `replace` leaves an `/abs/` behind in `/abs/abs/`. */
  lemma GetPdfUrlOverlapKeepsAbs()
    ensures Contains(GetPdfUrl("/abs/abs/"), AbsSegment)
  {
    var s := "/abs/abs/";
    var rest := "abs/";
    OverlapReplaced(s, rest);
    var replaced := PdfSegment + rest;
    OverlapHasNoSuffix(replaced);
    var url := replaced + PdfSuffix;
    OverlapUrlHoldsAbs(url, rest);
    assert OccursAt(GetPdfUrl(s), 4, AbsSegment);
  }

  lemma OverlapReplaced(s: string, rest: string)
    requires s == "/abs/abs/" && rest == "abs/"
    ensures Replace(s, AbsSegment, PdfSegment) == PdfSegment + rest
  {
    assert s[..|AbsSegment|] == AbsSegment && s[|AbsSegment|..] == rest;
    ReplaceAbsent(rest, AbsSegment, PdfSegment);
  }

  lemma OverlapHasNoSuffix(replaced: string)
    requires replaced == "/pdf/abs/"
    ensures !EndsWith(replaced, PdfSuffix)
  {
    assert replaced[|replaced| - 1] != PdfSuffix[|PdfSuffix| - 1];
  }

  lemma OverlapUrlHoldsAbs(url: string, rest: string)
    requires rest == "abs/" && url == PdfSegment + rest + PdfSuffix
    ensures OccursAt(url, 4, AbsSegment)
  {
    assert url[4..9] == AbsSegment;
  }

  // ---------------------------------------------------------------------
  // clean_extracted_text
  // ---------------------------------------------------------------------

  /** Length of the run of `c` at the start of `s`. */
  function LeadingRun(s: string, c: char): (n: nat)
    ensures n <= |s|
    ensures forall j :: 0 <= j < n ==> s[j] == c
    ensures n < |s| ==> s[n] != c
    decreases |s|
  {
    if s != [] && s[0] == c then 1 + LeadingRun(s[1..], c) else 0
  }

  /**
   * `re.sub(c{k+1,}, c * k, s)`: the regular expression matches each
   * maximal run of at least k + 1 copies of `c` (leftmost, greedy) and puts
   * k copies in its place, so every maximal run of n copies becomes
   * min(n, k) copies and everything else is copied.
   */
  function CollapseRuns(s: string, c: char, k: nat): (r: string)
    ensures |r| <= |s|
    ensures forall x :: x in r ==> x in s
    ensures k >= 1 && s != [] ==> r != [] && r[0] == s[0]
    decreases |s|
  {
    if s == [] then []
    else if s[0] != c then [s[0]] + CollapseRuns(s[1..], c, k)
    else
      var n := LeadingRun(s, c);
      Repeat(c, if n <= k then n else k) + CollapseRuns(s[n..], c, k)
  }

  /** A run of n copies of `c` in front of anything else becomes min(n, k) copies. */
  lemma CollapseRunsOfRun(n: nat, t: string, c: char, k: nat)
    requires t == [] || t[0] != c
    ensures CollapseRuns(Repeat(c, n) + t, c, k) == Repeat(c, if n <= k then n else k) + CollapseRuns(t, c, k)
  {
    if n == 0 {
      assert Repeat(c, n) + t == t;
      assert Repeat(c, 0) + CollapseRuns(t, c, k) == CollapseRuns(t, c, k);
    } else {
      LeadingRunOfRun(n, t, c);
    }
  }

  /** The leading run of `c`s in front of anything else is exactly that run. */
  lemma {:induction false} LeadingRunOfRun(n: nat, t: string, c: char)
    requires t == [] || t[0] != c
    ensures LeadingRun(Repeat(c, n) + t, c) == n && (Repeat(c, n) + t)[n..] == t
    decreases n
  {
    var s := Repeat(c, n) + t;
    if n == 0 {
      assert s == t;
    } else {
      LeadingRunOfRun(n - 1, t, c);
      assert s[1..] == Repeat(c, n - 1) + t;
    }
  }

  /**
   * Collapsing works run by run: where the two halves do not split a run
   * of `c`, each half is collapsed on its own.
   */
  lemma {:induction false} CollapseRunsConcat(a: string, b: string, c: char, k: nat)
    requires a == [] || b == [] || a[|a| - 1] != c || b[0] != c
    ensures CollapseRuns(a + b, c, k) == CollapseRuns(a, c, k) + CollapseRuns(b, c, k)
    decreases |a|
  {
    if a == [] {
      assert a + b == b;
    } else if b == [] {
      assert a + b == a;
    } else {
      var n := if a[0] != c then 1 else LeadingRun(a, c);
      var front := if a[0] != c then [a[0]] else Repeat(c, if n <= k then n else k);
      if a[0] == c {
        LeadingRunConcat(a, b, c);
      }
      assert (a + b)[n..] == a[n..] + b;
      CollapseRunsConcat(a[n..], b, c, k);
      Regroup(CollapseRuns(a, c, k) + CollapseRuns(b, c, k), front, CollapseRuns(a[n..], c, k),
        CollapseRuns(b, c, k), CollapseRuns(a[n..], c, k) + CollapseRuns(b, c, k));
    }
  }

  /** A run of `c` that the text after it does not extend keeps its length in front of it. */
  lemma {:induction false} LeadingRunConcat(a: string, b: string, c: char)
    requires LeadingRun(a, c) < |a| || b == [] || b[0] != c
    ensures LeadingRun(a + b, c) == LeadingRun(a, c)
    decreases |a|
  {
    if a == [] {
      assert a + b == b;
    } else if a[0] != c {
      assert (a + b)[0] == a[0];
    } else {
      LeadingRunConcat(a[1..], b, c);
      assert (a + b)[1..] == a[1..] + b;
    }
  }

  /**
   * A maximal run of n copies of `c` anywhere in the text becomes min(n, k)
   * copies, and the text on either side is collapsed on its own.
   */
  lemma CollapseRunsOfMidRun(u: string, n: nat, t: string, c: char, k: nat)
    requires u == [] || u[|u| - 1] != c
    requires t == [] || t[0] != c
    ensures CollapseRuns(u + Repeat(c, n) + t, c, k)
      == CollapseRuns(u, c, k) + Repeat(c, if n <= k then n else k) + CollapseRuns(t, c, k)
  {
    CollapseRunsOfRun(n, t, c, k);
    CollapseRunsConcat(u, Repeat(c, n) + t, c, k);
    Assoc(u, Repeat(c, n), t);
    Assoc(CollapseRuns(u, c, k), Repeat(c, if n <= k then n else k), CollapseRuns(t, c, k));
  }

  /** A run of four line breaks between two letters becomes two. */
  lemma CollapseRunsMidExample(text: string)
    requires text == "x\n\n\n\ny"
    ensures CollapseRuns(text, '\n', 2) == "x\n\ny"
  {
    assert text == "x" + Repeat('\n', 4) + "y";
    CollapseRunsOfMidRun("x", 4, "y", '\n', 2);
    assert CollapseRuns("x", '\n', 2) == "x";
    assert CollapseRuns("y", '\n', 2) == "y";
    assert Repeat('\n', 2) == "\n\n";
  }

  /** After collapsing, no run of `c` is longer than k. */
  lemma {:induction false} CollapseRunsBound(s: string, c: char, k: nat)
    ensures NoRunOf(CollapseRuns(s, c, k), c, k + 1)
    decreases |s|
  {
    var r := CollapseRuns(s, c, k);
    if s == [] {
    } else if s[0] != c {
      var rest := CollapseRuns(s[1..], c, k);
      CollapseRunsBound(s[1..], c, k);
      assert r == [s[0]] + rest;
      assert r[0] == s[0];
      var len := k + 1;
      forall i | RunAt(r, i, c, len) ensures false {
        if i > 0 {
          assert RunAt(rest, i - 1, c, k + 1) by {
            forall j | i - 1 <= j < i - 1 + k + 1 ensures rest[j] == c { assert rest[j] == r[j + 1]; }
          }
        }
      }
    } else {
      var n := LeadingRun(s, c);
      var q := if n <= k then n else k;
      var rest := CollapseRuns(s[n..], c, k);
      CollapseRunsBound(s[n..], c, k);
      assert r == Repeat(c, q) + rest;
      // a run starting in the collapsed prefix would reach the first
      // character after it, which is not `c`
      assert rest != [] ==> r[q] == rest[0] == s[n] != c;
      var len := k + 1;
      forall i | RunAt(r, i, c, len) ensures false {
        if i >= q {
          assert RunAt(rest, i - q, c, k + 1) by {
            forall j | i - q <= j < i - q + k + 1 ensures rest[j] == c { assert rest[j] == r[j + q]; }
          }
        }
      }
    }
  }

  /** A text that already has no run longer than k is left as it is. */
  lemma {:induction false} CollapseRunsNoop(s: string, c: char, k: nat)
    requires NoRunOf(s, c, k + 1)
    ensures CollapseRuns(s, c, k) == s
    decreases |s|
  {
    if s == [] {
    } else if s[0] != c {
      NoRunOfSlice(s, c, k + 1, 1, |s|);
      CollapseRunsNoop(s[1..], c, k);
      assert [s[0]] + s[1..] == s;
    } else {
      var n := LeadingRun(s, c);
      LeadingRunWithinLimit(s, c, k);
      NoRunOfSlice(s, c, k + 1, n, |s|);
      CollapseRunsNoop(s[n..], c, k);
    }
  }

  /** A leading run of a text without runs longer than k has at most k copies. */
  lemma LeadingRunWithinLimit(s: string, c: char, k: nat)
    requires NoRunOf(s, c, k + 1)
    ensures LeadingRun(s, c) <= k
    ensures Repeat(c, LeadingRun(s, c)) + s[LeadingRun(s, c)..] == s
  {
    var n := LeadingRun(s, c);
    if n > k { assert RunAt(s, 0, c, k + 1); }
    assert Repeat(c, n) == s[..n];
    assert s[..n] + s[n..] == s;
  }

  /** Collapsing twice is collapsing once. */
  lemma CollapseRunsIdempotent(s: string, c: char, k: nat)
    ensures CollapseRuns(CollapseRuns(s, c, k), c, k) == CollapseRuns(s, c, k)
  {
    CollapseRunsBound(s, c, k);
    CollapseRunsNoop(CollapseRuns(s, c, k), c, k);
  }

  /** Only copies of `c` are removed: the other characters stay, in order. */
  lemma {:induction false} CollapseRunsKeepsOthers(s: string, c: char, k: nat)
    ensures Without(CollapseRuns(s, c, k), c) == Without(s, c)
    decreases |s|
  {
    if s == [] {
    } else if s[0] != c {
      CollapseRunsKeepsOthers(s[1..], c, k);
      WithoutConcat([s[0]], CollapseRuns(s[1..], c, k), c);
      WithoutConcat([s[0]], s[1..], c);
      assert [s[0]] + s[1..] == s;
    } else {
      var n := LeadingRun(s, c);
      var q := if n <= k then n else k;
      CollapseRunsKeepsOthers(s[n..], c, k);
      WithoutConcat(Repeat(c, q), CollapseRuns(s[n..], c, k), c);
      WithoutConcat(s[..n], s[n..], c);
      assert s[..n] + s[n..] == s;
      WithoutOnlyC(s[..n], c);
      WithoutOnlyC(Repeat(c, q), c);
    }
  }

  /** Deleting `c` from a run of `c` leaves nothing. */
  lemma {:induction false} WithoutOnlyC(s: string, c: char)
    requires forall j :: 0 <= j < |s| ==> s[j] == c
    ensures Without(s, c) == []
    decreases |s|
  {
    if s != [] { WithoutOnlyC(s[1..], c); }
  }

  /** If the collapsed text starts with m copies of `d` (not `c`), so did the input. */
  lemma {:induction false} CollapseRunsPrefix(t: string, c: char, k: nat, d: char, m: nat)
    requires c != d && k >= 1
    requires m <= |CollapseRuns(t, c, k)|
    requires forall j :: 0 <= j < m ==> CollapseRuns(t, c, k)[j] == d
    ensures m <= |t| && forall j :: 0 <= j < m ==> t[j] == d
    ensures RunAt(t, 0, d, m)
    decreases m
  {
    if m > 0 {
      var r := CollapseRuns(t, c, k);
      assert t[0] == r[0] == d;
      var rest := CollapseRuns(t[1..], c, k);
      assert r == [t[0]] + rest;
      forall j | 0 <= j < m - 1 ensures rest[j] == d { assert rest[j] == r[j + 1]; }
      CollapseRunsPrefix(t[1..], c, k, d, m - 1);
      forall j | 1 <= j < m ensures t[j] == d { assert t[j] == t[1..][j - 1]; }
    }
  }

  /** Collapsing runs of `c` never lengthens a run of another character. */
  lemma {:induction false} CollapseRunsKeepsOtherRunsShort(s: string, c: char, k: nat, d: char, m: nat)
    requires c != d && k >= 1
    requires NoRunOf(s, d, m)
    ensures NoRunOf(CollapseRuns(s, c, k), d, m)
    decreases |s|
  {
    var r := CollapseRuns(s, c, k);
    assert m > 0 by { assert RunAt(s, 0, d, 0); }
    if s == [] {
    } else if s[0] != c {
      var rest := CollapseRuns(s[1..], c, k);
      assert r == [s[0]] + rest;
      NoRunOfSlice(s, d, m, 1, |s|);
      CollapseRunsKeepsOtherRunsShort(s[1..], c, k, d, m);
      forall i | RunAt(r, i, d, m) ensures false {
        if i == 0 {
          // then the input has the same run at its start
          CollapseRunsPrefix(s, c, k, d, m);
        } else {
          assert RunAt(rest, i - 1, d, m) by {
            forall j | i - 1 <= j < i - 1 + m ensures rest[j] == d { assert rest[j] == r[j + 1]; }
          }
        }
      }
    } else {
      var n := LeadingRun(s, c);
      var q := if n <= k then n else k;
      var rest := CollapseRuns(s[n..], c, k);
      assert r == Repeat(c, q) + rest;
      assert forall j :: 0 <= j < q ==> r[j] == c;
      NoRunOfSlice(s, d, m, n, |s|);
      CollapseRunsKeepsOtherRunsShort(s[n..], c, k, d, m);
      // a run of `d` cannot start inside the copies of `c`
      forall i | RunAt(r, i, d, m) ensures false {
        assert r[i] == d;
        if i >= q {
          assert RunAt(rest, i - q, d, m) by {
            forall j | i - q <= j < i - q + m ensures rest[j] == d { assert rest[j] == r[j + q]; }
          }
        }
      }
    }
  }

  /**
   * `clean_extracted_text`: newline runs of three or more become two, space
   * runs of two or more become one, null characters are deleted (last), and
   * surrounding whitespace is stripped.
   */
  function CleanExtractedText(text: string): (r: string)
    ensures '\0' !in r
    ensures r == [] || (!IsSpace(r[0]) && !IsSpace(r[|r| - 1]))
    ensures |r| <= |text|
  {
    var collapsed := CollapseRuns(CollapseRuns(text, '\n', 2), ' ', 1);
    var stripped := Strip(Without(collapsed, '\0'));
    StripIsSlice(Without(collapsed, '\0'));
    stripped
  }

  /**
   * On text without null characters, the cleaned text has no run of three
   * newlines and no run of two spaces.
   */
  lemma CleanLimitsRuns(text: string)
    requires '\0' !in text
    ensures NoRunOf(CleanExtractedText(text), '\n', 3)
    ensures NoRunOf(CleanExtractedText(text), ' ', 2)
  {
    var b := CollapseRuns(CollapseRuns(text, '\n', 2), ' ', 1);
    CollapsedRunsAreShort(text);
    WithoutAbsent(b, '\0');
    StripKeepsShortRuns(b, '\n', 3);
    StripKeepsShortRuns(b, ' ', 2);
  }

  /** Both collapsing steps together leave newline runs of at most two and single spaces. */
  lemma CollapsedRunsAreShort(text: string)
    ensures var b := CollapseRuns(CollapseRuns(text, '\n', 2), ' ', 1);
      NoRunOf(b, '\n', 3) && NoRunOf(b, ' ', 2)
  {
    var a := CollapseRuns(text, '\n', 2);
    CollapseRunsBound(text, '\n', 2);
    CollapseRunsBound(a, ' ', 1);
    CollapseRunsKeepsOtherRunsShort(a, ' ', 1, '\n', 3);
  }

  /** Stripping cannot create a run. */
  lemma StripKeepsShortRuns(s: string, c: char, len: nat)
    requires NoRunOf(s, c, len)
    ensures NoRunOf(Strip(s), c, len)
  {
    var l := StripLeft(s);
    NoRunOfSlice(s, c, len, |s| - |l|, |s|);
    NoRunOfSlice(l, c, len, 0, |StripRight(l)|);
    assert Strip(s) == StripRight(l);
  }

  /**
   * Null characters are deleted after the runs are collapsed, so they can
   * join two newline runs into one of three: the guarantee above needs its
   * precondition.
   */
  lemma CleanNullJoinsRuns(text: string)
    requires text == "a\n\n\0\nb"
    ensures RunAt(CleanExtractedText(text), 1, '\n', 3)
  {
    var joined := "a\n\n\nb";
    NullExampleHasNoRuns(text);
    NullExampleWithout(text, joined);
    CleanOfShortRuns(text, joined);
  }

  lemma NullExampleHasNoRuns(text: string)
    requires text == "a\n\n\0\nb"
    ensures NoRunOf(text, '\n', 3) && NoRunOf(text, ' ', 2)
  {
    forall i | 0 <= i && i + 3 <= |text| ensures !RunAt(text, i, '\n', 3) {
      assert text[if i == 0 then 0 else 3] != '\n';
    }
    forall i | 0 <= i && i + 2 <= |text| ensures !RunAt(text, i, ' ', 2) {
      assert text[i] != ' ';
    }
  }

  lemma NullExampleWithout(text: string, joined: string)
    requires text == "a\n\n\0\nb" && joined == "a\n\n\nb"
    ensures Without(text, '\0') == joined
    ensures joined != [] && !IsSpace(joined[0]) && !IsSpace(joined[|joined| - 1])
    ensures RunAt(joined, 1, '\n', 3)
  {
    assert text == "a\n\n" + "\0" + "\nb";
    WithoutConcat("a\n\n" + "\0", "\nb", '\0');
    WithoutConcat("a\n\n", "\0", '\0');
    WithoutAbsent("a\n\n", '\0');
    WithoutAbsent("\nb", '\0');
    assert Without("\0", '\0') == [];
  }

  /** Four line breaks in a row come out as two. */
  lemma CleanCollapsesNewlineRun(text: string)
    requires text == "a\n\n\n\nb"
    ensures CleanExtractedText(text) == "a\n\nb"
  {
    var lines := "a\n\nb";
    NewlineExampleCollapses(text, lines);
    NoRunOfAbsent(lines, ' ', 2);
    CollapseRunsNoop(lines, ' ', 1);
    WithoutAbsent(lines, '\0');
    StripStripped(lines);
  }

  lemma NewlineExampleCollapses(text: string, lines: string)
    requires text == "a\n\n\n\nb" && lines == "a\n\nb"
    ensures CollapseRuns(text, '\n', 2) == lines
  {
    assert text[1..] == Repeat('\n', 4) + "b";
    CollapseRunsOfRun(4, "b", '\n', 2);
    assert CollapseRuns("b", '\n', 2) == "b";
    assert lines == "a" + Repeat('\n', 2) + "b";
  }

  /** Cleaning a text whose runs are already short only deletes nulls and strips. */
  lemma CleanOfShortRuns(text: string, joined: string)
    requires NoRunOf(text, '\n', 3) && NoRunOf(text, ' ', 2)
    requires Without(text, '\0') == joined
    requires joined != [] && !IsSpace(joined[0]) && !IsSpace(joined[|joined| - 1])
    ensures CleanExtractedText(text) == joined
  {
    CollapseRunsNoop(text, '\n', 2);
    CollapseRunsNoop(text, ' ', 1);
    StripStripped(joined);
  }

  /** On text without null characters, cleaning twice is cleaning once. */
  lemma CleanIdempotent(text: string)
    requires '\0' !in text
    ensures CleanExtractedText(CleanExtractedText(text)) == CleanExtractedText(text)
  {
    var r := CleanExtractedText(text);
    CleanLimitsRuns(text);
    CollapseRunsNoop(r, '\n', 2);
    CollapseRunsNoop(r, ' ', 1);
    WithoutAbsent(r, '\0');
    StripStripped(r);
  }

  /** Collapsing runs of `c` keeps every other character. */
  lemma CollapseRunsKeeps(s: string, c: char, k: nat, x: char)
    requires x != c && x in s
    ensures x in CollapseRuns(s, c, k)
  {
    CollapseRunsKeepsOthers(s, c, k);
    WithoutKeeps(s, c, x);
  }

  /** Cleaning deletes only whitespace and null characters. */
  lemma CleanKeepsVisible(text: string, x: char)
    requires x != '\0' && !IsSpace(x) && x in text
    ensures x in CleanExtractedText(text)
  {
    var a := CollapseRuns(text, '\n', 2);
    var b := CollapseRuns(a, ' ', 1);
    CollapseRunsKeeps(text, '\n', 2, x);
    CollapseRunsKeeps(a, ' ', 1, x);
    WithoutKeeps(b, '\0', x);
    StripKeeps(Without(b, '\0'), x);
  }

  // ---------------------------------------------------------------------
  // extract_text_from_pdf
  // ---------------------------------------------------------------------

  /** Default number of pages read from a PDF. */
  const MaxPages: int := 20

  /** Separator placed between the texts of two kept pages. */
  const PageSeparator: string := "\n\n"

  /**
   * `range(min(len(doc), max_pages))`: how many leading pages are read; a
   * negative limit gives an empty range.
   */
  function PagesToExtract(pageCount: nat, maxPages: int): (n: nat)
    ensures n <= pageCount
    ensures n == pageCount || n == maxPages || (maxPages < 0 && n == 0)
    ensures maxPages >= 0 ==> n <= maxPages
    ensures maxPages < 0 ==> n == 0
  {
    if pageCount <= maxPages then pageCount
    else if maxPages < 0 then 0
    else maxPages
  }

  /**
   * A page is kept when `text.strip()` is not empty, which by the contract
   * of `Strip` is when the page is not all whitespace.
   */
  predicate IsKept(page: string) {
    !AllSpace(page)
  }

  /** A page is kept exactly when `text.strip()` is a non-empty, truthy string. */
  lemma IsKeptIffStripped(page: string)
    ensures IsKept(page) <==> Strip(page) != []
  {
  }

  /** The page as a list of kept pages: itself, or nothing when blank. */
  function KeptPage(page: string): seq<string>
  {
    if IsKept(page) then [page] else []
  }

  /** The texts of the kept pages, in page order. */
  function KeptPages(pages: seq<string>): (kept: seq<string>)
    ensures |kept| <= |pages|
    ensures forall k :: 0 <= k < |kept| ==> IsKept(kept[k])
    decreases |pages|
  {
    if pages == [] then []
    else
      var last := pages[|pages| - 1];
      var front := pages[..|pages| - 1];
      var kept := KeptPages(front);
      assert forall k :: 0 <= k < |kept| ==> IsKept((kept + KeptPage(last))[k]);
      kept + KeptPage(last)
  }

  /** A page text is kept exactly when it occurs among the pages and is not blank. */
  lemma {:induction false} KeptPagesMembers(pages: seq<string>, p: string)
    ensures p in KeptPages(pages) <==> p in pages && IsKept(p)
    decreases |pages|
  {
    if pages != [] {
      var front := pages[..|pages| - 1];
      SplitLast(pages);
      KeptPagesMembers(front, p);
    }
  }

  /** Adding a page at the end keeps it when it is not blank. */
  lemma KeptPagesSnoc(front: seq<string>, last: string)
    ensures KeptPages(front + [last]) == KeptPages(front) + KeptPage(last)
  {
    FrontOfSnoc(front, last);
  }

  /** Reading one more page of a document. */
  lemma KeptPagesNext(doc: seq<string>, i: nat)
    requires i < |doc|
    ensures KeptPages(doc[..i + 1]) == KeptPages(doc[..i]) + KeptPage(doc[i])
  {
    TakeNext(doc, i);
    KeptPagesSnoc(doc[..i], doc[i]);
  }

  /** One iteration of the page loop, seen from the specification. */
  lemma ExtractStep(doc: seq<string>, i: nat, parts: seq<string>)
    requires i < |doc| && parts == KeptPages(doc[..i])
    ensures IsKept(doc[i]) ==> KeptPages(doc[..i + 1]) == parts + [doc[i]]
    ensures !IsKept(doc[i]) ==> KeptPages(doc[..i + 1]) == parts
  {
    KeptPagesNext(doc, i);
  }

  /** Keeping pages distributes over concatenation of page lists. */
  lemma {:induction false} KeptPagesConcat(a: seq<string>, b: seq<string>)
    ensures KeptPages(a + b) == KeptPages(a) + KeptPages(b)
    decreases |b|
  {
    if b == [] {
      assert a + b == a;
    } else {
      var front := b[..|b| - 1];
      var last := b[|b| - 1];
      KeptPagesConcat(a, front);
      KeptPagesConcatStep(a, front, last);
      SplitLast(b);
    }
  }

  lemma KeptPagesConcatStep(a: seq<string>, front: seq<string>, last: string)
    requires KeptPages(a + front) == KeptPages(a) + KeptPages(front)
    ensures KeptPages(a + (front + [last])) == KeptPages(a) + KeptPages(front + [last])
  {
    SnocAssoc(a, front, last);
    KeptPagesSnoc(a + front, last);
    KeptPagesSnoc(front, last);
    Regroup(KeptPages(a + (front + [last])), KeptPages(a), KeptPages(front), KeptPage(last),
      KeptPages(front + [last]));
  }

  /**
   * The whole of `extract_text_from_pdf` on a document given as its page
   * texts: the kept pages among the first `maxPages`, joined by a blank
   * line, then cleaned.
   */
  function ExtractedText(doc: seq<string>, maxPages: int): (text: string)
    ensures '\0' !in text
    ensures text == [] || (!IsSpace(text[0]) && !IsSpace(text[|text| - 1]))
  {
    var n := PagesToExtract(|doc|, maxPages);
    CleanExtractedText(Join(KeptPages(doc[..n]), PageSeparator))
  }

  /** `extract_text_from_pdf(doc, max_pages)`, page by page. */
  method ExtractTextFromPdf(doc: seq<string>, maxPages: int) returns (text: string)
    ensures text == ExtractedText(doc, maxPages)
  {
    var textParts: seq<string> := [];
    var pagesToExtract := if |doc| <= maxPages then |doc| else maxPages;
    var pageNum := 0;
    while pageNum < pagesToExtract
      invariant 0 <= pageNum <= |doc|
      invariant pageNum <= pagesToExtract || pageNum == 0
      invariant textParts == KeptPages(doc[..pageNum])
    {
      var pageText := doc[pageNum];
      ExtractStep(doc, pageNum, textParts);
      if IsKept(pageText) {
        textParts := textParts + [pageText];
      }
      pageNum := pageNum + 1;
    }
    assert pageNum == PagesToExtract(|doc|, maxPages);
    var fullText := Join(textParts, PageSeparator);
    text := CleanExtractedText(fullText);
  }

  /** A character of a kept page occurs in the joined text. */
  lemma JoinKeeps(parts: seq<string>, sep: string, page: string, x: char)
    requires page in parts && x in page
    ensures x in Join(parts, sep)
  {
    var j :| 0 <= j < |parts| && parts[j] == page;
    JoinContainsParts(parts, sep, j);
    var i :| OccursAt(Join(parts, sep), i, page);
    var t :| 0 <= t < |page| && page[t] == x;
    assert Join(parts, sep)[i + t] == x;
  }

  /** Every visible character of a page that is read reaches the extracted text. */
  lemma ExtractKeepsVisible(doc: seq<string>, maxPages: int, k: int, x: char)
    requires 0 <= k < PagesToExtract(|doc|, maxPages)
    requires x != '\0' && !IsSpace(x) && x in doc[k]
    ensures x in ExtractedText(doc, maxPages)
  {
    var n := PagesToExtract(|doc|, maxPages);
    var page := doc[k];
    assert page in doc[..n] by { assert doc[..n][k] == page; }
    StripKeeps(page, x);
    KeptPagesMembers(doc[..n], page);
    var joined := Join(KeptPages(doc[..n]), PageSeparator);
    JoinKeeps(KeptPages(doc[..n]), PageSeparator, page, x);
    CleanKeepsVisible(joined, x);
  }

  /** Pages past the limit never influence the extracted text. */
  lemma ExtractIgnoresLaterPages(doc: seq<string>, more: seq<string>, maxPages: int)
    requires maxPages <= |doc|
    ensures ExtractedText(doc + more, maxPages) == ExtractedText(doc, maxPages)
  {
    var n := PagesToExtract(|doc|, maxPages);
    assert PagesToExtract(|doc + more|, maxPages) == n;
    assert (doc + more)[..n] == doc[..n];
  }

  /** Dropping a blank page leaves the kept pages as they are. */
  lemma KeptPagesSkipBlank(a: seq<string>, blank: string, b: seq<string>)
    requires !IsKept(blank)
    ensures KeptPages(a + [blank] + b) == KeptPages(a + b)
  {
    KeptPagesSnoc(a, blank);
    KeptPagesConcat(a + [blank], b);
    KeptPagesConcat(a, b);
  }

  /** A blank page adds no separator: removing it changes nothing but the page count. */
  lemma ExtractSkipsBlankPage(a: seq<string>, blank: string, b: seq<string>, maxPages: int)
    requires !IsKept(blank)
    requires |a| < maxPages
    ensures ExtractedText(a + [blank] + b, maxPages) == ExtractedText(a + b, maxPages - 1)
  {
    var n := PagesToExtract(|a + [blank] + b|, maxPages);
    var m := PagesToExtract(|a + b|, maxPages - 1);
    assert n == m + 1;
    var tail := b[..m - |a|];
    assert (a + [blank] + b)[..n] == a + [blank] + tail;
    assert (a + b)[..m] == a + tail;
    KeptPagesSkipBlank(a, blank, tail);
  }

  /** If every page read is blank the result is the empty text. */
  lemma ExtractBlankDocument(doc: seq<string>, maxPages: int)
    requires forall k :: 0 <= k < |doc| ==> !IsKept(doc[k])
    ensures ExtractedText(doc, maxPages) == []
  {
    var n := PagesToExtract(|doc|, maxPages);
    var kept := KeptPages(doc[..n]);
    if kept != [] {
      KeptPagesMembers(doc[..n], kept[0]);
    }
    assert Join(kept, PageSeparator) == [];
    assert Without([], '\0') == [];
  }

  /** Text with at least one character and no whitespace or null character. */
  predicate IsWord(s: string) {
    s != [] && forall i :: 0 <= i < |s| ==> !IsSpace(s[i]) && s[i] != '\0'
  }

  /** Two pages that are single words come out joined by a blank line. */
  lemma ExtractTwoPages(first: string, second: string, maxPages: int)
    requires IsWord(first) && IsWord(second) && maxPages >= 2
    ensures ExtractedText([first, second], maxPages) == first + PageSeparator + second
  {
    var doc := [first, second];
    PairIsSnoc(first, second);
    assert !AllSpace(first) && !AllSpace(second) by {
      assert !IsSpace(first[0]) && !IsSpace(second[0]);
    }
    KeptPagesSnoc([], first);
    KeptPagesSnoc([first], second);
    assert KeptPages([]) == [];
    assert PagesToExtract(|doc|, maxPages) == 2;
    var text := first + PageSeparator + second;
    assert Join(doc, PageSeparator) == text;
    WordsJoinedAreClean(first, second, text);
  }

  lemma PairIsSnoc<T>(a: T, b: T)
    ensures [a, b] == [a] + [b] && [a] == [] + [a]
    ensures [a, b][..2] == [a, b] && [a, b][..1] == [a]
  {
  }

  /** A blank line between two words survives cleaning. */
  lemma WordsJoinedAreClean(first: string, second: string, text: string)
    requires IsWord(first) && IsWord(second) && text == first + PageSeparator + second
    ensures CleanExtractedText(text) == text
  {
    forall i ensures !RunAt(text, i, '\n', 3) {
      if 0 <= i && i + 3 <= |text| {
        var j := if i < |first| then i else i + 2;
        assert text[j] != '\n' by {
          if i < |first| {
            assert text[j] == first[i];
          } else {
            assert text[j] == second[j - |first| - 2];
          }
        }
      }
    }
    assert ' ' !in text && '\0' !in text by {
      assert ' ' !in first && '\0' !in first;
      assert ' ' !in second && '\0' !in second;
    }
    NoRunOfAbsent(text, ' ', 2);
    WithoutAbsent(text, '\0');
    assert text[|text| - 1] == second[|second| - 1];
    CleanOfShortRuns(text, text);
  }

  // ---------------------------------------------------------------------
  // get_paper_content
  // ---------------------------------------------------------------------

  /** Default character budget of the returned content. */
  const MaxChars: int := 50000

  /** Appended to content cut at the budget. */
  const TruncationNotice: string := "\n\n[Content truncated due to length...]"

  const DefaultTitle: string := "Unknown"
  const DefaultAbstract: string := "No abstract available"
  const TitleLabel: string := "Title: "
  const AbstractLabel: string := "\n\nAbstract: "

  /**
   * `s[:n]`: Python clamps the bound to the text, and a negative bound
   * counts from the end.
   */
  function PyPrefix(s: string, n: int): (r: string)
    ensures |r| <= |s| && r == s[..|r|]
    ensures 0 <= n <= |s| ==> |r| == n
    ensures n > |s| ==> r == s
    ensures n < 0 ==> |r| == (if |s| + n < 0 then 0 else |s| + n)
  {
    if n >= |s| then s
    else if n >= 0 then s[..n]
    else if |s| + n < 0 then []
    else s[..|s| + n]
  }

  /** The truncation step: `text[:max_chars] + notice` when the text is too long. */
  function Truncate(text: string, maxChars: int): (r: string)
    ensures |text| <= maxChars ==> r == text
    ensures |text| > maxChars ==>
      var kept := |r| - |TruncationNotice|;
      0 <= kept <= |text| && r == text[..kept] + TruncationNotice
    ensures |text| > maxChars && maxChars >= 0 ==> |r| == maxChars + |TruncationNotice|
  {
    if |text| > maxChars then
      var prefix := PyPrefix(text, maxChars);
      assert prefix == text[..|prefix|];
      prefix + TruncationNotice
    else text
  }

  /** With a non-negative budget the content never exceeds budget plus notice. */
  lemma TruncateBound(text: string, maxChars: int)
    requires maxChars >= 0
    ensures |Truncate(text, maxChars)| <= maxChars + |TruncationNotice|
  {
  }

  /**
   * A negative budget drops that many characters from the end and still
   * adds the notice, even to the empty text.
   */
  lemma TruncateNegative(text: string, maxChars: int)
    requires maxChars < 0
    ensures EndsWith(Truncate(text, maxChars), TruncationNotice)
    ensures |Truncate(text, maxChars)| == (if |text| + maxChars < 0 then 0 else |text| + maxChars) + |TruncationNotice|
  {
  }

  /** The dictionary a paper is passed around as: each key may be missing. */
  datatype PaperDict = PaperDict(title: Option<string>, abstractText: Option<string>, link: Option<string>)

  /** `f"Title: {title}\n\nAbstract: {abstract}"` with the documented defaults. */
  function FallbackContent(paper: PaperDict): (r: string)
    ensures |r| == |TitleLabel| + |paper.title.GetOr(DefaultTitle)| + |AbstractLabel| + |paper.abstractText.GetOr(DefaultAbstract)|
    ensures var title := paper.title.GetOr(DefaultTitle);
      |TitleLabel| + |title| <= |r|
      && r[..|TitleLabel|] == TitleLabel
      && r[|TitleLabel|..|TitleLabel| + |title|] == title
    ensures EndsWith(r, AbstractLabel + paper.abstractText.GetOr(DefaultAbstract))
  {
    var title := paper.title.GetOr(DefaultTitle);
    var abstractText := paper.abstractText.GetOr(DefaultAbstract);
    var r := TitleLabel + title + AbstractLabel + abstractText;
    assert r[|TitleLabel|..|TitleLabel| + |title|] == (TitleLabel + title)[|TitleLabel|..];
    assert r == TitleLabel + title + (AbstractLabel + abstractText);
    r
  }

  /** A paper with neither title nor abstract falls back to the two defaults. */
  lemma FallbackDefaults(paper: PaperDict)
    requires paper.title.None? && paper.abstractText.None?
    ensures FallbackContent(paper) == TitleLabel + DefaultTitle + AbstractLabel + DefaultAbstract
  {
  }

  /**
   * Downloading the PDF at a URL and opening it: the texts of its pages,
   * or None when the request or the PDF parser raises.
   */
  type PdfSource = string -> Option<seq<string>>

  /**
   * `get_paper_content(paper, max_chars)`: the cleaned text of the paper's
   * PDF, truncated to the budget; the title and abstract when the link is
   * missing or the PDF cannot be fetched or read.
   */
  function GetPaperContent(paper: PaperDict, source: PdfSource, maxChars: int): (content: string)
    ensures paper.link.None? ==> content == FallbackContent(paper)
    ensures paper.link.Some? && source(GetPdfUrl(paper.link.value)).None? ==> content == FallbackContent(paper)
    ensures paper.link.Some? && source(GetPdfUrl(paper.link.value)).Some? ==>
      content == Truncate(ExtractedText(source(GetPdfUrl(paper.link.value)).value, MaxPages), maxChars)
  {
    match paper.link
    case None => FallbackContent(paper)
    case Some(link) =>
      match source(GetPdfUrl(link))
      case None => FallbackContent(paper)
      case Some(doc) => Truncate(ExtractedText(doc, MaxPages), maxChars)
  }

  /** The fallback is never empty and always starts with the title line. */
  lemma GetPaperContentFallback(paper: PaperDict, source: PdfSource, maxChars: int)
    requires paper.link.None? || source(GetPdfUrl(paper.link.value)).None?
    ensures var content := GetPaperContent(paper, source, maxChars);
      content != [] && content[..|TitleLabel|] == TitleLabel
  {
  }

  /** Content fetched from the PDF stays within budget plus notice. */
  lemma GetPaperContentBounded(paper: PaperDict, source: PdfSource, maxChars: int)
    requires maxChars >= 0
    requires paper.link.Some? && source(GetPdfUrl(paper.link.value)).Some?
    ensures |GetPaperContent(paper, source, maxChars)| <= maxChars + |TruncationNotice|
  {
    TruncateBound(ExtractedText(source(GetPdfUrl(paper.link.value)).value, MaxPages), maxChars);
  }

  /**
   * A PDF whose pages are all blank yields the empty text, not the
   * fallback: the empty result is returned as it is.
   */
  lemma GetPaperContentBlankPdf(paper: PaperDict, source: PdfSource, maxChars: int)
    requires maxChars >= 0
    requires paper.link.Some? && source(GetPdfUrl(paper.link.value)).Some?
    requires var doc := source(GetPdfUrl(paper.link.value)).value;
      forall k :: 0 <= k < |doc| ==> !IsKept(doc[k])
    ensures GetPaperContent(paper, source, maxChars) == []
  {
    ExtractBlankDocument(source(GetPdfUrl(paper.link.value)).value, MaxPages);
  }

  /** A visible character on one of the first pages reaches the content when it fits the budget. */
  lemma GetPaperContentKeepsVisible(paper: PaperDict, source: PdfSource, maxChars: int, k: int, x: char)
    requires paper.link.Some? && source(GetPdfUrl(paper.link.value)).Some?
    requires var doc := source(GetPdfUrl(paper.link.value)).value;
      0 <= k < PagesToExtract(|doc|, MaxPages) && x != '\0' && !IsSpace(x) && x in doc[k]
    requires |ExtractedText(source(GetPdfUrl(paper.link.value)).value, MaxPages)| <= maxChars
    ensures x in GetPaperContent(paper, source, maxChars)
  {
    ExtractKeepsVisible(source(GetPdfUrl(paper.link.value)).value, MaxPages, k, x);
  }
}
