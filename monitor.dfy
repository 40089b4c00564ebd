/**
 * The arXiv monitor: asks the arXiv API for the newest papers matching a
 * query, reports the entries whose id it has not seen before as paper
 * records, remembers their ids and writes the remembered ids to a JSON
 * file so that the next run (or the next process) skips them.
 */
module Monitor {
  import opened Text

  // ---------------------------------------------------------------------
  // The request
  // ---------------------------------------------------------------------

  /** Default search query (categories AI, machine learning, computation and language). */
  const ArxivQuery: string := "cat:cs.AI OR cat:cs.LG OR cat:cs.CL"

  /** Default number of results asked for. */
  const MaxPapersPerRun: int := 5

  const ApiBase: string := "https://export.arxiv.org/api/query?"
  const QueryKey: string := "search_query="
  const ResultsKey: string := "&start=0&max_results="
  const SortKeys: string := "&sortBy=submittedDate&sortOrder=descending"

  function DigitChar(d: int): (c: char)
    requires 0 <= d < 10
    ensures '0' <= c <= '9' && c as int - '0' as int == d
  {
    ('0' as int + d) as char
  }

  predicate IsDigits(s: string) {
    forall i :: 0 <= i < |s| ==> '0' <= s[i] <= '9'
  }

  /** `str(n)` for a natural number: decimal digits, no leading zero. */
  function NatToString(n: nat): (r: string)
    ensures r != [] && IsDigits(r)
    ensures r[0] == '0' ==> n == 0
    decreases n
  {
    if n < 10 then [DigitChar(n)]
    else NatToString(n / 10) + [DigitChar(n % 10)]
  }

  /** `str(n)` for any integer. */
  function IntToString(n: int): (r: string)
    ensures ' ' !in r
    ensures n >= 0 ==> IsDigits(r) && r == NatToString(n)
    ensures n < 0 ==> |r| > 1 && r[0] == '-' && IsDigits(r[1..]) && r[1..] == NatToString(-n)
  {
    if n < 0 then "-" + NatToString(-n) else NatToString(n)
  }

  /** The value of a string of decimal digits. */
  function ParseDigits(s: string): nat
    requires IsDigits(s)
    decreases |s|
  {
    if s == [] then 0
    else ParseDigits(s[..|s| - 1]) * 10 + (s[|s| - 1] as int - '0' as int)
  }

  /** Reading the digits back gives the number written. */
  lemma {:induction false} NatToStringRoundTrip(n: nat)
    ensures ParseDigits(NatToString(n)) == n
    decreases n
  {
    if n >= 10 {
      NatToStringRoundTrip(n / 10);
      var r := NatToString(n);
      assert r[..|r| - 1] == NatToString(n / 10);
    }
  }

  /** `query.replace(" ", "+")`: the query as it goes into the URL. */
  function EncodeQuery(query: string): (r: string)
    ensures |r| == |query| && ' ' !in r
    ensures forall i :: 0 <= i < |query| ==> r[i] == if query[i] == ' ' then '+' else query[i]
  {
    ReplaceCharAt(query, ' ', '+');
    ReplaceCharRemoves(query, ' ', '+');
    Replace(query, " ", "+")
  }

  /**
   * The request URL: the query (or the default) with its spaces turned
   * into `+`, and the result count (or the default).
   */
  function RequestUrl(query: Option<string>, maxResults: Option<int>): (url: string)
    ensures |ApiBase| <= |url| && url[..|ApiBase|] == "https://export.arxiv.org/api/query?"
    ensures url[|ApiBase|..] == RequestParameters(query, maxResults)
  {
    ApiBase + RequestParameters(query, maxResults)
  }

  /**
   * The part of the request URL after `?`: the encoded query after its key,
   * the result count after its key, then the fixed sort order.
   */
  function RequestParameters(query: Option<string>, maxResults: Option<int>): (r: string)
    ensures var encoded := EncodeQuery(query.GetOr(ArxivQuery));
      var count := IntToString(maxResults.GetOr(MaxPapersPerRun));
      var countAt := |QueryKey| + |encoded| + |ResultsKey|;
      |r| == countAt + |count| + |SortKeys|
      && r[..|QueryKey|] == "search_query="
      && r[|QueryKey|..|QueryKey| + |encoded|] == encoded
      && r[|QueryKey| + |encoded|..countAt] == "&start=0&max_results="
      && r[countAt..countAt + |count|] == count
      && EndsWith(r, "&sortBy=submittedDate&sortOrder=descending")
  {
    var encoded := EncodeQuery(query.GetOr(ArxivQuery));
    var count := IntToString(maxResults.GetOr(MaxPapersPerRun));
    FiveParts(QueryKey, encoded, ResultsKey, count, SortKeys);
    QueryKey + encoded + ResultsKey + count + SortKeys
  }

  /** Where each of five concatenated strings sits in the whole. */
  lemma FiveParts(a: string, b: string, c: string, d: string, e: string)
    ensures var r := a + b + c + d + e;
      var dAt := |a| + |b| + |c|;
      |r| == dAt + |d| + |e|
      && r[..|a|] == a && r[|a|..|a| + |b|] == b && r[|a| + |b|..dAt] == c
      && r[dAt..dAt + |d|] == d && EndsWith(r, e)
  {
    var r := a + b + c + d + e;
    var dAt := |a| + |b| + |c|;
    assert r[..|a|] == a;
    assert r[|a|..|a| + |b|] == b;
    assert r[|a| + |b|..dAt] == c;
    assert r[dAt..dAt + |d|] == d;
    assert r[|r| - |e|..] == e;
  }

  /** The request URL never holds a space. */
  lemma RequestUrlHasNoSpace(query: Option<string>, maxResults: Option<int>)
    ensures ' ' !in RequestUrl(query, maxResults)
  {
    var encoded := EncodeQuery(query.GetOr(ArxivQuery));
    var count := IntToString(maxResults.GetOr(MaxPapersPerRun));
    KeysHaveNoSpace();
    NoSpaceConcat(QueryKey, encoded);
    NoSpaceConcat(QueryKey + encoded, ResultsKey);
    NoSpaceConcat(QueryKey + encoded + ResultsKey, count);
    NoSpaceConcat(QueryKey + encoded + ResultsKey + count, SortKeys);
    NoSpaceConcat(ApiBase, RequestParameters(query, maxResults));
  }

  lemma KeysHaveNoSpace()
    ensures ' ' !in ApiBase && ' ' !in QueryKey && ' ' !in ResultsKey && ' ' !in SortKeys
  {
    LiteralHasNoSpace(ApiBase);
    LiteralHasNoSpace(QueryKey);
    LiteralHasNoSpace(ResultsKey);
    LiteralHasNoSpace(SortKeys);
  }

  lemma LiteralHasNoSpace(s: string)
    requires forall i :: 0 <= i < |s| ==> s[i] != ' '
    ensures ' ' !in s
  {
  }

  lemma NoSpaceConcat(a: string, b: string)
    requires ' ' !in a && ' ' !in b
    ensures ' ' !in a + b
  {
  }

  // ---------------------------------------------------------------------
  // Feed entries and paper records
  // ---------------------------------------------------------------------

  /** The attributes read from one entry of the parsed Atom feed. */
  datatype Entry = Entry(id: string, title: string, summary: string, link: string, published: string)

  /** What requesting the feed gives: an exception, or a status code and the parsed entries. */
  datatype FeedResponse = Raised | Http(status: int, entries: seq<Entry>)

  /** The arXiv API as seen from the monitor: the response to a request URL. */
  type ArxivApi = string -> FeedResponse

  /** The dictionary built for a new paper. */
  datatype PaperRecord = PaperRecord(id: string, title: string, abstractText: string, link: string, published: string)

  /** `r` is `s` with every line break turned into a space. */
  predicate LineBreaksToSpaces(s: string, r: string) {
    |r| == |s| && forall i :: 0 <= i < |s| ==> r[i] == if s[i] == '\n' then ' ' else s[i]
  }

  /**
   * The record of an entry: title and summary with their line breaks turned
   * into spaces, everything else copied.
   */
  function Record(e: Entry): (p: PaperRecord)
    ensures p.id == e.id && p.link == e.link && p.published == e.published
    ensures '\n' !in p.title && '\n' !in p.abstractText
    ensures LineBreaksToSpaces(e.title, p.title) && LineBreaksToSpaces(e.summary, p.abstractText)
  {
    ReplaceCharAt(e.title, '\n', ' ');
    ReplaceCharAt(e.summary, '\n', ' ');
    ReplaceCharRemoves(e.title, '\n', ' ');
    ReplaceCharRemoves(e.summary, '\n', ' ');
    PaperRecord(e.id, Replace(e.title, "\n", " "), Replace(e.summary, "\n", " "), e.link, e.published)
  }

  /** The ids of a list of entries. */
  function Ids(entries: seq<Entry>): (ids: set<string>)
    decreases |entries|
  {
    if entries == [] then {}
    else Ids(entries[..|entries| - 1]) + {entries[|entries| - 1].id}
  }

  lemma IdsSnoc(front: seq<Entry>, e: Entry)
    ensures Ids(front + [e]) == Ids(front) + {e.id}
  {
    FrontOfSnoc(front, e);
  }

  /** The ids of a concatenation are the ids of its parts. */
  lemma {:induction false} IdsConcat(a: seq<Entry>, b: seq<Entry>)
    ensures Ids(a + b) == Ids(a) + Ids(b)
    decreases |b|
  {
    if b == [] {
      assert a + b == a;
    } else {
      var front := b[..|b| - 1];
      var e := b[|b| - 1];
      SplitLast(b);
      SnocAssoc(a, front, e);
      IdsConcat(a, front);
      IdsSnoc(a + front, e);
      IdsSnoc(front, e);
    }
  }

  /** An id belongs to a list of entries exactly when one of them has it. */
  lemma {:induction false} IdsMembers(entries: seq<Entry>, id: string)
    ensures id in Ids(entries) <==> exists k :: 0 <= k < |entries| && entries[k].id == id
    decreases |entries|
  {
    if entries != [] {
      var front := entries[..|entries| - 1];
      IdsMembers(front, id);
      if id in Ids(front) {
        var k :| 0 <= k < |front| && front[k].id == id;
        assert entries[k] == front[k];
      }
      forall k | 0 <= k < |front| ensures entries[k] == front[k] { }
    }
  }

  /** The ids of a list of paper records. */
  function PaperIds(papers: seq<PaperRecord>): (ids: set<string>)
    decreases |papers|
  {
    if papers == [] then {}
    else PaperIds(papers[..|papers| - 1]) + {papers[|papers| - 1].id}
  }

  lemma {:induction false} PaperIdsConcat(a: seq<PaperRecord>, b: seq<PaperRecord>)
    ensures PaperIds(a + b) == PaperIds(a) + PaperIds(b)
    decreases |b|
  {
    if b == [] {
      assert a + b == a;
    } else {
      var front := b[..|b| - 1];
      var p := b[|b| - 1];
      var ab := a + b;
      assert ab[..|ab| - 1] == a + front && ab[|ab| - 1] == p;
      PaperIdsConcat(a, front);
    }
  }

  /** Every record's id is among the ids of its list. */
  lemma {:induction false} PaperIdsMembers(papers: seq<PaperRecord>)
    ensures forall k :: 0 <= k < |papers| ==> papers[k].id in PaperIds(papers)
    decreases |papers|
  {
    if papers != [] {
      var front := papers[..|papers| - 1];
      PaperIdsMembers(front);
      assert forall k :: 0 <= k < |front| ==> papers[k] == front[k];
    }
  }

  /** The record an entry contributes, given the ids known before it. */
  function NewPaper(known: set<string>, e: Entry): seq<PaperRecord>
  {
    if e.id in known then [] else [Record(e)]
  }

  /**
   * The new papers of one fetch: walking the entries in feed order, an
   * entry is reported when its id is neither already seen nor the id of
   * an earlier entry of the same feed.
   */
  function NewPapers(seen: set<string>, entries: seq<Entry>): (papers: seq<PaperRecord>)
    ensures |papers| <= |entries|
    decreases |entries|
  {
    if entries == [] then []
    else
      var front := entries[..|entries| - 1];
      NewPapers(seen, front) + NewPaper(seen + Ids(front), entries[|entries| - 1])
  }

  lemma NewPapersSnoc(seen: set<string>, front: seq<Entry>, e: Entry)
    ensures NewPapers(seen, front + [e]) == NewPapers(seen, front) + NewPaper(seen + Ids(front), e)
  {
    FrontOfSnoc(front, e);
  }

  /** One more entry of the feed. */
  lemma NewPapersNext(seen: set<string>, entries: seq<Entry>, i: nat)
    requires i < |entries|
    ensures NewPapers(seen, entries[..i + 1]) == NewPapers(seen, entries[..i]) + NewPaper(seen + Ids(entries[..i]), entries[i])
    ensures Ids(entries[..i + 1]) == Ids(entries[..i]) + {entries[i].id}
  {
    TakeNext(entries, i);
    NewPapersSnoc(seen, entries[..i], entries[i]);
    IdsSnoc(entries[..i], entries[i]);
  }

  /** One iteration of the fetch loop, seen from the specification. */
  lemma CollectStep(seen: set<string>, entries: seq<Entry>, i: nat, papers: seq<PaperRecord>, known: set<string>)
    requires i < |entries|
    requires papers == NewPapers(seen, entries[..i]) && known == seen + Ids(entries[..i])
    ensures entries[i].id in known ==>
      NewPapers(seen, entries[..i + 1]) == papers && seen + Ids(entries[..i + 1]) == known
    ensures entries[i].id !in known ==>
      NewPapers(seen, entries[..i + 1]) == papers + [Record(entries[i])]
      && seen + Ids(entries[..i + 1]) == known + {entries[i].id}
  {
    NewPapersNext(seen, entries, i);
  }

  lemma NewPapersIdsStep(seen: set<string>, front: seq<Entry>, e: Entry)
    requires PaperIds(NewPapers(seen, front)) == Ids(front) - seen
    ensures PaperIds(NewPapers(seen, front + [e])) == Ids(front + [e]) - seen
  {
    NewPapersSnoc(seen, front, e);
    IdsSnoc(front, e);
    var before := NewPapers(seen, front);
    var tail := NewPaper(seen + Ids(front), e);
    PaperIdsConcat(before, tail);
    if e.id in seen + Ids(front) {
      assert PaperIds(tail) == {};
    } else {
      assert tail[..0] == [];
      assert PaperIds(tail) == {e.id};
    }
  }

  /** The ids reported are exactly the ids of the feed not seen before. */
  lemma {:induction false} NewPapersIds(seen: set<string>, entries: seq<Entry>)
    ensures PaperIds(NewPapers(seen, entries)) == Ids(entries) - seen
    decreases |entries|
  {
    if entries != [] {
      var front := entries[..|entries| - 1];
      var e := entries[|entries| - 1];
      NewPapersIds(seen, front);
      NewPapersIdsStep(seen, front, e);
      SplitLast(entries);
    }
  }

  /** No two papers of the list share an id. */
  predicate DistinctIds(papers: seq<PaperRecord>) {
    forall i, j :: 0 <= i < j < |papers| ==> papers[i].id != papers[j].id
  }

  /** No paper is reported twice in one fetch. */
  lemma {:induction false} NewPapersDistinct(seen: set<string>, entries: seq<Entry>)
    ensures DistinctIds(NewPapers(seen, entries))
    decreases |entries|
  {
    if entries != [] {
      var front := entries[..|entries| - 1];
      var e := entries[|entries| - 1];
      NewPapersDistinct(seen, front);
      NewPapersDistinctStep(seen, front, e);
      SplitLast(entries);
    }
  }

  lemma NewPapersDistinctStep(seen: set<string>, front: seq<Entry>, e: Entry)
    requires DistinctIds(NewPapers(seen, front))
    ensures DistinctIds(NewPapers(seen, front + [e]))
  {
    NewPapersSnoc(seen, front, e);
    var before := NewPapers(seen, front);
    if e.id !in seen + Ids(front) {
      NewPapersIds(seen, front);
      PaperIdsMembers(before);
      DistinctAppend(before, Record(e));
    }
  }

  lemma DistinctAppend(papers: seq<PaperRecord>, p: PaperRecord)
    requires DistinctIds(papers)
    requires forall i :: 0 <= i < |papers| ==> papers[i].id != p.id
    ensures DistinctIds(papers + [p])
  {
    var all := papers + [p];
    assert forall i :: 0 <= i < |papers| ==> all[i] == papers[i];
  }

  /**
   * Where each reported paper comes from: the positions, in feed order, of
   * the entries that are reported.
   */
  function NewPaperPositions(seen: set<string>, entries: seq<Entry>): (positions: seq<nat>)
    ensures |positions| == |NewPapers(seen, entries)|
    ensures forall k :: 0 <= k < |positions| ==> positions[k] < |entries|
    decreases |entries|
  {
    if entries == [] then []
    else
      var front := entries[..|entries| - 1];
      var e := entries[|entries| - 1];
      NewPaperPositions(seen, front) + (if e.id in seen + Ids(front) then [] else [|entries| - 1])
  }

  lemma NewPaperPositionsSnoc(seen: set<string>, front: seq<Entry>, e: Entry)
    ensures NewPaperPositions(seen, front + [e])
      == NewPaperPositions(seen, front) + (if e.id in seen + Ids(front) then [] else [|front|])
  {
    FrontOfSnoc(front, e);
  }

  /**
   * The reported papers are the records of a subsequence of the feed, in
   * feed order.
   */
  lemma {:induction false} NewPapersSubsequence(seen: set<string>, entries: seq<Entry>)
    ensures InFeedOrder(entries, NewPapers(seen, entries), NewPaperPositions(seen, entries))
    decreases |entries|
  {
    if entries != [] {
      var front := entries[..|entries| - 1];
      var e := entries[|entries| - 1];
      NewPapersSubsequence(seen, front);
      InFeedOrderStep(seen, front, e);
      SplitLast(entries);
    }
  }

  /** The papers are the records of the entries at the positions, which increase. */
  ghost predicate InFeedOrder(entries: seq<Entry>, papers: seq<PaperRecord>, positions: seq<nat>) {
    |positions| == |papers|
    && (forall k :: 0 <= k < |papers| ==> positions[k] < |entries| && papers[k] == Record(entries[positions[k]]))
    && (forall k, l :: 0 <= k < l < |positions| ==> positions[k] < positions[l])
  }

  lemma InFeedOrderStep(seen: set<string>, front: seq<Entry>, e: Entry)
    requires InFeedOrder(front, NewPapers(seen, front), NewPaperPositions(seen, front))
    ensures InFeedOrder(front + [e], NewPapers(seen, front + [e]), NewPaperPositions(seen, front + [e]))
  {
    NewPapersSnoc(seen, front, e);
    NewPaperPositionsSnoc(seen, front, e);
    InFeedOrderExtend(front, NewPapers(seen, front), NewPaperPositions(seen, front), e);
  }

  /** Appending an entry keeps the order, whether or not it is reported. */
  lemma InFeedOrderExtend(front: seq<Entry>, papers: seq<PaperRecord>, positions: seq<nat>, e: Entry)
    requires InFeedOrder(front, papers, positions)
    ensures InFeedOrder(front + [e], papers, positions)
    ensures InFeedOrder(front + [e], papers + [Record(e)], positions + [|front|])
  {
    var entries := front + [e];
    assert forall j :: 0 <= j < |front| ==> entries[j] == front[j];
  }

  /**
   * Each listed position holds an entry whose id was not seen before and
   * that no earlier entry has.
   */
  ghost predicate FirstUnseen(seen: set<string>, entries: seq<Entry>, positions: seq<nat>) {
    (forall k :: 0 <= k < |positions| ==> positions[k] < |entries| && entries[positions[k]].id !in seen)
    && (forall k, j :: 0 <= k < |positions| && 0 <= j < positions[k] < |entries| ==>
          entries[j].id != entries[positions[k]].id)
  }

  lemma FirstUnseenStep(seen: set<string>, front: seq<Entry>, e: Entry)
    requires FirstUnseen(seen, front, NewPaperPositions(seen, front))
    ensures FirstUnseen(seen, front + [e], NewPaperPositions(seen, front + [e]))
  {
    NewPaperPositionsSnoc(seen, front, e);
    var before := NewPaperPositions(seen, front);
    FirstUnseenExtend(seen, front, before, e);
    if e.id !in seen + Ids(front) {
      forall j | 0 <= j < |front| ensures front[j].id != e.id {
        IdsMembers(front, front[j].id);
      }
      FirstUnseenAppend(seen, front, before, e);
    }
  }

  /** An entry appended to the feed leaves the earlier positions first and unseen. */
  lemma FirstUnseenExtend(seen: set<string>, front: seq<Entry>, positions: seq<nat>, e: Entry)
    requires FirstUnseen(seen, front, positions)
    ensures FirstUnseen(seen, front + [e], positions)
  {
    var entries := front + [e];
    assert forall j :: 0 <= j < |front| ==> entries[j] == front[j];
  }

  /** An unseen entry with a fresh id is the first of its id. */
  lemma FirstUnseenAppend(seen: set<string>, front: seq<Entry>, positions: seq<nat>, e: Entry)
    requires FirstUnseen(seen, front + [e], positions)
    requires e.id !in seen && forall j :: 0 <= j < |front| ==> front[j].id != e.id
    ensures FirstUnseen(seen, front + [e], positions + [|front|])
  {
    var entries := front + [e];
    assert forall j :: 0 <= j < |front| ==> entries[j] == front[j];
  }

  /**
   * Each reported paper comes from the first entry with its id, and that
   * id was not seen before.
   */
  lemma {:induction false} NewPapersFirstOccurrences(seen: set<string>, entries: seq<Entry>)
    ensures FirstUnseen(seen, entries, NewPaperPositions(seen, entries))
    decreases |entries|
  {
    if entries != [] {
      var front := entries[..|entries| - 1];
      var e := entries[|entries| - 1];
      NewPapersFirstOccurrences(seen, front);
      FirstUnseenStep(seen, front, e);
      SplitLast(entries);
    }
  }

  /**
   * Fetching a feed in two consecutive parts reports the same papers as
   * fetching it at once.
   */
  lemma {:induction false} NewPapersConcat(seen: set<string>, a: seq<Entry>, b: seq<Entry>)
    ensures NewPapers(seen, a + b) == NewPapers(seen, a) + NewPapers(seen + Ids(a), b)
    decreases |b|
  {
    if b == [] {
      assert a + b == a;
    } else {
      var front := b[..|b| - 1];
      var e := b[|b| - 1];
      NewPapersConcat(seen, a, front);
      NewPapersConcatStep(seen, a, front, e);
      SplitLast(b);
    }
  }

  lemma NewPapersConcatStep(seen: set<string>, a: seq<Entry>, front: seq<Entry>, e: Entry)
    requires NewPapers(seen, a + front) == NewPapers(seen, a) + NewPapers(seen + Ids(a), front)
    ensures NewPapers(seen, a + (front + [e])) == NewPapers(seen, a) + NewPapers(seen + Ids(a), front + [e])
  {
    SnocAssoc(a, front, e);
    NewPapersSnoc(seen, a + front, e);
    KnownBeforeStep(seen, a, front);
    NewPapersSnoc(seen + Ids(a), front, e);
    Regroup(NewPapers(seen, a + (front + [e])), NewPapers(seen, a), NewPapers(seen + Ids(a), front),
      NewPaper(seen + Ids(a + front), e), NewPapers(seen + Ids(a), front + [e]));
  }

  lemma KnownBeforeStep(seen: set<string>, a: seq<Entry>, front: seq<Entry>)
    ensures seen + Ids(a + front) == (seen + Ids(a)) + Ids(front)
  {
    IdsConcat(a, front);
  }

  /** After a fetch has remembered its ids, the same feed reports nothing. */
  lemma NewPapersRepeat(seen: set<string>, entries: seq<Entry>)
    ensures NewPapers(seen + Ids(entries), entries) == []
  {
    var papers := NewPapers(seen + Ids(entries), entries);
    NewPapersIds(seen + Ids(entries), entries);
    PaperIdsMembers(papers);
  }

  /**
   * With one id already seen, a feed of that paper and a new one reports
   * only the new one.
   */
  lemma NewPapersSkipsSeen(known: Entry, unseen: Entry)
    requires known.id != unseen.id
    ensures NewPapers({known.id}, [known, unseen]) == [Record(unseen)]
  {
    assert [known, unseen] == [known] + [unseen];
    assert [known] == [] + [known];
    NewPapersSnoc({known.id}, [known], unseen);
    NewPapersSnoc({known.id}, [], known);
    IdsSnoc([], known);
  }

  // ---------------------------------------------------------------------
  // The file of seen ids
  // ---------------------------------------------------------------------

  /** The JSON file of seen ids: absent, not readable as JSON, or a list of ids. */
  datatype SeenFile = Missing | Unreadable | Stored(ids: seq<string>)

  /**
   * How writing the file goes: the ids are written, the file cannot be
   * opened for writing, or it is opened (which empties it) and writing the
   * JSON then fails, leaving text that does not parse.
   */
  datatype WriteOutcome = Written | OpenFails | WriteFails

  /** `load_seen_papers`: the stored ids, or no ids when the file is missing or unreadable. */
  function LoadSeenPapers(file: SeenFile): (seen: set<string>)
    ensures file.Stored? ==> forall id :: id in seen <==> id in file.ids
    ensures !file.Stored? ==> seen == {}
  {
    match file
    case Stored(ids) => set id | id in ids
    case _ => {}
  }

  // ---------------------------------------------------------------------
  // The monitor
  // ---------------------------------------------------------------------

  class ResearchMonitor {
    /** Ids of the papers reported so far. */
    var seenPapers: set<string>
    /** The contents of the seen-papers file. */
    var seenFile: SeenFile
    /** How many times the seen ids were written out. */
    ghost var saves: nat

    /** A monitor starts from the ids in its file. */
    constructor (file: SeenFile)
      ensures seenFile == file && seenPapers == LoadSeenPapers(file) && saves == 0
    {
      seenFile := file;
      seenPapers := LoadSeenPapers(file);
      saves := 0;
    }

    /**
     * `save_seen_papers`: writes the seen ids as a list, in no particular
     * order. When the file cannot be opened for writing it stays as it was;
     * when the write fails after the open, the file no longer parses, so a
     * later load finds no ids at all.
     */
    method SaveSeenPapers(outcome: WriteOutcome)
      modifies this
      ensures seenPapers == old(seenPapers) && saves == old(saves) + 1
      ensures outcome.Written? ==> seenFile.Stored? && LoadSeenPapers(seenFile) == seenPapers
      ensures outcome.Written? ==> |seenFile.ids| == |seenPapers|
      ensures outcome.OpenFails? ==> seenFile == old(seenFile)
      ensures outcome.WriteFails? ==> seenFile == Unreadable && LoadSeenPapers(seenFile) == {}
    {
      if outcome.WriteFails? {
        seenFile := Unreadable;
      } else if outcome.Written? {
        var ids: seq<string> := [];
        var rest := seenPapers;
        while rest != {}
          invariant rest <= seenPapers
          invariant forall id :: id in ids <==> id in seenPapers && id !in rest
          invariant |ids| + |rest| == |seenPapers|
          decreases |rest|
        {
          var id :| id in rest;
          ids := ids + [id];
          rest := rest - {id};
        }
        seenFile := Stored(ids);
      }
      saves := saves + 1;
    }

    /**
     * `fetch_arxiv_papers(query, max_results)`: the new papers of the feed
     * in feed order; their ids are remembered and saved when there is at
     * least one. A failed request reports nothing and changes nothing.
     */
    method FetchArxivPapers(query: Option<string>, maxResults: Option<int>, api: ArxivApi, outcome: WriteOutcome)
      returns (newPapers: seq<PaperRecord>)
      modifies this
      ensures var response := api(RequestUrl(query, maxResults));
        if response.Raised? || response.status != 200 then
          newPapers == [] && seenPapers == old(seenPapers) && seenFile == old(seenFile) && saves == old(saves)
        else
          newPapers == NewPapers(old(seenPapers), response.entries)
          && seenPapers == old(seenPapers) + Ids(response.entries)
      ensures newPapers == [] ==> seenFile == old(seenFile) && saves == old(saves)
      ensures newPapers != [] ==> saves == old(saves) + 1
      ensures newPapers != [] && outcome.Written? ==> LoadSeenPapers(seenFile) == seenPapers
      ensures newPapers != [] && outcome.WriteFails? ==> LoadSeenPapers(seenFile) == {}
      ensures outcome.OpenFails? ==> seenFile == old(seenFile)
    {
      var response := api(RequestUrl(query, maxResults));
      if response.Raised? || response.status != 200 {
        return [];
      }
      newPapers := CollectNewPapers(response.entries);
      if newPapers != [] {
        SaveSeenPapers(outcome);
      }
    }

    /**
     * The loop over the feed entries in `fetch_arxiv_papers`: an entry
     * whose id is not yet seen is reported and its id remembered.
     */
    method CollectNewPapers(entries: seq<Entry>) returns (newPapers: seq<PaperRecord>)
      modifies this
      ensures newPapers == NewPapers(old(seenPapers), entries)
      ensures seenPapers == old(seenPapers) + Ids(entries)
      ensures seenFile == old(seenFile) && saves == old(saves)
    {
      ghost var seen0 := seenPapers;
      newPapers := [];
      var i := 0;
      while i < |entries|
        invariant 0 <= i <= |entries|
        invariant newPapers == NewPapers(seen0, entries[..i])
        invariant seenPapers == seen0 + Ids(entries[..i])
        invariant seenFile == old(seenFile) && saves == old(saves)
      {
        var entry := entries[i];
        var paperId := entry.id;
        ghost var known := seenPapers;
        CollectStep(seen0, entries, i, newPapers, known);
        if paperId !in seenPapers {
          var paper := Record(entry);
          newPapers := newPapers + [paper];
          seenPapers := seenPapers + {paperId};
        }
        assert seenPapers == seen0 + Ids(entries[..i + 1]);
        i := i + 1;
      }
      TakeAll(entries);
    }
  }
}
