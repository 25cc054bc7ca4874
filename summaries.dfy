/**
 * The summaries page of pages/summaries.js: the normalized search query, the quick-filter
 * keywords ranked by frequency, the search results (newest first, filtered by the query),
 * the note shown when only the writing matches, and the case-insensitive highlighting of
 * the query in a text.
 */
module Summaries {
  import opened Strings
  import opened Seqs
  import opened Keywords
  import opened Journal

  const MaxQuickFilters: nat := 8

  /** `query.trim().toLowerCase()`. */
  function NormalizedQuery(q: string): (r: string)
  {
    LowerStr(Trim(q))
  }

  /**
   * The normalized query is the lower-cased middle of the query between a whitespace prefix
   * and a whitespace suffix. It is lower case, is empty exactly when the query is all
   * whitespace, neither starts nor ends with whitespace, and normalizing it again changes
   * nothing.
   */
  lemma NormalizedQuerySpec(q: string)
    ensures var r := NormalizedQuery(q);
      exists a :: 0 <= a && a + |r| <= |q| && r == LowerStr(q[a..a + |r|])
        && AllSpace(q[..a]) && AllSpace(q[a + |r|..])
    ensures var r := NormalizedQuery(q);
      && IsLowerCase(r)
      && (r == [] <==> AllSpace(q))
      && (r != [] ==> !IsSpace(r[0]) && !IsSpace(r[|r| - 1]))
      && NormalizedQuery(r) == r
  {
    var t := Trim(q);
    var r := LowerStr(t);
    LowerStrProps(t);
    TrimEmptyIff(q);
    TrimSpec(q);
    assert Trim(r) == r by {
      if r != [] {
        assert TrimStart(r) == r;
        assert TrimEnd(r) == r;
      }
    }
    LowerStrIdempotent(t);
  }

  // ---------------------------------------------------------------------------------------
  // Quick filters

  /** The keywords of an entry, none when they are absent (`entry.keywords?.forEach`). */
  function KeywordsOf(e: Entry): seq<string>
  {
    if e.keywords.Some? then e.keywords.value else []
  }

  /** Every keyword of every entry, in entry order and then keyword order. */
  function AllKeywords(entries: seq<Entry>): seq<string>
  {
    if entries == [] then []
    else AllKeywords(entries[..|entries| - 1]) + KeywordsOf(entries[|entries| - 1])
  }

  /** A keyword is among all keywords exactly when some entry lists it. */
  lemma {:induction false} AllKeywordsMembers(entries: seq<Entry>, k: string)
    ensures k in AllKeywords(entries) <==> exists i :: 0 <= i < |entries| && k in KeywordsOf(entries[i])
  {
    if entries != [] {
      var p := entries[..|entries| - 1];
      AllKeywordsMembers(p, k);
      assert forall i :: 0 <= i < |p| ==> p[i] == entries[i];
      if k in AllKeywords(p) {
        var i :| 0 <= i < |p| && k in KeywordsOf(p[i]);
        assert k in KeywordsOf(entries[i]);
      }
    }
  }

  /** The sort key of the quick filters: how many times a keyword occurs overall. */
  function CountKey(all: seq<string>): string -> int
  {
    k => Count(all, k)
  }

  /**
   * `keywordCounts`: the distinct keywords in first-seen order (a `Map`'s insertion order),
   * stably sorted by descending count, the first eight.
   */
  function RankedKeywords(entries: seq<Entry>): (r: seq<string>)
    ensures |r| <= MaxQuickFilters
  {
    var all := AllKeywords(entries);
    var sorted := SortBy(Dedupe(all), CountKey(all));
    sorted[..Min(MaxQuickFilters, |sorted|)]
  }

  /**
   * The quick filters are at most eight distinct keywords, as many as there are distinct
   * keywords up to eight.
   */
  lemma RankedKeywordsDistinct(entries: seq<Entry>)
    ensures var r := RankedKeywords(entries);
      |r| == Min(MaxQuickFilters, |Dedupe(AllKeywords(entries))|) && Distinct(r)
  {
    var all := AllKeywords(entries);
    var d := Dedupe(all);
    var sorted := SortBy(d, CountKey(all));
    DedupeDistinct(all);
    SortByPerm(d, CountKey(all));
    PermutationDistinct(d, sorted);
    PrefixDistinct(sorted, Min(MaxQuickFilters, |sorted|));
  }

  /** Each quick filter is a keyword some entry lists. */
  lemma RankedKeywordsMembers(entries: seq<Entry>)
    ensures var r := RankedKeywords(entries);
      var all := AllKeywords(entries);
      forall i :: 0 <= i < |r| ==> r[i] in all && Count(all, r[i]) > 0
  {
    var all := AllKeywords(entries);
    var d := Dedupe(all);
    var sorted := SortBy(d, CountKey(all));
    var r := sorted[..Min(MaxQuickFilters, |sorted|)];
    SortByPerm(d, CountKey(all));
    forall i | 0 <= i < |r| ensures r[i] in all && Count(all, r[i]) > 0 {
      assert r[i] == sorted[i];
      assert r[i] in multiset(d);
      DedupeMember(all, r[i]);
      CountPositive(all, r[i]);
    }
  }

  /** The quick filters have non-increasing counts, and equal counts keep first-seen order. */
  lemma RankedKeywordsOrder(entries: seq<Entry>)
    ensures var r := RankedKeywords(entries);
      var all := AllKeywords(entries);
      && NonIncreasing(r, CountKey(all))
      && TiesInOrder(r, Dedupe(all), CountKey(all))
  {
    var all := AllKeywords(entries);
    var d := Dedupe(all);
    var key := CountKey(all);
    var sorted := SortBy(d, key);
    var r := sorted[..Min(MaxQuickFilters, |sorted|)];
    DedupeDistinct(all);
    SortBySorted(d, key);
    SortByStable(d, key);
    assert forall i :: 0 <= i < |r| ==> r[i] == sorted[i];
  }

  /**
   * No keyword is left out while it occurs more often than the last quick filter shown, and
   * a keyword left out with the same count as the last one shown was first seen after it:
   * the stable sort gives the ties at the cut to the keywords seen first.
   */
  lemma RankedKeywordsCutoff(entries: seq<Entry>)
    ensures var r := RankedKeywords(entries);
      var all := AllKeywords(entries);
      var d := Dedupe(all);
      forall i :: 0 <= i < |all| && all[i] !in r ==>
        && |r| == MaxQuickFilters && Count(all, all[i]) <= Count(all, r[|r| - 1])
        && (Count(all, all[i]) == Count(all, r[|r| - 1]) ==>
              all[i] in d && r[|r| - 1] in d && FirstIndex(d, r[|r| - 1]) < FirstIndex(d, all[i]))
  {
    var all := AllKeywords(entries);
    var d := Dedupe(all);
    var key := CountKey(all);
    var sorted := SortBy(d, key);
    var r := sorted[..Min(MaxQuickFilters, |sorted|)];
    DedupeMembers(all);
    DedupeDistinct(all);
    SortByPerm(d, key);
    SortBySorted(d, key);
    SortByStable(d, key);
    forall i | 0 <= i < |all| && all[i] !in r
      ensures && |r| == MaxQuickFilters && Count(all, all[i]) <= Count(all, r[|r| - 1])
              && (Count(all, all[i]) == Count(all, r[|r| - 1]) ==>
                    all[i] in d && r[|r| - 1] in d && FirstIndex(d, r[|r| - 1]) < FirstIndex(d, all[i]))
    {
      var x := all[i];
      assert x in multiset(sorted);
      var j :| 0 <= j < |sorted| && sorted[j] == x;
      assert j >= |r|;
      assert r[|r| - 1] == sorted[|r| - 1];
      assert key(sorted[|r| - 1]) >= key(sorted[j]);
    }
  }

  /**
   * The state of the counting loop after `seen`: `order` holds the keywords in order of
   * first insertion and `counts` maps exactly those keywords to their number of occurrences.
   */
  ghost predicate Tallied(counts: map<string, int>, order: seq<string>, seen: seq<string>)
  {
    && order == Dedupe(seen)
    && (forall k :: k in counts <==> k in seen)
    && (forall k :: k in counts ==> counts[k] == Count(seen, k))
  }

  /** `counts.set(keyword, (counts.get(keyword) ?? 0) + 1)` keeps the tally exact. */
  lemma TallyStep(counts: map<string, int>, order: seq<string>, seen: seq<string>, x: string)
    requires Tallied(counts, order, seen)
    ensures x in counts ==> Tallied(counts[x := counts[x] + 1], order, seen + [x])
    ensures x !in counts ==> Tallied(counts[x := 1], order + [x], seen + [x])
  {
    DedupeSnoc(seen, x);
    DedupeMembers(seen);
    if x !in counts {
      assert x !in Dedupe(seen) by {
        if x in Dedupe(seen) {
          DedupeMember(seen, x);
        }
      }
      CountPositive(seen, x);
    }
    forall k ensures Count(seen + [x], k) == Count(seen, k) + (if x == k then 1 else 0) {
      CountSnoc(seen, x, k);
    }
  }

  /** The count the page sorts on, zero for a keyword it never saw. */
  function ByCount(counts: map<string, int>): string -> int
  {
    k => if k in counts then counts[k] else 0
  }

  /** Once every keyword is tallied, sorting on the tally is sorting on the true count. */
  lemma TalliedRanking(counts: map<string, int>, order: seq<string>, all: seq<string>)
    requires Tallied(counts, order, all)
    ensures SortBy(order, ByCount(counts)) == SortBy(Dedupe(all), CountKey(all))
  {
    forall m | 0 <= m < |order| ensures ByCount(counts)(order[m]) == CountKey(all)(order[m]) {
      DedupeMember(all, order[m]);
    }
    SortByKeyAgreement(order, ByCount(counts), CountKey(all));
  }

  /**
   * `keywordCounts` as the page computes it: a count for each keyword and the order of
   * first insertion, filled by nested loops over the entries and their keywords, then a
   * stable sort on the counts and the first eight.
   */
  method KeywordCounts(entries: seq<Entry>) returns (top: seq<string>)
    ensures top == RankedKeywords(entries)
  {
    var counts: map<string, int> := map[];
    var order: seq<string> := [];
    var i := 0;
    while i < |entries|
      invariant 0 <= i <= |entries|
      invariant Tallied(counts, order, AllKeywords(entries[..i]))
    {
      assert entries[..i + 1][..i] == entries[..i];
      counts, order := TallyKeywords(counts, order, AllKeywords(entries[..i]), KeywordsOf(entries[i]));
      i := i + 1;
    }
    assert entries[..|entries|] == entries;
    TalliedRanking(counts, order, AllKeywords(entries));
    var sorted := SortBy(order, ByCount(counts));
    top := sorted[..Min(MaxQuickFilters, |sorted|)];
  }

  /** The inner loop of `keywordCounts`: tally one entry's keywords. */
  method TallyKeywords(counts0: map<string, int>, order0: seq<string>, ghost seen: seq<string>, keywords: seq<string>)
    returns (counts: map<string, int>, order: seq<string>)
    requires Tallied(counts0, order0, seen)
    ensures Tallied(counts, order, seen + keywords)
  {
    counts, order := counts0, order0;
    var j := 0;
    assert seen + keywords[..0] == seen;
    while j < |keywords|
      invariant 0 <= j <= |keywords|
      invariant Tallied(counts, order, seen + keywords[..j])
    {
      var keyword := keywords[j];
      assert seen + keywords[..j + 1] == seen + keywords[..j] + [keyword];
      TallyStep(counts, order, seen + keywords[..j], keyword);
      if keyword in counts {
        counts := counts[keyword := counts[keyword] + 1];
      } else {
        counts := counts[keyword := 1];
        order := order + [keyword];
      }
      j := j + 1;
    }
    assert keywords[..|keywords|] == keywords;
  }

  // ---------------------------------------------------------------------------------------
  // Search results

  /** The sort key of the results: newest first. */
  function CreatedKey(): Entry -> int
  {
    (e: Entry) => e.createdAt
  }

  /** Some keyword of the entry contains the query (keywords are compared as stored). */
  predicate KeywordMatch(e: Entry, nq: string)
  {
    e.keywords.Some? && exists i :: 0 <= i < |e.keywords.value| && Contains(e.keywords.value[i], nq)
  }

  /** The entry's writing and summary, lower-cased, or one of its keywords contains the query. */
  predicate Matches(e: Entry, nq: string)
  {
    Contains(LowerStr(KeywordSource(e)), nq) || KeywordMatch(e, nq)
  }

  function MatchesQuery(nq: string): Entry -> bool
  {
    (e: Entry) => Matches(e, nq)
  }

  /**
   * `results`: the entries sorted newest first (a stable sort), and when the normalized
   * query is not empty only those that match it.
   */
  function Results(entries: seq<Entry>, query: string): seq<Entry>
  {
    var nq := NormalizedQuery(query);
    var sorted := SortBy(entries, CreatedKey());
    if nq == [] then sorted else Filter(sorted, MatchesQuery(nq))
  }

  /**
   * The results are newest first and drawn from the entries; a blank query shows every
   * entry, and otherwise an entry is shown exactly when it matches the normalized query.
   */
  lemma ResultsSpec(entries: seq<Entry>, query: string)
    ensures var r := Results(entries, query);
      var nq := NormalizedQuery(query);
      && NonIncreasing(r, CreatedKey())
      && multiset(r) <= multiset(entries)
      && (AllSpace(query) ==> multiset(r) == multiset(entries) && |r| == |entries|)
      && (!AllSpace(query) ==>
            && IsSubsequence(r, SortBy(entries, CreatedKey()))
            && (forall i :: 0 <= i < |r| ==> r[i] in entries && Matches(r[i], nq))
            && (forall i :: 0 <= i < |entries| && Matches(entries[i], nq) ==> entries[i] in r)
            && (forall e :: multiset(r)[e] == if Matches(e, nq) then multiset(entries)[e] else 0))
  {
    var nq := NormalizedQuery(query);
    NormalizedQuerySpec(query);
    SortByPerm(entries, CreatedKey());
    SortBySorted(entries, CreatedKey());
    if nq != [] {
      FilteredSpec(entries, nq);
    }
  }

  /** The non-blank half of `ResultsSpec`: the matching entries of the sorted list. */
  lemma FilteredSpec(entries: seq<Entry>, nq: string)
    ensures var sorted := SortBy(entries, CreatedKey());
      var r := Filter(sorted, MatchesQuery(nq));
      && NonIncreasing(r, CreatedKey())
      && multiset(r) <= multiset(entries)
      && IsSubsequence(r, sorted)
      && (forall i :: 0 <= i < |r| ==> r[i] in entries && Matches(r[i], nq))
      && (forall i :: 0 <= i < |entries| && Matches(entries[i], nq) ==> entries[i] in r)
      && (forall e :: multiset(r)[e] == if Matches(e, nq) then multiset(entries)[e] else 0)
  {
    var sorted := SortBy(entries, CreatedKey());
    SortByPerm(entries, CreatedKey());
    SortBySorted(entries, CreatedKey());
    var r := Filter(sorted, MatchesQuery(nq));
    FilterNonIncreasing(sorted, MatchesQuery(nq), CreatedKey());
    FilterMultiset(sorted, MatchesQuery(nq));
    FilterMembers(sorted, MatchesQuery(nq));
    FilterSubsequence(sorted, MatchesQuery(nq));
    forall i | 0 <= i < |r| ensures r[i] in entries {
      assert r[i] in multiset(sorted);
    }
    forall i | 0 <= i < |entries| && Matches(entries[i], nq) ensures entries[i] in r {
      assert entries[i] in multiset(sorted);
      var j :| 0 <= j < |sorted| && sorted[j] == entries[i];
    }
    forall e ensures multiset(r)[e] == if Matches(e, nq) then multiset(entries)[e] else 0 {
      FilterMultiplicity(sorted, MatchesQuery(nq), e);
    }
  }

  /**
   * The note under a result: the normalized query is not empty, the writing contains it
   * and the summary does not.
   */
  predicate MatchNote(e: Entry, nq: string)
  {
    nq != [] && Contains(LowerStr(e.userText), nq) && !Contains(LowerStr(e.assistantText), nq)
  }

  /** An entry with the note is one the search keeps. */
  lemma MatchNoteMatches(e: Entry, nq: string)
    requires MatchNote(e, nq)
    ensures Matches(e, nq)
  {
    var hay := LowerStr(KeywordSource(e));
    LowerStrConcat(e.userText + " ", e.assistantText);
    LowerStrConcat(e.userText, " ");
    LowerStrProps(e.userText);
    assert hay[..|e.userText|] == LowerStr(e.userText);
    ContainsInSlice(hay, 0, |e.userText|, nq);
  }

  /** An entry that shows the match note is one of the results for the query typed. */
  lemma MatchNoteInResults(entries: seq<Entry>, query: string, e: Entry)
    requires e in entries && MatchNote(e, NormalizedQuery(query))
    ensures e in Results(entries, query)
  {
    var nq := NormalizedQuery(query);
    MatchNoteMatches(e, nq);
    NormalizedQuerySpec(query);
    ResultsSpec(entries, query);
    var i :| 0 <= i < |entries| && entries[i] == e;
  }

  // ---------------------------------------------------------------------------------------
  // Highlighting

  /** A piece of highlighted text; `marked` pieces are shown in a `<mark>`. */
  datatype Part = Part(text: string, marked: bool)

  /** The text unchanged for an empty query, otherwise the text cut into pieces. */
  datatype Highlight = Plain(text: string) | Parts(parts: seq<Part>)

  /**
   * The query occurs at `i` ignoring case: what the escaped, case-insensitive regular
   * expression built from it matches there.
   */
  predicate MatchAt(text: string, q: string, i: int)
  {
    OccursAt(LowerStr(text), LowerStr(q), i)
  }

  /** No match of the query starts at a position in `[lo, hi)`. */
  predicate Unmatched(text: string, q: string, lo: int, hi: int)
  {
    forall m :: lo <= m < hi ==> !MatchAt(text, q, m)
  }

  /** Where the next match at or after `from` starts, `|text|` when there is none. */
  function NextMatch(text: string, q: string, from: nat): (k: nat)
    requires q != [] && from <= |text|
    ensures from <= k <= |text|
    ensures k < |text| ==> k + |q| <= |text|
    decreases |text| - from
  {
    if from + |q| > |text| then |text|
    else if MatchAt(text, q, from) then from
    else NextMatch(text, q, from + 1)
  }

  /** `NextMatch` finds a match when there is one, and the leftmost one. */
  lemma {:induction false} NextMatchFirst(text: string, q: string, from: nat)
    requires q != [] && from <= |text|
    ensures NextMatch(text, q, from) < |text| ==> MatchAt(text, q, NextMatch(text, q, from))
    ensures Unmatched(text, q, from, NextMatch(text, q, from))
    decreases |text| - from
  {
    if from + |q| > |text| {
      forall m | from <= m < |text| ensures !MatchAt(text, q, m) {
        assert |LowerStr(text)| == |text| && |LowerStr(q)| == |q|;
      }
    } else if !MatchAt(text, q, from) {
      NextMatchFirst(text, q, from + 1);
    }
  }

  /**
   * `text.split(regex)` with the query as a capturing group: the text before each match,
   * then the match itself, and finally the text after the last match.
   */
  function SplitMatches(text: string, q: string, from: nat): seq<string>
    requires q != [] && from <= |text|
    decreases |text| - from
  {
    var k := NextMatch(text, q, from);
    if k == |text| then [text[from..]]
    else [text[from..k], text[k..k + |q|]] + SplitMatches(text, q, k + |q|)
  }

  /** The pieces concatenated. */
  function Concat(ss: seq<string>): string
  {
    if ss == [] then [] else ss[0] + Concat(ss[1..])
  }

  /** Where piece `i` starts in the concatenation. */
  function Start(ss: seq<string>, i: nat): nat
    requires i <= |ss|
  {
    |Concat(ss[..i])|
  }

  /** Every piece sits at its start in the concatenation. */
  lemma {:induction false} ConcatPiece(ss: seq<string>, i: nat)
    requires i < |ss|
    ensures Start(ss, i) + |ss[i]| <= |Concat(ss)|
    ensures Concat(ss)[Start(ss, i)..Start(ss, i) + |ss[i]|] == ss[i]
  {
    if i == 0 {
      assert ss[..0] == [];
    } else {
      ConcatPiece(ss[1..], i - 1);
      StartCons(ss, i);
      assert ss[i] == ss[1..][i - 1];
    }
  }

  /** Past the first piece, starts are those of the rest shifted by the first piece. */
  lemma StartCons(ss: seq<string>, i: nat)
    requires 0 < i <= |ss|
    ensures Start(ss, i) == |ss[0]| + Start(ss[1..], i - 1)
  {
    assert ss[..i][0] == ss[0];
    assert ss[..i][1..] == ss[1..][..i - 1];
  }

  /** The split pieces concatenate to the rest of the text. */
  lemma {:induction false} SplitMatchesConcat(text: string, q: string, from: nat)
    requires q != [] && from <= |text|
    ensures Concat(SplitMatches(text, q, from)) == text[from..]
    decreases |text| - from
  {
    var k := NextMatch(text, q, from);
    if k < |text| {
      var next := k + |q|;
      SplitMatchesConcat(text, q, next);
      ConcatPair(text[from..k], text[k..next], SplitMatches(text, q, next));
      SliceSplit(text, from, k, next);
    } else {
      assert Concat([text[from..]]) == text[from..] + Concat([]);
    }
  }

  /** There is an odd number of split pieces. */
  lemma {:induction false} SplitMatchesOdd(text: string, q: string, from: nat)
    requires q != [] && from <= |text|
    ensures |SplitMatches(text, q, from)| % 2 == 1
    decreases |text| - from
  {
    var k := NextMatch(text, q, from);
    if k < |text| {
      var next := k + |q|;
      SplitMatchesOdd(text, q, next);
      var n := |SplitMatches(text, q, next)|;
      assert |SplitMatches(text, q, from)| == n + 2;
      OddPlusTwo(n);
    }
  }

  lemma OddPlusTwo(n: int)
    requires n % 2 == 1
    ensures (n + 2) % 2 == 1
  {
  }

  /** Two pieces in front of the rest. */
  lemma ConcatPair(a: string, b: string, rest: seq<string>)
    ensures Concat([a, b] + rest) == a + (b + Concat(rest))
  {
    var ps := [a, b] + rest;
    assert ps[1..] == [b] + rest;
    assert ps[1..][1..] == rest;
  }

  lemma SliceSplit(s: string, a: nat, b: nat, c: nat)
    requires a <= b <= c <= |s|
    ensures s[a..] == s[a..b] + (s[b..c] + s[c..])
  {
  }

  /** The pieces at odd positions equal the query ignoring case. */
  predicate OddPiecesMatch(ps: seq<string>, q: string)
  {
    forall i :: 0 <= i < |ps| && i % 2 == 1 ==> LowerStr(ps[i]) == LowerStr(q)
  }

  /** The pieces at odd positions are matches of the query. */
  lemma {:induction false} SplitMatchesMarked(text: string, q: string, from: nat)
    requires q != [] && from <= |text|
    ensures OddPiecesMatch(SplitMatches(text, q, from), q)
    decreases |text| - from
  {
    var k := NextMatch(text, q, from);
    if k < |text| {
      var next := k + |q|;
      var rest := SplitMatches(text, q, next);
      SplitMatchesMarked(text, q, next);
      NextMatchFirst(text, q, from);
      var ps := [text[from..k], text[k..next]] + rest;
      assert SplitMatches(text, q, from) == ps;
      assert |ps| == |rest| + 2;
      LowerStrSlice(text, k, next);
      assert LowerStr(text)[k..next] == LowerStr(q);
      forall i | 0 <= i < |ps| && i % 2 == 1 ensures LowerStr(ps[i]) == LowerStr(q) {
        if i == 1 {
          assert ps[1] == text[k..next];
        } else {
          assert ps[i] == rest[i - 2];
          assert (i - 2) % 2 == 1;
        }
      }
    }
  }

  /** No match starts inside a piece at an even position, the pieces placed from `from` on. */
  predicate EvenPiecesUnmatched(text: string, q: string, from: int, ps: seq<string>)
  {
    forall i :: 0 <= i < |ps| && i % 2 == 0 ==>
      Unmatched(text, q, from + Start(ps, i), from + Start(ps, i) + |ps[i]|)
  }

  /**
   * No match starts inside a piece at an even position: the search always takes the
   * leftmost match.
   */
  lemma {:induction false} SplitMatchesUnmatched(text: string, q: string, from: nat)
    requires q != [] && from <= |text|
    ensures EvenPiecesUnmatched(text, q, from, SplitMatches(text, q, from))
    decreases |text| - from
  {
    var ps := SplitMatches(text, q, from);
    var k := NextMatch(text, q, from);
    NextMatchFirst(text, q, from);
    assert ps[..0] == [];
    if k < |text| {
      var next := k + |q|;
      var rest := SplitMatches(text, q, next);
      SplitMatchesUnmatched(text, q, next);
      assert ps == [text[from..k], text[k..next]] + rest;
      assert |ps| == |rest| + 2;
      assert ps[1..][1..] == rest;
      forall i | 2 <= i < |ps| && i % 2 == 0
        ensures Unmatched(text, q, from + Start(ps, i), from + Start(ps, i) + |ps[i]|)
      {
        StartCons(ps, i);
        StartCons(ps[1..], i - 1);
        assert from + Start(ps, i) == next + Start(rest, i - 2);
        assert ps[i] == rest[i - 2];
        assert (i - 2) % 2 == 0;
      }
    }
  }

  /** `renderHighlight`: unchanged for an empty query, otherwise the pieces of the split, marked where they equal the query ignoring case. */
  function RenderHighlight(text: string, query: string): Highlight
  {
    if query == [] then Plain(text)
    else
      var ps := SplitMatches(text, query, 0);
      Parts(seq(|ps|, i requires 0 <= i < |ps| => Part(ps[i], LowerStr(ps[i]) == LowerStr(query))))
  }

  /** The texts of the pieces. */
  function Texts(parts: seq<Part>): (ss: seq<string>)
    ensures |ss| == |parts|
  {
    seq(|parts|, i requires 0 <= i < |parts| => parts[i].text)
  }

  /**
   * What a highlighting of `text` for a non-empty query promises: the pieces spell the
   * text, there is an odd number of them, the marked ones are exactly every second one,
   * each marked piece equals the query ignoring case, and no match of the query starts
   * inside an unmarked piece.
   */
  predicate WellHighlighted(text: string, q: string, parts: seq<Part>)
  {
    var ps := Texts(parts);
    && Concat(ps) == text
    && |parts| % 2 == 1
    && (forall i :: 0 <= i < |parts| ==> (parts[i].marked <==> i % 2 == 1))
    && OddPiecesMatch(ps, q)
    && EvenPiecesUnmatched(text, q, 0, ps)
  }

  /**
   * Highlighting leaves the text as it is for an empty query and otherwise cuts it into
   * pieces as `WellHighlighted` describes.
   */
  lemma RenderHighlightSpec(text: string, query: string)
    ensures query == [] ==> RenderHighlight(text, query) == Plain(text)
    ensures query != [] ==>
      RenderHighlight(text, query).Parts? && WellHighlighted(text, query, RenderHighlight(text, query).parts)
  {
    if query != [] {
      var ps := SplitMatches(text, query, 0);
      var parts := RenderHighlight(text, query).parts;
      assert Texts(parts) == ps;
      SplitMatchesConcat(text, query, 0);
      SplitMatchesOdd(text, query, 0);
      SplitMatchesMarked(text, query, 0);
      SplitMatchesUnmatched(text, query, 0);
      assert text[0..] == text;
      EvenPiecesDiffer(text, query, ps);
    }
  }

  /** A piece in which no match starts cannot itself equal the query ignoring case. */
  lemma EvenPiecesDiffer(text: string, q: string, ps: seq<string>)
    requires q != [] && Concat(ps) == text && EvenPiecesUnmatched(text, q, 0, ps)
    ensures forall i :: 0 <= i < |ps| && i % 2 == 0 ==> LowerStr(ps[i]) != LowerStr(q)
  {
    forall i | 0 <= i < |ps| && i % 2 == 0 ensures LowerStr(ps[i]) != LowerStr(q) {
      PieceDiffers(text, q, ps, i);
    }
  }

  lemma PieceDiffers(text: string, q: string, ps: seq<string>, i: nat)
    requires q != [] && Concat(ps) == text && i < |ps|
    requires Unmatched(text, q, Start(ps, i), Start(ps, i) + |ps[i]|)
    ensures LowerStr(ps[i]) != LowerStr(q)
  {
    ConcatPiece(ps, i);
    var p := ps[i];
    var a := Start(ps, i);
    if LowerStr(p) == LowerStr(q) {
      assert |p| == |q|;
      LowerStrSlice(text, a, a + |q|);
      assert MatchAt(text, q, a);
      assert false;
    }
  }

  /** A text in which the query does not occur is shown as one unmarked piece. */
  lemma HighlightNoMatch(text: string, query: string)
    requires query != [] && !Contains(LowerStr(text), LowerStr(query))
    ensures RenderHighlight(text, query) == Parts([Part(text, false)])
  {
    var k := NextMatch(text, query, 0);
    NextMatchFirst(text, query, 0);
    assert text[0..] == text;
    var ps := SplitMatches(text, query, 0);
    assert ps == [text];
    if LowerStr(text) == LowerStr(query) {
      assert OccursAt(LowerStr(text), LowerStr(query), 0);
      assert false;
    }
  }

  /**
   * When the note is shown, the summary contains no match of the normalized query, so its
   * highlighting is the whole summary, unmarked.
   */
  lemma MatchNoteSummaryUnmarked(e: Entry, query: string)
    requires MatchNote(e, NormalizedQuery(query))
    ensures RenderHighlight(e.assistantText, NormalizedQuery(query)) == Parts([Part(e.assistantText, false)])
  {
    LowerStrIdempotent(Trim(query));
    HighlightNoMatch(e.assistantText, NormalizedQuery(query));
  }
}
