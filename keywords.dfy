/**
 * The keyword extractor of lib/extractKeywords.js: lower-case the text, turn every
 * character other than a letter, a digit or whitespace into a space, split on runs of
 * whitespace, keep the words longer than three characters that are not stop-words,
 * deduplicate keeping first occurrences, and keep at most twelve.
 */
module Keywords {
  import opened Strings
  import opened Seqs

  const StopWords: set<string> := {
    "a", "an", "and", "are", "as", "at", "be", "but", "by", "for", "if", "in", "into", "is",
    "it", "near", "of", "on", "or", "such", "that", "the", "their", "then", "there", "these",
    "they", "this", "to", "was", "will", "with"
  }

  const MaxKeywords: nat := 12

  predicate IsAlnum(c: char)
  {
    'a' <= c <= 'z' || '0' <= c <= '9'
  }

  predicate IsAlnumWord(w: string)
  {
    forall k :: 0 <= k < |w| ==> IsAlnum(w[k])
  }

  /** `replace(/[^a-z0-9\s]/gi, ' ')` on one character (the `i` flag also keeps `A`-`Z`). */
  function CleanChar(c: char): char
  {
    if IsAlnum(c) || 'A' <= c <= 'Z' || IsSpace(c) then c else ' '
  }

  function Clean(s: string): (r: string)
  {
    seq(|s|, i requires 0 <= i < |s| => CleanChar(s[i]))
  }

  /**
   * `split(/\s+/)` of `cur + s`, where `cur` is the part of the current word already read:
   * every maximal run of whitespace separates two words, so leading or trailing whitespace
   * yields an empty first or last word.
   */
  function SplitFrom(s: string, cur: string): seq<string>
    decreases |s|
  {
    if s == [] then [cur]
    else if IsSpace(s[0]) then
      var rest := TrimStart(s);
      [cur] + SplitFrom(rest, [])
    else SplitFrom(s[1..], cur + [s[0]])
  }

  function Tokens(s: string): seq<string>
  {
    SplitFrom(s, [])
  }

  /** The whitespace-delimited words of the lower-cased, cleaned text. */
  function Words(text: string): seq<string>
  {
    Tokens(Clean(LowerStr(text)))
  }

  predicate IsCandidate(w: string)
  {
    |w| > 3 && w !in StopWords
  }

  /** The words that survive the length and stop-word filter, in text order. */
  function Candidates(text: string): seq<string>
  {
    Filter(Words(text), IsCandidate)
  }

  function Min(a: int, b: int): int
  {
    if a <= b then a else b
  }

  /** Splitting text whose characters are letters, digits or whitespace yields letter-and-digit words. */
  lemma {:induction false} SplitFromAlnum(s: string, cur: string)
    requires IsAlnumWord(cur)
    requires forall k :: 0 <= k < |s| ==> IsAlnum(s[k]) || IsSpace(s[k])
    ensures forall i :: 0 <= i < |SplitFrom(s, cur)| ==> IsAlnumWord(SplitFrom(s, cur)[i])
    decreases |s|
  {
    if s != [] {
      if IsSpace(s[0]) {
        var rest := TrimStart(s);
        TrimStartFacts(s);
        forall k | 0 <= k < |rest| ensures IsAlnum(rest[k]) || IsSpace(rest[k]) {
          assert rest[k] == s[|s| - |rest| + k];
        }
        SplitFromAlnum(rest, []);
      } else {
        SplitFromAlnum(s[1..], cur + [s[0]]);
      }
    }
  }

  /** Every word of `split` is a piece of the text that was split. */
  lemma {:induction false} SplitFromPieces(s: string, cur: string)
    ensures forall i :: 0 <= i < |SplitFrom(s, cur)| ==> Contains(cur + s, SplitFrom(s, cur)[i])
    decreases |s|
  {
    var whole := cur + s;
    assert whole[..|cur|] == cur;
    ContainsSelf(cur);
    ContainsInSlice(whole, 0, |cur|, cur);
    if s != [] && IsSpace(s[0]) {
      var rest := TrimStart(s);
      TrimStartFacts(s);
      SplitFromPieces(rest, []);
      assert [] + rest == rest;
      var tail := SplitFrom(rest, []);
      PiecesOfSuffix(whole, rest, tail);
      var r := [cur] + tail;
      assert SplitFrom(s, cur) == r;
      forall i | 0 <= i < |r| ensures Contains(whole, r[i]) {
        if i > 0 {
          assert r[i] == tail[i - 1];
        }
      }
    } else if s != [] {
      SplitFromPieces(s[1..], cur + [s[0]]);
      assert (cur + [s[0]]) + s[1..] == whole;
    }
  }

  function NotSpace(c: char): bool
  {
    !IsSpace(c)
  }

  /**
   * The words of `split` lose nothing but whitespace: put end to end they give the
   * characters of the text that are not whitespace, in order.
   */
  lemma {:induction false} SplitFromConcat(s: string, cur: string)
    requires forall k :: 0 <= k < |cur| ==> !IsSpace(cur[k])
    ensures Flatten(SplitFrom(s, cur)) == Filter(cur + s, NotSpace)
    decreases |s|
  {
    FilterAll(cur, NotSpace);
    if s == [] {
      assert cur + s == cur;
      assert Flatten([cur]) == cur + Flatten([]);
    } else if IsSpace(s[0]) {
      var rest := TrimStart(s);
      var cut := |s| - |rest|;
      TrimStartFacts(s);
      SplitFromConcat(rest, []);
      assert [] + rest == rest;
      var pieces := SplitFrom(rest, []);
      assert SplitFrom(s, cur) == [cur] + pieces;
      assert Flatten([cur] + pieces) == cur + Flatten(pieces) by {
        assert ([cur] + pieces)[1..] == pieces;
      }
      assert s == s[..cut] + rest;
      FilterNone(s[..cut], NotSpace);
      FilterAppend(s[..cut], rest, NotSpace);
      FilterAppend(cur, s, NotSpace);
    } else {
      SplitFromConcat(s[1..], cur + [s[0]]);
      assert (cur + [s[0]]) + s[1..] == cur + s;
    }
  }

  lemma PiecesOfSuffix(whole: string, rest: string, pieces: seq<string>)
    requires |rest| <= |whole| && whole[|whole| - |rest|..] == rest
    requires forall i :: 0 <= i < |pieces| ==> Contains(rest, pieces[i])
    ensures forall i :: 0 <= i < |pieces| ==> Contains(whole, pieces[i])
  {
    assert whole[|whole| - |rest|..|whole|] == rest;
    forall i | 0 <= i < |pieces| ensures Contains(whole, pieces[i]) {
      ContainsInSlice(whole, |whole| - |rest|, |whole|, pieces[i]);
    }
  }

  /** What survives deduplication: distinct candidates, each a letters-and-digits word of the cleaned text. */
  lemma DedupedCandidates(text: string)
    ensures var d := Dedupe(Candidates(text));
      && Distinct(d)
      && FirstSeenOrder(d, Candidates(text))
      && |d| <= |Candidates(text)|
      && forall i :: 0 <= i < |d| ==>
        && IsCandidate(d[i])
        && d[i] in Words(text)
        && IsAlnumWord(d[i])
        && Contains(Clean(LowerStr(text)), d[i])
  {
    var words := Words(text);
    var candidates := Candidates(text);
    FilterMembers(words, IsCandidate);
    DedupeMembers(candidates);
    DedupeDistinct(candidates);
    DedupeOrder(candidates);
    var cleaned := Clean(LowerStr(text));
    SplitFromAlnum(cleaned, []);
    SplitFromPieces(cleaned, []);
    assert [] + cleaned == cleaned;
  }

  /**
   * The keyword list of `text`: the first twelve words of the deduplicated candidate list
   * (`Array.from(new Set(words)).slice(0, 12)`).
   */
  function ExtractKeywords(text: string): (r: seq<string>)
    ensures |r| <= MaxKeywords
    ensures r <= Dedupe(Candidates(text))
  {
    var d := Dedupe(Candidates(text));
    d[..Min(MaxKeywords, |d|)]
  }

  /**
   * What the keyword list holds: distinct words, at most twelve, each longer than three
   * characters, none a stop-word, each made of `a`-`z` and `0`-`9` only and each one of the
   * whitespace-delimited words of the cleaned text; it is the first part of the
   * deduplicated candidate list, in order of first occurrence, and is empty for empty text.
   */
  lemma ExtractKeywordsSpec(text: string)
    ensures var r := ExtractKeywords(text);
      && |r| <= MaxKeywords
      && (forall i :: 0 <= i < |r| ==> |r[i]| > 3 && r[i] !in StopWords)
      && Distinct(r)
      && (forall i :: 0 <= i < |r| ==> IsAlnumWord(r[i]))
      && (forall i :: 0 <= i < |r| ==> r[i] in Words(text))
      && (forall i :: 0 <= i < |r| ==> Contains(Clean(LowerStr(text)), r[i]))
      && |r| == Min(MaxKeywords, |Dedupe(Candidates(text))|)
      && r <= Dedupe(Candidates(text))
      && FirstSeenOrder(r, Candidates(text))
      && (text == [] ==> r == [])
  {
    var d := Dedupe(Candidates(text));
    DedupedCandidates(text);
    var r := d[..Min(MaxKeywords, |d|)];
    assert forall i :: 0 <= i < |r| ==> r[i] == d[i];
    PrefixDistinct(d, |r|);
    PrefixFirstSeenOrder(d, Candidates(text), |r|);
    assert text == [] ==> Candidates(text) == [] by {
      if text == [] {
        assert Clean(LowerStr(text)) == [];
        assert Words(text) == [[]];
      }
    }
  }
}
