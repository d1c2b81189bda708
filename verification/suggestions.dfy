/**
 Search suggestions while typing: the trimmed comma-separated meta keywords and the
 space-separated title words of every loaded page, longer than three characters, that
 contain the typed text at the start of a word; collected in an insertion-ordered set
 and cut to the first five.
 */
module Suggestions {
  import opened Text
  import opened Pages

  const MinQueryLength: nat := 3
  const MaxSuggestions: nat := 5

  /**
   `page.metaKeywords.split(',').map(k => k.trim())`: one entry per comma-separated
   piece of the keywords tag, that piece without the whitespace around it.
   */
  function Keywords(p: Page): (r: seq<string>)
    ensures |r| == |Split(p.metaKeywords, ',')|
    ensures forall i :: 0 <= i < |r| && i < |Split(p.metaKeywords, ',')| ==>
      TrimmedFrom(Split(p.metaKeywords, ',')[i], r[i])
    ensures forall i :: 0 <= i < |r| ==> ',' !in r[i]
  {
    var parts := Split(p.metaKeywords, ',');
    var r := seq(|parts|, i requires 0 <= i < |parts| => Trim(parts[i]));
    forall i | 0 <= i < |r|
      ensures ',' !in r[i] && TrimmedFrom(parts[i], r[i])
    {
      assert r[i] == Trim(parts[i]);
      TrimKeepsOut(parts[i], ',');
      TrimIsTrimmed(parts[i]);
    }
    r
  }

  /**
   Keywords written as comma-separated, already trimmed entries are read back as
   exactly those entries.
   */
  lemma KeywordsRoundTrip(p: Page, entries: seq<string>)
    requires CutsInto(p.metaKeywords, ',', entries)
    requires forall i :: 0 <= i < |entries| ==> Unpadded(entries[i])
    ensures Keywords(p) == entries
  {
    CutsAreSplit(p.metaKeywords, ',', entries);
    TrimmedEach(entries, Keywords(p));
  }

  /**
   `page.title.split(' ')`: the title's words before the length filter, space-free and
   joining back to the title.
   */
  function TitleWords(p: Page): (r: seq<string>)
    ensures |r| >= 1
    ensures forall i :: 0 <= i < |r| ==> ' ' !in r[i]
    ensures Join(r, ' ') == p.title
  {
    Split(p.title, ' ')
  }

  /** The title words are the only space-free cut of the title. */
  lemma TitleWordsFromCuts(p: Page, words: seq<string>)
    requires CutsInto(p.title, ' ', words)
    ensures TitleWords(p) == words
  {
    CutsAreSplit(p.title, ' ', words);
  }

  /** A candidate is suggested for `q` when it is longer than three and has `q` at a word start. */
  predicate Qualifies(x: string, q: string) {
    |x| > 3 && StartsWithQuery(x, q)
  }

  /** The qualifying candidates of `xs`, in order. */
  function Matching(xs: seq<string>, q: string): (r: seq<string>)
    ensures forall x :: x in r <==> x in xs && Qualifies(x, q)
    ensures forall x :: Qualifies(x, q) ==> multiset(r)[x] == multiset(xs)[x]
    ensures IsSubsequence(r, xs)
    decreases |xs|
  {
    if |xs| == 0 then []
    else
      var rest := Matching(xs[1..], q);
      assert xs == [xs[0]] + xs[1..];
      assert multiset(xs) == multiset{xs[0]} + multiset(xs[1..]);
      if Qualifies(xs[0], q) then
        var r := [xs[0]] + rest;
        assert r[1..] == rest;
        assert multiset(r) == multiset{xs[0]} + multiset(rest);
        r
      else
        assert IsSubsequence(rest, xs[1..]);
        rest
  }

  /** One page's candidates in scan order: its trimmed keywords, then its title words. */
  function Offers(p: Page): seq<string> {
    Keywords(p) + TitleWords(p)
  }

  /** The candidates of every loaded page, pages in corpus order. */
  function AllOffers(corpus: Corpus): seq<string>
    decreases |corpus|
  {
    if |corpus| == 0 then []
    else
      var init := AllOffers(corpus[..|corpus| - 1]);
      match corpus[|corpus| - 1]
      case None => init
      case Some(p) => init + Offers(p)
  }

  /** Every candidate comes from a page that loaded. */
  lemma {:induction false} OffersComeFromLoadedPages(corpus: Corpus, x: string)
    requires x in AllOffers(corpus)
    ensures exists i :: 0 <= i < |corpus| && corpus[i].Some? && x in Offers(corpus[i].value)
    decreases |corpus|
  {
    var n := |corpus| - 1;
    var init := corpus[..n];
    if corpus[n].Some? && x in Offers(corpus[n].value) {
      assert corpus[n].Some? && x in Offers(corpus[n].value);
    } else {
      OffersComeFromLoadedPages(init, x);
      var i :| 0 <= i < |init| && init[i].Some? && x in Offers(init[i].value);
      assert corpus[i] == init[i];
    }
  }

  lemma {:induction false} MatchingAppend(a: seq<string>, b: seq<string>, q: string)
    ensures Matching(a + b, q) == Matching(a, q) + Matching(b, q)
    decreases |a|
  {
    if |a| == 0 {
      assert a + b == b;
    } else {
      assert (a + b)[1..] == a[1..] + b;
      MatchingAppend(a[1..], b, q);
    }
  }

  /**
   The page-by-page collection of suggestions: for each loaded page in order, its
   qualifying keywords, then its qualifying title words. The result is the qualifying
   part of all the pages' candidates, in the order they are met.
   */
  function Candidates(corpus: Corpus, q: string): (r: seq<string>)
    ensures r == Matching(AllOffers(corpus), q)
    decreases |corpus|
  {
    if |corpus| == 0 then []
    else
      var init := corpus[..|corpus| - 1];
      var r := Candidates(init, q);
      match corpus[|corpus| - 1]
      case None => r
      case Some(p) =>
        CandidatesStep(corpus, q, p);
        r + (Matching(Keywords(p), q) + Matching(TitleWords(p), q))
  }

  lemma CandidatesStep(corpus: Corpus, q: string, p: Page)
    requires |corpus| > 0 && corpus[|corpus| - 1] == Some(p)
    ensures Matching(AllOffers(corpus), q) ==
      Matching(AllOffers(corpus[..|corpus| - 1]), q) + (Matching(Keywords(p), q) + Matching(TitleWords(p), q))
  {
    var init := corpus[..|corpus| - 1];
    assert AllOffers(corpus) == AllOffers(init) + Offers(p);
    MatchingAppend(AllOffers(init), Offers(p), q);
    MatchingAppend(Keywords(p), TitleWords(p), q);
  }

  // ---------------------------------------------------------------------------
  // The insertion-ordered set and the cap
  // ---------------------------------------------------------------------------

  /**
   The order of `new Set(s)`: each distinct element once, at the place of its first
   occurrence in `s`.
   */
  function InsertionOrdered(s: seq<string>): (d: seq<string>)
    ensures forall x :: x in d <==> x in s
    ensures forall i, j :: 0 <= i < j < |d| ==> d[i] != d[j]
    ensures forall i, j :: 0 <= i < j < |d| ==> FirstIndex(s, d[i]) < FirstIndex(s, d[j])
    decreases |s|
  {
    if |s| == 0 then []
    else
      var n := |s| - 1;
      var d := InsertionOrdered(s[..n]);
      assert s == s[..n] + [s[n]];
      InsertionOrderedStep(s, d);
      if s[n] in d then d else d + [s[n]]
  }

  lemma InsertionOrderedStep(s: seq<string>, d: seq<string>)
    requires |s| > 0
    requires forall x :: x in d <==> x in s[..|s| - 1]
    ensures forall i :: 0 <= i < |d| ==> FirstIndex(s, d[i]) == FirstIndex(s[..|s| - 1], d[i])
    ensures s[|s| - 1] !in d ==> FirstIndex(s, s[|s| - 1]) == |s| - 1
  {
    var n := |s| - 1;
    forall i | 0 <= i < |d|
      ensures FirstIndex(s, d[i]) == FirstIndex(s[..n], d[i])
    {
      assert d[i] in d;
      FirstIndexInPrefix(s, n, d[i]);
    }
  }

  /**
   `Array.from(set).slice(0, 5)` for the set built from `c`: at most five distinct
   candidates in the order they were first met, and a candidate is left out only when
   five that were met before it are listed.
   */
  function FirstFive(c: seq<string>): (r: seq<string>)
    ensures |r| <= MaxSuggestions
    ensures forall x :: x in r ==> x in c
    ensures forall i, j :: 0 <= i < j < |r| ==> r[i] != r[j]
    ensures forall i, j :: 0 <= i < j < |r| ==> FirstIndex(c, r[i]) < FirstIndex(c, r[j])
    ensures forall x :: x in c && x !in r ==>
      |r| == MaxSuggestions && forall y :: y in r ==> FirstIndex(c, y) < FirstIndex(c, x)
  {
    var d := InsertionOrdered(c);
    var r := if |d| <= MaxSuggestions then d else d[..MaxSuggestions];
    assert forall i :: 0 <= i < |r| ==> r[i] == d[i];
    forall x | x in c && x !in r
      ensures |r| == MaxSuggestions && forall y :: y in r ==> FirstIndex(c, y) < FirstIndex(c, x)
    {
      var k :| 0 <= k < |d| && d[k] == x;
      assert k >= |r|;
      forall y | y in r
        ensures FirstIndex(c, y) < FirstIndex(c, x)
      {
        var i :| 0 <= i < |r| && r[i] == y;
        assert d[i] == y;
      }
    }
    r
  }

  /**
   `showSuggestions(query)`: nothing for a query shorter than three; otherwise at most
   five distinct suggestions, each a keyword or title word of a loaded page, longer than
   three, holding the lower-cased query at a word start; listed in the order they were
   first met (pages in order, keywords before title words), and a qualifying candidate
   is missing only when five earlier ones are already listed.
   */
  function Suggest(query: string, corpus: Corpus): (r: seq<string>)
    ensures |query| < MinQueryLength ==> r == []
    ensures |r| <= MaxSuggestions
    ensures forall i, j :: 0 <= i < j < |r| ==> r[i] != r[j]
    ensures forall i :: 0 <= i < |r| ==>
      Qualifies(r[i], Lower(query)) && r[i] in AllOffers(corpus)
    ensures |query| >= MinQueryLength ==>
      var c := Candidates(corpus, Lower(query));
      && (forall i, j :: 0 <= i < j < |r| ==> FirstIndex(c, r[i]) < FirstIndex(c, r[j]))
      && (forall x :: x in c && x !in r ==>
            |r| == MaxSuggestions && forall y :: y in r ==> FirstIndex(c, y) < FirstIndex(c, x))
  {
    if |query| < MinQueryLength then []
    else FirstFive(Candidates(corpus, Lower(query)))
  }
}
