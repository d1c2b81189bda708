/**
 The search itself: the query is trimmed, lower-cased and split into words; every loaded
 page is scored; pages scoring zero are dropped; the rest are sorted by score, highest
 first, with a stable sort so that equal scores keep the corpus order.
 */
module Ranking {
  import opened Text
  import opened Pages
  import opened Scoring

  // ---------------------------------------------------------------------------
  // Query words
  // ---------------------------------------------------------------------------

  /**
   `query.trim().toLowerCase().split(' ').filter(w => w.length > 0)`: only the space
   separates words, so a tab inside the query stays inside a word. The words are
   non-empty, space-free and lower case; there are none exactly when the query is all
   whitespace; and between them they hold every other character of the trimmed,
   lower-cased query, in order.
   */
  function QueryWords(query: string): (words: seq<string>)
    ensures forall i :: 0 <= i < |words| ==>
      |words[i]| > 0 && ' ' !in words[i] && Lower(words[i]) == words[i]
    ensures |words| == 0 <==> AllWhitespace(query)
    ensures Concat(words) == Without(Lower(Trim(query)), ' ')
    ensures exists pieces :: CutsInto(Lower(Trim(query)), ' ', pieces) && words == NonEmpty(pieces)
  {
    var t := Lower(Trim(query));
    var pieces := Split(t, ' ');
    QueryWordsFacts(query, t, pieces);
    assert CutsInto(t, ' ', pieces);
    NonEmpty(pieces)
  }

  /**
   The cut in the query's contract is the split at every space: any way of cutting the
   trimmed, lower-cased query into space-free pieces gives the same words.
   */
  lemma QueryWordsFromCuts(query: string, pieces: seq<string>)
    requires CutsInto(Lower(Trim(query)), ' ', pieces)
    ensures QueryWords(query) == NonEmpty(pieces)
  {
    CutsAreSplit(Lower(Trim(query)), ' ', pieces);
  }

  lemma QueryWordsFacts(query: string, t: string, pieces: seq<string>)
    requires t == Lower(Trim(query)) && pieces == Split(t, ' ')
    ensures forall i :: 0 <= i < |NonEmpty(pieces)| ==>
      ' ' !in NonEmpty(pieces)[i] && Lower(NonEmpty(pieces)[i]) == NonEmpty(pieces)[i]
    ensures |NonEmpty(pieces)| == 0 <==> AllWhitespace(query)
    ensures Concat(NonEmpty(pieces)) == Without(t, ' ')
  {
    ConcatNonEmpty(pieces);
    NonEmptyFrom(pieces);
    WithoutJoin(pieces, ' ');
    LowerIdempotent(Trim(query));
    PiecesAreLower(t, pieces);
    if AllWhitespace(query) {
      assert t == [];
      assert pieces == [[]];
      assert NonEmpty(pieces) == NonEmpty(pieces[1..]);
    } else {
      var tr := Trim(query);
      assert t[0] == LowerChar(tr[0]);
      FirstPieceNonEmpty(t, pieces);
      assert pieces[0] in NonEmpty(pieces);
    }
  }

  lemma PiecesAreLower(t: string, pieces: seq<string>)
    requires Lower(t) == t && pieces == Split(t, ' ')
    ensures forall k :: 0 <= k < |pieces| ==> Lower(pieces[k]) == pieces[k]
  {
    forall k, j | 0 <= k < |pieces| && 0 <= j < |pieces[k]|
      ensures LowerChar(pieces[k][j]) == pieces[k][j]
    {
      JoinContains(pieces, ' ', k, j);
      var m :| 0 <= m < |t| && t[m] == pieces[k][j];
      assert Lower(t)[m] == LowerChar(t[m]);
    }
  }

  lemma FirstPieceNonEmpty(t: string, pieces: seq<string>)
    requires pieces == Split(t, ' ') && |t| > 0 && t[0] != ' '
    ensures |pieces[0]| > 0
  {
  }

  /** Every character of a piece appears in the joined string. */
  lemma {:induction false} JoinContains(parts: seq<string>, sep: char, k: int, j: int)
    requires 0 <= k < |parts| && 0 <= j < |parts[k]|
    ensures parts[k][j] in Join(parts, sep)
    decreases |parts|
  {
    if |parts| == 1 {
    } else if k == 0 {
      assert Join(parts, sep) == parts[0] + [sep] + Join(parts[1..], sep);
      assert Join(parts, sep)[j] == parts[0][j];
    } else {
      JoinContains(parts[1..], sep, k - 1, j);
      assert Join(parts, sep) == parts[0] + [sep] + Join(parts[1..], sep);
    }
  }

  // ---------------------------------------------------------------------------
  // Collecting the matches
  // ---------------------------------------------------------------------------

  /**
   The results array before sorting: for each loaded page in corpus order whose score
   is positive, its result record. Failed pages are skipped.
   */
  function Collect(words: seq<string>, corpus: Corpus): seq<Match>
    decreases |corpus|
  {
    if |corpus| == 0 then []
    else
      var ms := Collect(words, corpus[..|corpus| - 1]);
      match corpus[|corpus| - 1]
      case None => ms
      case Some(p) => if Score(p, words) > 0 then ms + [MatchOf(p, words)] else ms
  }

  /**
   Every collected result is the result record of a page that loaded, with a positive
   score, and there are at most as many results as pages.
   */
  lemma {:induction false} CollectSound(words: seq<string>, corpus: Corpus)
    ensures |Collect(words, corpus)| <= |corpus|
    ensures forall m :: m in Collect(words, corpus) ==>
      m == MatchOf(m.page, words) && m.score > 0 && Some(m.page) in corpus
    decreases |corpus|
  {
    if |corpus| > 0 {
      var init := corpus[..|corpus| - 1];
      CollectSound(words, init);
      assert forall x :: x in init ==> x in corpus;
    }
  }

  /** The `allPages.forEach` loop of the search, calling the six passes for each page. */
  method CollectMatches(words: seq<string>, corpus: Corpus) returns (results: seq<Match>)
    ensures results == Collect(words, corpus)
  {
    results := [];
    var i := 0;
    while i < |corpus|
      invariant 0 <= i <= |corpus|
      invariant results == Collect(words, corpus[..i])
    {
      assert corpus[..i + 1][..i] == corpus[..i];
      match corpus[i] {
        case None =>
        case Some(p) =>
          var score, matchType := EvaluatePage(p, words);
          if score > 0 {
            results := results + [Match(p, score, matchType)];
          }
      }
      i := i + 1;
    }
    assert corpus[..i] == corpus;
  }

  // ---------------------------------------------------------------------------
  // Sorting by score, highest first, stably
  // ---------------------------------------------------------------------------

  /** Non-increasing in score. */
  predicate Sorted(s: seq<Match>) {
    forall i, j :: 0 <= i < j < |s| ==> s[i].score >= s[j].score
  }

  /** The results with score `k`, in their order in `s`. */
  function WithScore(s: seq<Match>, k: nat): seq<Match>
    decreases |s|
  {
    if |s| == 0 then []
    else (if s[0].score == k then [s[0]] else []) + WithScore(s[1..], k)
  }

  lemma {:induction false} WithScoreMembers(s: seq<Match>, k: nat, x: Match)
    ensures x in WithScore(s, k) <==> x in s && x.score == k
    decreases |s|
  {
    if |s| > 0 {
      WithScoreMembers(s[1..], k, x);
      assert s == [s[0]] + s[1..];
    }
  }

  /** How many results are for page `p`. */
  function CountPage(s: seq<Match>, p: Page): nat
    decreases |s|
  {
    if |s| == 0 then 0 else Bit(s[0].page == p) + CountPage(s[1..], p)
  }

  lemma WithScoreCons(x: Match, s: seq<Match>, k: nat)
    ensures WithScore([x] + s, k) == (if x.score == k then [x] else []) + WithScore(s, k)
  {
    assert ([x] + s)[1..] == s;
  }

  lemma CountPageCons(x: Match, s: seq<Match>, p: Page)
    ensures CountPage([x] + s, p) == Bit(x.page == p) + CountPage(s, p)
  {
    assert ([x] + s)[1..] == s;
  }

  /**
   Puts `m` into a sorted list just before the first result whose score is not higher,
   so that it comes first among the results with its own score.
   */
  function Insert(m: Match, t: seq<Match>): seq<Match>
    decreases |t|
  {
    if |t| == 0 then [m]
    else if t[0].score <= m.score then [m] + t
    else [t[0]] + Insert(m, t[1..])
  }

  /** Inserting into a sorted list keeps it sorted and adds exactly `m`. */
  lemma {:induction false} InsertSorted(m: Match, t: seq<Match>)
    requires Sorted(t)
    ensures Sorted(Insert(m, t))
    ensures multiset(Insert(m, t)) == multiset(t) + multiset{m}
    decreases |t|
  {
    if |t| > 0 && t[0].score > m.score {
      var rest := t[1..];
      SortedTail(t);
      InsertSorted(m, rest);
      assert t == [t[0]] + rest;
      InsertBelow(t[0], m, rest, Insert(m, rest));
    }
  }

  lemma InsertBelow(top: Match, m: Match, t: seq<Match>, rest: seq<Match>)
    requires Sorted([top] + t) && top.score > m.score
    requires Sorted(rest) && multiset(rest) == multiset(t) + multiset{m}
    ensures Sorted([top] + rest)
  {
    forall j | 0 <= j < |rest|
      ensures rest[j].score <= top.score
    {
      assert rest[j] in multiset(rest);
      assert ([top] + t)[0] == top;
      if rest[j] != m {
        assert rest[j] in multiset(t);
        var i :| 0 <= i < |t| && t[i] == rest[j];
        assert ([top] + t)[i + 1] == t[i];
      }
    }
  }

  lemma SortedTail(t: seq<Match>)
    requires Sorted(t) && |t| > 0
    ensures Sorted(t[1..])
  {
    forall i, j | 0 <= i < j < |t| - 1
      ensures t[1..][i].score >= t[1..][j].score
    {
      assert t[1..][i] == t[i + 1] && t[1..][j] == t[j + 1];
    }
  }

  /** Inserting `m` adds it at the front of its score group and changes no other group. */
  lemma {:induction false} InsertGroups(m: Match, t: seq<Match>, k: nat)
    ensures WithScore(Insert(m, t), k) == (if m.score == k then [m] else []) + WithScore(t, k)
    decreases |t|
  {
    if |t| == 0 {
      WithScoreCons(m, [], k);
    } else if t[0].score <= m.score {
      WithScoreCons(m, t, k);
    } else {
      var rest := t[1..];
      var ins := Insert(m, rest);
      assert Insert(m, t) == [t[0]] + ins;
      InsertGroups(m, rest, k);
      WithScoreCons(t[0], ins, k);
      WithScoreCons(t[0], rest, k);
      assert t == [t[0]] + rest;
    }
  }

  lemma {:induction false} InsertCounts(m: Match, t: seq<Match>, p: Page)
    ensures CountPage(Insert(m, t), p) == Bit(m.page == p) + CountPage(t, p)
    decreases |t|
  {
    if |t| == 0 {
      CountPageCons(m, [], p);
    } else if t[0].score <= m.score {
      CountPageCons(m, t, p);
    } else {
      var rest := t[1..];
      var ins := Insert(m, rest);
      assert Insert(m, t) == [t[0]] + ins;
      InsertCounts(m, rest, p);
      CountPageCons(t[0], ins, p);
      CountPageCons(t[0], rest, p);
      assert t == [t[0]] + rest;
    }
  }

  /**
   `results.sort((a, b) => b.matchScore - a.matchScore)`: the results sorted by score,
   highest first, as a permutation of the input.
   */
  function SortByScore(s: seq<Match>): (r: seq<Match>)
    ensures Sorted(r)
    ensures multiset(r) == multiset(s)
    decreases |s|
  {
    if |s| == 0 then []
    else
      assert s == [s[0]] + s[1..];
      InsertSorted(s[0], SortByScore(s[1..]));
      Insert(s[0], SortByScore(s[1..]))
  }

  /** The sort is stable: for every score, the results with that score keep their order. */
  lemma {:induction false} SortByScoreStable(s: seq<Match>, k: nat)
    ensures WithScore(SortByScore(s), k) == WithScore(s, k)
    decreases |s|
  {
    if |s| > 0 {
      SortByScoreStable(s[1..], k);
      InsertGroups(s[0], SortByScore(s[1..]), k);
      WithScoreCons(s[0], s[1..], k);
      assert s == [s[0]] + s[1..];
    }
  }

  /** Sorting keeps how many results each page has. */
  lemma {:induction false} SortByScoreCounts(s: seq<Match>, p: Page)
    ensures CountPage(SortByScore(s), p) == CountPage(s, p)
    decreases |s|
  {
    if |s| > 0 {
      SortByScoreCounts(s[1..], p);
      InsertCounts(s[0], SortByScore(s[1..]), p);
      CountPageCons(s[0], s[1..], p);
      assert s == [s[0]] + s[1..];
    }
  }

  lemma SortedHeadIsMax(s: seq<Match>, x: Match)
    requires Sorted(s) && x in s
    ensures x.score <= s[0].score
  {
  }

  /**
   A stable sort by descending score has only one possible outcome: any sorted list
   whose equal-score groups are those of another sorted list is that list. So every
   stable sort, whatever its algorithm, returns what `SortByScore` returns.
   */
  lemma {:induction false} StableSortUnique(a: seq<Match>, b: seq<Match>)
    requires Sorted(a) && Sorted(b)
    requires forall k :: WithScore(a, k) == WithScore(b, k)
    ensures a == b
    decreases |a| + |b|
  {
    if |a| == 0 || |b| == 0 {
      if |a| > 0 {
        WithScoreMembers(a, a[0].score, a[0]);
        WithScoreMembers(b, a[0].score, a[0]);
      } else if |b| > 0 {
        WithScoreMembers(b, b[0].score, b[0]);
        WithScoreMembers(a, b[0].score, b[0]);
      }
    } else {
      SameHead(a, b);
      forall k
        ensures WithScore(a[1..], k) == WithScore(b[1..], k)
      {
        var head := if a[0].score == k then [a[0]] else [];
        WithScoreCons(a[0], a[1..], k);
        WithScoreCons(b[0], b[1..], k);
        assert a == [a[0]] + a[1..];
        assert b == [b[0]] + b[1..];
        assert head + WithScore(a[1..], k) == head + WithScore(b[1..], k);
        assert WithScore(a[1..], k) == (head + WithScore(a[1..], k))[|head|..];
        assert WithScore(b[1..], k) == (head + WithScore(b[1..], k))[|head|..];
      }
      StableSortUnique(a[1..], b[1..]);
      assert a == [a[0]] + a[1..];
      assert b == [b[0]] + b[1..];
    }
  }

  lemma SameHead(a: seq<Match>, b: seq<Match>)
    requires Sorted(a) && Sorted(b) && |a| > 0 && |b| > 0
    requires forall k :: WithScore(a, k) == WithScore(b, k)
    ensures a[0] == b[0]
  {
    var ka, kb := a[0].score, b[0].score;
    WithScoreMembers(a, ka, a[0]);
    WithScoreMembers(b, ka, a[0]);
    SortedHeadIsMax(b, a[0]);
    WithScoreMembers(b, kb, b[0]);
    WithScoreMembers(a, kb, b[0]);
    SortedHeadIsMax(a, b[0]);
    assert ka == kb;
    WithScoreCons(a[0], a[1..], ka);
    WithScoreCons(b[0], b[1..], ka);
    assert a == [a[0]] + a[1..];
    assert b == [b[0]] + b[1..];
    assert WithScore(a, ka)[0] == a[0];
    assert WithScore(b, ka)[0] == b[0];
  }

  // ---------------------------------------------------------------------------
  // Ranking
  // ---------------------------------------------------------------------------

  /** The ranked results for the query words. */
  function Rank(words: seq<string>, corpus: Corpus): seq<Match> {
    SortByScore(Collect(words, corpus))
  }

  /**
   The search as triggered: an all-whitespace query returns early and leaves the
   previous results in place (`None`); any other query has at least one word and
   replaces the results with its ranking.
   */
  function PerformSearch(query: string, corpus: Corpus): (r: Option<seq<Match>>)
    ensures r.None? <==> AllWhitespace(query)
    ensures r.Some? ==> |QueryWords(query)| > 0 && r.value == Rank(QueryWords(query), corpus)
  {
    if Trim(query) == [] then None else Some(Rank(QueryWords(query), corpus))
  }

  /**
   What the ranked list holds: results sorted by score, highest first; each one is the
   result record of a page that loaded, with a positive score and a non-empty category.
   */
  lemma RankContents(words: seq<string>, corpus: Corpus)
    ensures Sorted(Rank(words, corpus))
    ensures forall i :: 0 <= i < |Rank(words, corpus)| ==>
      var m := Rank(words, corpus)[i];
      && m == MatchOf(m.page, words)
      && m.score > 0
      && m.category != Unmatched
      && Some(m.page) in corpus
  {
    var c := Collect(words, corpus);
    var r := Rank(words, corpus);
    CollectSound(words, corpus);
    forall i | 0 <= i < |r|
      ensures r[i] in c
    {
      assert r[i] in multiset(r);
    }
    forall i | 0 <= i < |r|
      ensures r[i].category != Unmatched
    {
      ScorePositiveIffMatched(r[i].page, words);
    }
  }

  lemma {:induction false} CountPageAppend(a: seq<Match>, b: seq<Match>, p: Page)
    ensures CountPage(a + b, p) == CountPage(a, p) + CountPage(b, p)
    decreases |a|
  {
    if |a| == 0 {
      assert a + b == b;
    } else {
      assert (a + b)[1..] == a[1..] + b;
      CountPageAppend(a[1..], b, p);
    }
  }

  lemma {:induction false} CollectCounts(words: seq<string>, corpus: Corpus, p: Page)
    ensures CountPage(Collect(words, corpus), p) ==
      (if Score(p, words) > 0 then multiset(corpus)[Some(p)] else 0)
    decreases |corpus|
  {
    if |corpus| > 0 {
      var init, last := corpus[..|corpus| - 1], corpus[|corpus| - 1];
      CollectCounts(words, init, p);
      assert corpus == init + [last];
      assert multiset(corpus)[Some(p)] == multiset(init)[Some(p)] + multiset{last}[Some(p)];
      var ms := Collect(words, init);
      if last.Some? && Score(last.value, words) > 0 {
        var m := MatchOf(last.value, words);
        assert Collect(words, corpus) == ms + [m];
        CountPageAppend(ms, [m], p);
        CountPageCons(m, [], p);
        assert [m] + [] == [m];
      } else {
        assert Collect(words, corpus) == ms;
      }
    }
  }

  /**
   Each loaded page appears in the ranking as often as it is loaded when its score is
   positive, and not at all otherwise.
   */
  lemma RankCounts(words: seq<string>, corpus: Corpus, p: Page)
    ensures Score(p, words) > 0 ==> CountPage(Rank(words, corpus), p) == multiset(corpus)[Some(p)]
    ensures Score(p, words) == 0 ==> CountPage(Rank(words, corpus), p) == 0
  {
    CollectCounts(words, corpus, p);
    SortByScoreCounts(Collect(words, corpus), p);
  }

  lemma {:induction false} DistinctOnce(corpus: Corpus, i: int)
    requires DistinctPages(corpus)
    requires 0 <= i < |corpus| && corpus[i].Some?
    ensures multiset(corpus)[corpus[i]] == 1
    decreases |corpus|
  {
    var init, last := corpus[..|corpus| - 1], corpus[|corpus| - 1];
    assert corpus == init + [last];
    if i == |corpus| - 1 {
      assert corpus[i] !in init;
    } else {
      DistinctOnce(init, i);
      assert corpus[i] != last by {
        if last.Some? {
          assert corpus[i].value != corpus[|corpus| - 1].value;
        }
      }
    }
  }

  /**
   With every page loaded at most once, a loaded page is in the ranking exactly once
   when its score is positive and absent when it is zero.
   */
  lemma RankExactlyOnce(words: seq<string>, corpus: Corpus, i: int)
    requires DistinctPages(corpus)
    requires 0 <= i < |corpus| && corpus[i].Some?
    ensures Score(corpus[i].value, words) > 0 ==> CountPage(Rank(words, corpus), corpus[i].value) == 1
    ensures Score(corpus[i].value, words) == 0 ==> CountPage(Rank(words, corpus), corpus[i].value) == 0
  {
    RankCounts(words, corpus, corpus[i].value);
    DistinctOnce(corpus, i);
  }

  /** A query with no words ranks nothing. */
  lemma RankNoWords(corpus: Corpus)
    ensures Rank([], corpus) == []
  {
    if |Collect([], corpus)| > 0 {
      var m := Collect([], corpus)[0];
      CollectSound([], corpus);
      NoWordsNoMatch(m.page);
    }
  }

  // ---------------------------------------------------------------------------
  // Ties keep the corpus order
  // ---------------------------------------------------------------------------

  /** `x` occurs somewhere before `y` in `s`. */
  predicate Before<T(==)>(s: seq<T>, x: T, y: T) {
    exists i, j :: 0 <= i < j < |s| && s[i] == x && s[j] == y
  }

  lemma BeforeInPrefix<T>(a: seq<T>, b: seq<T>, x: T, y: T)
    requires Before(b, x, y)
    ensures Before(a + b, x, y)
  {
    var i, j :| 0 <= i < j < |b| && b[i] == x && b[j] == y;
    assert (a + b)[|a| + i] == x && (a + b)[|a| + j] == y;
  }

  lemma BeforeExtend<T>(a: seq<T>, b: seq<T>, x: T, y: T)
    requires Before(a, x, y)
    ensures Before(a + b, x, y)
  {
    var i, j :| 0 <= i < j < |a| && a[i] == x && a[j] == y;
    assert (a + b)[i] == x && (a + b)[j] == y;
  }

  lemma BeforeAcross<T>(a: seq<T>, b: seq<T>, x: T, y: T)
    requires x in a && y in b
    ensures Before(a + b, x, y)
  {
    var i :| 0 <= i < |a| && a[i] == x;
    var j :| 0 <= j < |b| && b[j] == y;
    assert (a + b)[i] == x && (a + b)[|a| + j] == y;
  }

  /** Two results of equal score that are ordered in `s` are ordered in its score group. */
  lemma {:induction false} BeforeInGroup(s: seq<Match>, x: Match, y: Match)
    requires Before(s, x, y) && x.score == y.score
    ensures Before(WithScore(s, x.score), x, y)
    decreases |s|
  {
    var k := x.score;
    var i, j :| 0 <= i < j < |s| && s[i] == x && s[j] == y;
    var head := if s[0].score == k then [s[0]] else [];
    assert WithScore(s, k) == head + WithScore(s[1..], k);
    if i == 0 {
      assert y == s[1..][j - 1];
      WithScoreMembers(s[1..], k, y);
      BeforeAcross(head, WithScore(s[1..], k), x, y);
    } else {
      assert s[1..][i - 1] == x && s[1..][j - 1] == y;
      BeforeInGroup(s[1..], x, y);
      BeforeInPrefix(head, WithScore(s[1..], k), x, y);
    }
  }

  /** The order within a score group is the order in the list it was taken from. */
  lemma {:induction false} GroupBefore(s: seq<Match>, k: nat, x: Match, y: Match)
    requires Before(WithScore(s, k), x, y)
    ensures Before(s, x, y)
    decreases |s|
  {
    var g := WithScore(s, k);
    var i, j :| 0 <= i < j < |g| && g[i] == x && g[j] == y;
    var rest := WithScore(s[1..], k);
    assert s == [s[0]] + s[1..];
    if s[0].score == k {
      assert g == [s[0]] + rest;
      if i == 0 {
        assert y == rest[j - 1];
        WithScoreMembers(s[1..], k, y);
        BeforeAcross([s[0]], s[1..], x, y);
      } else {
        assert rest[i - 1] == x && rest[j - 1] == y;
        GroupBefore(s[1..], k, x, y);
        BeforeInPrefix([s[0]], s[1..], x, y);
      }
    } else {
      assert g == rest;
      GroupBefore(s[1..], k, x, y);
      BeforeInPrefix([s[0]], s[1..], x, y);
    }
  }

  /** Collected results are in the order their pages have in the corpus. */
  lemma {:induction false} CollectKeepsCorpusOrder(words: seq<string>, corpus: Corpus, x: Match, y: Match)
    requires Before(Collect(words, corpus), x, y)
    ensures Before(corpus, Some(x.page), Some(y.page))
    decreases |corpus|
  {
    var init, last := corpus[..|corpus| - 1], corpus[|corpus| - 1];
    assert corpus == init + [last];
    var ms := Collect(words, init);
    var c := Collect(words, corpus);
    var i, j :| 0 <= i < j < |c| && c[i] == x && c[j] == y;
    if j < |ms| {
      assert c[..|ms|] == ms;
      assert ms[i] == x && ms[j] == y;
      CollectKeepsCorpusOrder(words, init, x, y);
      BeforeExtend(init, [last], Some(x.page), Some(y.page));
    } else {
      assert last.Some? && c == ms + [MatchOf(last.value, words)];
      assert ms[i] == x;
      CollectSound(words, init);
      BeforeAcross(init, [last], Some(x.page), Some(y.page));
    }
  }

  /**
   Stability of the ranking: two results with equal scores come in the order their
   pages have in the corpus.
   */
  lemma RankTiesKeepCorpusOrder(words: seq<string>, corpus: Corpus, x: Match, y: Match)
    requires Before(Rank(words, corpus), x, y) && x.score == y.score
    ensures Before(corpus, Some(x.page), Some(y.page))
  {
    var c := Collect(words, corpus);
    BeforeInGroup(Rank(words, corpus), x, y);
    SortByScoreStable(c, x.score);
    GroupBefore(c, x.score, x, y);
    CollectKeepsCorpusOrder(words, corpus, x, y);
  }
}
