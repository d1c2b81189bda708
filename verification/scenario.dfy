/**
 Worked examples: three small pages, one matching the query in its title, one in its
 meta keywords and one in its body, and what the search, the filter and the word
 matchers make of them.
 */
module Scenario {
  import opened Text
  import opened Pages
  import opened Scoring
  import opened Ranking
  import opened Filter
  import opened Suggestions

  function Blank(n: nat, url: string): Page {
    Page(n, url, "", "", "", "", "", "", [])
  }

  function TrailsPage(): Page {
    Blank(1, "page1.html").(title := "Hiking Trails")
  }

  function KeywordsPage(): Page {
    Blank(2, "page2.html").(metaKeywords := "hiking,trails,nature")
  }

  function DiaryPage(): Page {
    Blank(3, "page3.html").(paragraphs := "we went hiking last year")
  }

  function Site(): Corpus {
    [Some(TrailsPage()), Some(KeywordsPage()), None, Some(DiaryPage())]
  }

  lemma LowerHiking()
    ensures Lower("Hiking") == "hiking"
    ensures Lower("hiking") == "hiking"
  {
  }

  /** A query that is one word without surrounding whitespace is that word, lower-cased. */
  lemma OneWordQuery(q: string)
    requires |q| > 0 && !IsJsWhitespace(q[0]) && !IsJsWhitespace(q[|q| - 1]) && ' ' !in q
    ensures QueryWords(q) == [Lower(q)]
  {
    var l := Lower(q);
    assert ' ' !in l by {
      forall i | 0 <= i < |l|
        ensures l[i] != ' '
      {
        assert q[i] != ' ';
      }
    }
    assert Split(l, ' ') == [l];
    assert NonEmpty([l]) == [l];
    assert Trim(q) == q by {
      assert TrimStart(q) == q;
      assert TrimEnd(q) == q;
    }
  }

  /** Words longer than the field never match, so empty fields score nothing. */
  lemma NothingInShortText(s: string, w: string)
    requires |s| < |w|
    ensures !HasExactWord(s, w)
  {
  }

  /** With a single query word, the score is what that word earns. */
  lemma SingleWord(p: Page, w: string)
    ensures Score(p, [w]) == WordScore(p, w)
    ensures forall t :: AnyHit([w], t) == HasExactWord(t, w)
  {
    assert [w][..0] == [];
  }

  lemma TitleOnly(p: Page, w: string)
    requires p.images == [] && |p.h1| < |w| && |MetaText(p)| < |w| && |p.h2| < |w|
    requires |p.paragraphs| < |w| && HasExactWord(p.title, w)
    ensures MatchOf(p, [w]) == Match(p, TitleWeight, TitleMatch)
  {
    SingleWord(p, w);
    NothingInShortText(p.h1, w);
    NothingInShortText(MetaText(p), w);
    NothingInShortText(p.h2, w);
    NothingInShortText(p.paragraphs, w);
  }

  lemma MetaOnly(p: Page, w: string)
    requires p.images == [] && |p.title| < |w| && |p.h1| < |w| && |p.h2| < |w|
    requires |p.paragraphs| < |w| && HasExactWord(MetaText(p), w)
    ensures MatchOf(p, [w]) == Match(p, MetaWeight, MetaMatch)
  {
    SingleWord(p, w);
    NothingInShortText(p.title, w);
    NothingInShortText(p.h1, w);
    NothingInShortText(p.h2, w);
    NothingInShortText(p.paragraphs, w);
  }

  lemma BodyOnly(p: Page, w: string)
    requires p.images == [] && |p.title| < |w| && |p.h1| < |w| && |MetaText(p)| < |w|
    requires |p.h2| < |w| && HasExactWord(p.paragraphs, w)
    ensures MatchOf(p, [w]) == Match(p, BodyWeight, ContentMatch)
  {
    SingleWord(p, w);
    NothingInShortText(p.title, w);
    NothingInShortText(p.h1, w);
    NothingInShortText(MetaText(p), w);
    NothingInShortText(p.h2, w);
  }

  lemma HikingInTitle()
    ensures HasExactWord("Hiking Trails", "hiking")
  {
    var t := "Hiking Trails";
    assert t[0..6] == "Hiking" && t[6] == ' ';
    LowerHiking();
    assert WholeWordAt(t, "hiking", 0);
  }

  lemma HikingInKeywords(p: Page)
    requires p.metaDescription == "" && p.metaKeywords == "hiking,trails,nature"
    ensures HasExactWord(MetaText(p), "hiking")
  {
    var t, k := MetaText(p), p.metaKeywords;
    assert t == [' '] + k;
    assert t[1..7] == k[0..6] == "hiking";
    assert t[0] == ' ' && t[7] == k[6] == ',';
    LowerHiking();
    assert WholeWordAt(t, "hiking", 1);
  }

  lemma HikingInDiary()
    ensures HasExactWord("we went hiking last year", "hiking")
  {
    var t := "we went hiking last year";
    assert t[8..14] == "hiking" && t[7] == ' ' && t[14] == ' ';
    LowerHiking();
    assert WholeWordAt(t, "hiking", 8);
  }

  lemma CollectLoaded(words: seq<string>, init: Corpus, p: Page)
    requires Score(p, words) > 0
    ensures Collect(words, init + [Some(p)]) == Collect(words, init) + [MatchOf(p, words)]
  {
    assert (init + [Some(p)])[..|init|] == init;
  }

  lemma CollectFailed(words: seq<string>, init: Corpus)
    ensures Collect(words, init + [None]) == Collect(words, init)
  {
    assert (init + [None])[..|init|] == init;
  }

  lemma CollectFirstTwo(words: seq<string>, a: Page, b: Page)
    requires Score(a, words) > 0 && Score(b, words) > 0
    ensures Collect(words, [Some(a), Some(b), None]) == [MatchOf(a, words), MatchOf(b, words)]
  {
    var c0: Corpus := [];
    assert c0 + [Some(a)] == [Some(a)];
    CollectLoaded(words, c0, a);
    assert [Some(a)] + [Some(b)] == [Some(a), Some(b)];
    CollectLoaded(words, [Some(a)], b);
    assert [Some(a), Some(b)] + [None] == [Some(a), Some(b), None];
    CollectFailed(words, [Some(a), Some(b)]);
  }

  /** Collecting over three loaded pages that all match and one that failed. */
  lemma CollectAllMatch(words: seq<string>, a: Page, b: Page, c: Page)
    requires Score(a, words) > 0 && Score(b, words) > 0 && Score(c, words) > 0
    ensures Collect(words, [Some(a), Some(b), None, Some(c)]) ==
      [MatchOf(a, words), MatchOf(b, words), MatchOf(c, words)]
  {
    CollectFirstTwo(words, a, b);
    assert [Some(a), Some(b), None] + [Some(c)] == [Some(a), Some(b), None, Some(c)];
    CollectLoaded(words, [Some(a), Some(b), None], c);
  }

  lemma HikingSort(m1: Match, m2: Match, m3: Match)
    requires m1.score == 100 && m2.score == 50 && m3.score == 20
    ensures SortByScore([m1, m2, m3]) == [m1, m2, m3]
  {
    assert [m1, m2, m3][1..] == [m2, m3];
    assert [m2, m3][1..] == [m3];
    assert [m3][1..] == [];
  }

  lemma HikingRank()
    ensures Rank(["hiking"], Site()) == [
      Match(TrailsPage(), 100, TitleMatch),
      Match(KeywordsPage(), 50, MetaMatch),
      Match(DiaryPage(), 20, ContentMatch)]
  {
    HikingInTitle();
    TitleOnly(TrailsPage(), "hiking");
    HikingInKeywords(KeywordsPage());
    MetaOnly(KeywordsPage(), "hiking");
    HikingInDiary();
    BodyOnly(DiaryPage(), "hiking");
    CollectAllMatch(["hiking"], TrailsPage(), KeywordsPage(), DiaryPage());
    HikingSort(MatchOf(TrailsPage(), ["hiking"]), MatchOf(KeywordsPage(), ["hiking"]),
               MatchOf(DiaryPage(), ["hiking"]));
  }

  /**
   Searching for "Hiking" ranks the title match first, then the meta match, then the
   body match; the page that failed to load is skipped.
   */
  lemma HikingSearch(query: string)
    requires query == "Hiking"
    ensures PerformSearch(query, Site()) == Some([
      Match(TrailsPage(), 100, TitleMatch),
      Match(KeywordsPage(), 50, MetaMatch),
      Match(DiaryPage(), 20, ContentMatch)])
  {
    assert QueryWords(query) == ["hiking"] by {
      OneWordQuery(query);
      LowerHiking();
    }
    assert !AllWhitespace(query) by {
      assert !IsJsWhitespace(query[0]);
    }
    SearchRanks(query, Site(), ["hiking"]);
    HikingRank();
  }

  lemma SearchRanks(query: string, corpus: Corpus, words: seq<string>)
    requires !AllWhitespace(query) && QueryWords(query) == words
    ensures PerformSearch(query, corpus) == Some(Rank(words, corpus))
  {
  }

  /** On a list like that search's, the `content` filter keeps only the body match. */
  lemma ContentOnly(m1: Match, m2: Match, m3: Match)
    requires m1.category == TitleMatch && m2.category == MetaMatch && m3.category == ContentMatch
    ensures OfType([m1, m2, m3], "content") == [m3]
  {
    assert "title" != "content" && "meta" != "content";
    OfTypeCons(m3, [], "content");
    assert [m3] + [] == [m3];
    OfTypeCons(m2, [m3], "content");
    assert [m2] + [m3] == [m2, m3];
    OfTypeCons(m1, [m2, m3], "content");
    assert [m1] + [m2, m3] == [m1, m2, m3];
  }

  /** "cat" is not a whole word of "category", but it does start one. */
  lemma CatInCategory()
    ensures !HasExactWord("category", "cat")
    ensures StartsWithQuery("category", "cat")
  {
    var s := "category";
    assert WordStartAt(s, "cat", 0) by {
      assert Lower(s[0..3]) == "cat";
      assert Lower("cat") == "cat";
    }
    forall i | 0 <= i <= |s| - 3
      ensures !WholeWordAt(s, "cat", i)
    {
      if i == 0 {
        assert !IsBoundary(s, 3);
      } else {
        assert IsWordChar(s[i - 1]);
      }
    }
  }

  /** The token is matched literally: a dot in it is not a wildcard. */
  lemma DotIsLiteral()
    ensures !HasExactWord("abc", "a.c")
  {
    assert Lower("abc"[0..3])[1] == 'b';
    assert Lower("a.c")[1] == '.';
  }

  /**
   A token ending in punctuation is never a whole word before a space or the end of
   the text: `\b` needs a word character on one side.
   */
  lemma PunctuationTokenNeverWhole()
    ensures StartsWithQuery("c++ rocks", "c++")
    ensures !HasExactWord("c++ rocks", "c++")
  {
    var s, w := "c++ rocks", "c++";
    assert Lower(w) == w;
    assert WordStartAt(s, w, 0) by {
      assert Lower(s[0..3]) == w;
    }
    forall i | 0 <= i <= |s| - 3
      ensures !WholeWordAt(s, w, i)
    {
      if i == 0 {
        assert !IsBoundary(s, 3);
      } else {
        assert Lower(s[i..i + 3])[1] == LowerChar(s[i + 1]);
        assert Lower(w)[1] == '+';
      }
    }
  }

  /** The suggestion set is case-sensitive: two spellings of a word are both offered. */
  lemma SpellingsKeptApart()
    ensures InsertionOrdered(["Hiking", "hiking", "Hiking"]) == ["Hiking", "hiking"]
  {
    assert "Hiking" != "hiking" by {
      assert "Hiking"[0] != "hiking"[0];
    }
    RepeatDropped("Hiking", "hiking");
  }

  lemma RepeatDropped(a: string, b: string)
    requires a != b
    ensures InsertionOrdered([a, b, a]) == [a, b]
  {
    var s := [a, b, a];
    assert s[..2][..1][..0] == [];
    assert InsertionOrdered(s[..2][..1]) == [a];
    assert s[..2] == [a, b];
    assert InsertionOrdered(s[..2]) == [a, b];
  }
}
