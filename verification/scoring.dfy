/**
 Scoring one page against the query words: six weighted passes over the page's fields
 in priority order (title, h1, meta text, every image's alt, h2, body paragraphs), each
 adding its weight once per query word that the field contains as a whole word, and
 the category taken from the first pass that matched.
 */
module Scoring {
  import opened Text
  import opened Pages

  /** The `matchType` of a result; `Unmatched` is the empty string it starts as. */
  datatype Category = Unmatched | TitleMatch | MetaMatch | ContentMatch {
    function Name(): string {
      match this
      case Unmatched => ""
      case TitleMatch => "title"
      case MetaMatch => "meta"
      case ContentMatch => "content"
    }
  }

  /** A ranked result: the page, its `matchScore` and its `matchType`. */
  datatype Match = Match(page: Page, score: nat, category: Category)

  const TitleWeight: nat := 100
  const H1Weight: nat := 80
  const MetaWeight: nat := 50
  const AltWeight: nat := 40
  const H2Weight: nat := 30
  const BodyWeight: nat := 20

  /** `matchType = matchType || c`: the empty category takes `c`, any other one stays. */
  function Prefer(current: Category, c: Category): Category {
    if current == Unmatched then c else current
  }

  /** Some query word occurs in `text` as a whole word. */
  predicate AnyHit(words: seq<string>, text: string) {
    exists w :: w in words && HasExactWord(text, w)
  }

  /** Some image's alt text holds some query word as a whole word. */
  predicate AnyAltHit(images: seq<Image>, words: seq<string>) {
    exists img :: img in images && AnyHit(words, img.alt)
  }

  function Bit(b: bool): nat {
    if b then 1 else 0
  }

  /** How many query words, duplicates included, `text` contains as whole words. */
  function Hits(words: seq<string>, text: string): (n: nat)
    ensures n <= |words|
    ensures n > 0 <==> AnyHit(words, text)
    decreases |words|
  {
    if |words| == 0 then 0
    else
      var init, last := words[..|words| - 1], words[|words| - 1];
      assert words == init + [last];
      Hits(init, text) + Bit(HasExactWord(text, last))
  }

  /** How many images have an alt text holding `w` as a whole word. */
  function AltCount(images: seq<Image>, w: string): (n: nat)
    ensures n <= |images|
    decreases |images|
  {
    if |images| == 0 then 0
    else AltCount(images[..|images| - 1], w) + Bit(HasExactWord(images[|images| - 1].alt, w))
  }

  /** The image pass's count: over every image, the query words its alt text holds. */
  function AltHits(images: seq<Image>, words: seq<string>): (n: nat)
    ensures n > 0 <==> AnyAltHit(images, words)
    decreases |images|
  {
    if |images| == 0 then 0
    else
      var init, last := images[..|images| - 1], images[|images| - 1];
      assert images == init + [last];
      AltHits(init, words) + Hits(words, last.alt)
  }

  /** What one query word earns the page across all six fields. */
  function WordScore(p: Page, w: string): nat {
    TitleWeight * Bit(HasExactWord(p.title, w))
    + H1Weight * Bit(HasExactWord(p.h1, w))
    + MetaWeight * Bit(HasExactWord(MetaText(p), w))
    + AltWeight * AltCount(p.images, w)
    + H2Weight * Bit(HasExactWord(p.h2, w))
    + BodyWeight * Bit(HasExactWord(p.paragraphs, w))
  }

  /** The page's score: the sum of what each query word earns, duplicates included. */
  function Score(p: Page, words: seq<string>): nat
    decreases |words|
  {
    if |words| == 0 then 0
    else Score(p, words[..|words| - 1]) + WordScore(p, words[|words| - 1])
  }

  /**
   The category of the highest-priority field that holds some query word: title or h1
   give `title`, the meta text or an image alt give `meta`, h2 or the body give `content`.
   */
  function CategoryOf(p: Page, words: seq<string>): Category {
    if AnyHit(words, p.title) || AnyHit(words, p.h1) then TitleMatch
    else if AnyHit(words, MetaText(p)) || AnyAltHit(p.images, words) then MetaMatch
    else if AnyHit(words, p.h2) || AnyHit(words, p.paragraphs) then ContentMatch
    else Unmatched
  }

  /** The result record the search builds for a page. */
  function MatchOf(p: Page, words: seq<string>): Match {
    Match(p, Score(p, words), CategoryOf(p, words))
  }

  // ---------------------------------------------------------------------------
  // The passes as the script runs them
  // ---------------------------------------------------------------------------

  /**
   One `queryWords.forEach` pass over a field: every word the field holds as a whole
   word adds `weight` and offers `cat` to the sticky `matchType`.
   */
  method FieldPass(text: string, words: seq<string>, weight: nat, cat: Category,
                   score0: nat, type0: Category)
    returns (score: nat, matchType: Category)
    ensures score == score0 + weight * Hits(words, text)
    ensures matchType == Prefer(type0, if AnyHit(words, text) then cat else Unmatched)
  {
    score, matchType := score0, type0;
    var i := 0;
    while i < |words|
      invariant 0 <= i <= |words|
      invariant score == score0 + weight * Hits(words[..i], text)
      invariant matchType == Prefer(type0, if AnyHit(words[..i], text) then cat else Unmatched)
    {
      var found := RegexTest(text, words[i], true);
      HitsStep(words, i, text);
      Distribute(weight, Hits(words[..i], text), Bit(found));
      if found {
        score := score + weight;
        matchType := Prefer(matchType, cat);
      }
      i := i + 1;
    }
    assert words[..i] == words;
  }

  /** One more word adds a hit when the field holds it, and may give the first hit. */
  lemma HitsStep(words: seq<string>, i: int, text: string)
    requires 0 <= i < |words|
    ensures Hits(words[..i + 1], text) == Hits(words[..i], text) + Bit(HasExactWord(text, words[i]))
    ensures AnyHit(words[..i + 1], text) <==> AnyHit(words[..i], text) || HasExactWord(text, words[i])
  {
    var pre, w := words[..i], words[i];
    assert words[..i + 1] == pre + [w];
    assert words[..i + 1][..i] == pre;
    if HasExactWord(text, w) {
      assert w in words[..i + 1];
    }
    if AnyHit(words[..i + 1], text) && !HasExactWord(text, w) {
      var v :| v in words[..i + 1] && HasExactWord(text, v);
      assert v in pre;
    }
  }

  lemma Distribute(weight: nat, h: nat, b: nat)
    ensures weight * (h + b) == weight * h + weight * b
  {
  }

  /** The image pass: for each image in order, a field pass over its alt text. */
  method ImagePass(images: seq<Image>, words: seq<string>, score0: nat, type0: Category)
    returns (score: nat, matchType: Category)
    ensures score == score0 + AltWeight * AltHits(images, words)
    ensures matchType == Prefer(type0, if AnyAltHit(images, words) then MetaMatch else Unmatched)
  {
    score, matchType := score0, type0;
    var j := 0;
    while j < |images|
      invariant 0 <= j <= |images|
      invariant score == score0 + AltWeight * AltHits(images[..j], words)
      invariant matchType == Prefer(type0, if AnyAltHit(images[..j], words) then MetaMatch else Unmatched)
    {
      assert images[..j + 1][..j] == images[..j];
      score, matchType := FieldPass(images[j].alt, words, AltWeight, MetaMatch, score, matchType);
      j := j + 1;
    }
    assert images[..j] == images;
  }

  /**
   The body of the per-page step of the search: the six passes in the script's order.
   The accumulated score is the per-word formula, the sticky `matchType` is the category
   of the first field in priority order that matched, and a page is a match exactly
   when that category is not empty.
   */
  method EvaluatePage(p: Page, words: seq<string>) returns (score: nat, matchType: Category)
    ensures score == Score(p, words)
    ensures matchType == CategoryOf(p, words)
    ensures score > 0 <==> matchType != Unmatched
  {
    score, matchType := FieldPass(p.title, words, TitleWeight, TitleMatch, 0, Unmatched);
    score, matchType := FieldPass(p.h1, words, H1Weight, TitleMatch, score, matchType);
    score, matchType := FieldPass(MetaText(p), words, MetaWeight, MetaMatch, score, matchType);
    score, matchType := ImagePass(p.images, words, score, matchType);
    score, matchType := FieldPass(p.h2, words, H2Weight, ContentMatch, score, matchType);
    score, matchType := FieldPass(p.paragraphs, words, BodyWeight, ContentMatch, score, matchType);
    ScoreByField(p, words);
    ScorePositiveIffMatched(p, words);
  }

  // ---------------------------------------------------------------------------
  // Properties of the score
  // ---------------------------------------------------------------------------

  lemma {:induction false} AltHitsSnoc(images: seq<Image>, words: seq<string>, w: string)
    ensures AltHits(images, words + [w]) == AltHits(images, words) + AltCount(images, w)
    decreases |images|
  {
    if |images| > 0 {
      var init, last := images[..|images| - 1], images[|images| - 1];
      AltHitsSnoc(init, words, w);
      assert (words + [w])[..|words|] == words;
    }
  }

  /**
   Summing per word equals summing per field: the score is 100 per word in the title,
   80 per word in h1, 50 per word in the meta text, 40 per (image, word) pair whose alt
   holds the word, 30 per word in h2 and 20 per word in the body.
   */
  lemma ScoreByField(p: Page, words: seq<string>)
    ensures Score(p, words) ==
      TitleWeight * Hits(words, p.title)
      + H1Weight * Hits(words, p.h1)
      + MetaWeight * Hits(words, MetaText(p))
      + AltWeight * AltHits(p.images, words)
      + H2Weight * Hits(words, p.h2)
      + BodyWeight * Hits(words, p.paragraphs)
    decreases |words|
  {
    if |words| > 0 {
      var init, last := words[..|words| - 1], words[|words| - 1];
      ScoreByField(p, init);
      assert words == init + [last];
      AltHitsSnoc(p.images, init, last);
    }
  }

  /** A page scores above zero exactly when some field matched, i.e. it has a category. */
  lemma ScorePositiveIffMatched(p: Page, words: seq<string>)
    ensures Score(p, words) > 0 <==> CategoryOf(p, words) != Unmatched
  {
    ScoreByField(p, words);
  }

  /** The score is additive over the query words: splitting the query splits the score. */
  lemma {:induction false} ScoreAdditive(p: Page, a: seq<string>, b: seq<string>)
    ensures Score(p, a + b) == Score(p, a) + Score(p, b)
    decreases |b|
  {
    if |b| == 0 {
      assert a + b == a;
    } else {
      var init, last := b[..|b| - 1], b[|b| - 1];
      ScoreAdditive(p, a, init);
      assert (a + b)[..|a + b| - 1] == a + init;
    }
  }

  /** A query with no words scores nothing and matches no field. */
  lemma NoWordsNoMatch(p: Page)
    ensures Score(p, []) == 0
    ensures CategoryOf(p, []) == Unmatched
  {
  }
}
