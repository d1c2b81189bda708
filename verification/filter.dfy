/**
 The category filter applied when results are displayed: `all` shows the ranked list as
 it is, any other value shows only the results whose `matchType` equals it, in order.
 */
module Filter {
  import opened Text
  import opened Scoring
  import opened Ranking

  /** `results.filter(r => r.matchType === name)`. */
  function OfType(results: seq<Match>, name: string): (shown: seq<Match>)
    ensures forall i :: 0 <= i < |shown| ==> shown[i].category.Name() == name
    ensures forall i :: 0 <= i < |results| && results[i].category.Name() == name ==>
      results[i] in shown
    decreases |results|
  {
    if |results| == 0 then []
    else
      var rest := OfType(results[1..], name);
      assert forall i :: 1 <= i < |results| ==> results[i] == results[1..][i - 1];
      if results[0].category.Name() == name then
        assert ([results[0]] + rest)[1..] == rest;
        [results[0]] + rest
      else rest
  }

  /** The filter keeps each result of the named category as often as it occurs. */
  lemma {:induction false} OfTypeCounts(results: seq<Match>, name: string)
    ensures forall x: Match :: x.category.Name() == name ==>
      multiset(OfType(results, name))[x] == multiset(results)[x]
    decreases |results|
  {
    if |results| > 0 {
      OfTypeCounts(results[1..], name);
      var rest := OfType(results[1..], name);
      assert results == [results[0]] + results[1..];
      assert multiset(results) == multiset{results[0]} + multiset(results[1..]);
      if results[0].category.Name() == name {
        assert OfType(results, name) == [results[0]] + rest;
        assert multiset(OfType(results, name)) == multiset{results[0]} + multiset(rest);
      } else {
        assert OfType(results, name) == rest;
      }
    }
  }

  /**
   What `displayResults` shows for the current filter: with `all` the list unchanged,
   otherwise the order-preserving sub-list of exactly the results of that category.
   */
  function FilterResults(results: seq<Match>, filter: string): (shown: seq<Match>)
    ensures filter == "all" ==> shown == results
    ensures filter != "all" ==> forall i :: 0 <= i < |shown| ==> shown[i].category.Name() == filter
    ensures filter != "all" ==> forall i :: 0 <= i < |results| && results[i].category.Name() == filter ==>
      results[i] in shown
    ensures filter != "all" ==> forall x: Match :: x.category.Name() == filter ==>
      multiset(shown)[x] == multiset(results)[x]
    ensures IsSubsequence(shown, results)
  {
    if filter == "all" then
      SubsequenceOfItself(results);
      results
    else
      OfTypeSubsequence(results, filter);
      OfTypeCounts(results, filter);
      OfType(results, filter)
  }

  lemma {:induction false} OfTypeMembers(results: seq<Match>, name: string, x: Match)
    requires x in OfType(results, name)
    ensures x in results
    decreases |results|
  {
    var rest := OfType(results[1..], name);
    if x in rest {
      OfTypeMembers(results[1..], name, x);
    }
  }

  lemma {:induction false} OfTypeSubsequence(results: seq<Match>, name: string)
    ensures IsSubsequence(OfType(results, name), results)
    decreases |results|
  {
    if |results| > 0 {
      OfTypeSubsequence(results[1..], name);
      var rest := OfType(results[1..], name);
      if results[0].category.Name() == name {
        assert ([results[0]] + rest)[1..] == rest;
      }
    }
  }

  lemma {:induction false} SubsequenceOfItself<T>(s: seq<T>)
    ensures IsSubsequence(s, s)
    decreases |s|
  {
    if |s| > 0 {
      SubsequenceOfItself(s[1..]);
    }
  }

  lemma {:induction false} OfTypeSorted(s: seq<Match>, name: string)
    requires Sorted(s)
    ensures Sorted(OfType(s, name))
    decreases |s|
  {
    if |s| > 0 {
      OfTypeSorted(s[1..], name);
      var rest := OfType(s[1..], name);
      if s[0].category.Name() == name {
        var r := [s[0]] + rest;
        forall i, j | 0 <= i < j < |r|
          ensures r[i].score >= r[j].score
        {
          if i == 0 {
            assert r[j] == rest[j - 1];
            OfTypeMembers(s[1..], name, r[j]);
          } else {
            assert r[i] == rest[i - 1] && r[j] == rest[j - 1];
          }
        }
      }
    }
  }

  lemma {:induction false} FiltersCommute(s: seq<Match>, name: string, k: nat)
    ensures WithScore(OfType(s, name), k) == OfType(WithScore(s, k), name)
    decreases |s|
  {
    if |s| > 0 {
      FiltersCommute(s[1..], name, k);
      var x := s[0];
      assert s == [x] + s[1..];
      var rest := OfType(s[1..], name);
      var group := WithScore(s[1..], k);
      OfTypeCons(x, s[1..], name);
      WithScoreCons(x, s[1..], k);
      var inType, inGroup := x.category.Name() == name, x.score == k;
      if inType && inGroup {
        WithScoreCons(x, rest, k);
        OfTypeCons(x, group, name);
        assert WithScore(OfType(s, name), k) == [x] + WithScore(rest, k);
        assert OfType(WithScore(s, k), name) == [x] + OfType(group, name);
      } else if inType {
        WithScoreCons(x, rest, k);
        assert WithScore(s, k) == group;
        assert WithScore(OfType(s, name), k) == WithScore(rest, k);
      } else if inGroup {
        OfTypeCons(x, group, name);
        assert WithScore(s, k) == [x] + group;
        assert OfType([x] + group, name) == OfType(group, name);
        assert WithScore(OfType(s, name), k) == WithScore(rest, k);
        assert OfType(WithScore(s, k), name) == OfType(group, name);
      } else {
        assert WithScore(s, k) == group;
        assert WithScore(OfType(s, name), k) == WithScore(rest, k);
        assert OfType(WithScore(s, k), name) == OfType(group, name);
      }
    }
  }

  lemma OfTypeCons(x: Match, s: seq<Match>, name: string)
    ensures OfType([x] + s, name) == (if x.category.Name() == name then [x] else []) + OfType(s, name)
  {
    assert ([x] + s)[1..] == s;
  }

  /**
   Filtering the ranked list gives the ranking of the filtered matches: the filter
   keeps the score order and the corpus order among equal scores.
   */
  lemma FilterThenRank(matches: seq<Match>, filter: string)
    ensures FilterResults(SortByScore(matches), filter) == SortByScore(FilterResults(matches, filter))
  {
    if filter != "all" {
      var a := OfType(SortByScore(matches), filter);
      var b := SortByScore(OfType(matches, filter));
      OfTypeSorted(SortByScore(matches), filter);
      forall k
        ensures WithScore(a, k) == WithScore(b, k)
      {
        FiltersCommute(SortByScore(matches), filter, k);
        SortByScoreStable(matches, k);
        FiltersCommute(matches, filter, k);
        SortByScoreStable(OfType(matches, filter), k);
      }
      StableSortUnique(a, b);
    } else {
      assert FilterResults(matches, filter) == matches;
    }
  }
}
