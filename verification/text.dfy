/**
 Character classes, ASCII case folding, `String.prototype.trim`, `String.prototype.split`
 with a one-character separator, and the two word matchers that the search script builds
 as regular expressions: `\b<token>\b` for ranking and `\b<query>` for suggestions, both
 with the `i` flag and with the token escaped so that it is matched as literal text.
 */
module Text {

  /** `\w` of a JavaScript regular expression without the `u` flag: `[A-Za-z0-9_]`. */
  predicate IsWordChar(c: char) {
    ('a' <= c <= 'z') || ('A' <= c <= 'Z') || ('0' <= c <= '9') || c == '_'
  }

  /** ASCII lower-casing; every other character is left alone. */
  function LowerChar(c: char): char {
    if 'A' <= c <= 'Z' then (c as int + 32) as char else c
  }

  function Lower(s: string): (r: string)
    ensures |r| == |s|
    ensures forall i :: 0 <= i < |s| ==> r[i] == LowerChar(s[i])
  {
    seq(|s|, i requires 0 <= i < |s| => LowerChar(s[i]))
  }

  /** Lower-casing keeps a character's `\w` class, so it never moves a `\b`. */
  lemma LowerCharKeepsWordClass(c: char)
    ensures IsWordChar(LowerChar(c)) == IsWordChar(c)
    ensures LowerChar(LowerChar(c)) == LowerChar(c)
  {
  }

  lemma LowerSlice(s: string, i: int, j: int)
    requires 0 <= i <= j <= |s|
    ensures Lower(s)[i..j] == Lower(s[i..j])
  {
  }

  lemma LowerIdempotent(s: string)
    ensures Lower(Lower(s)) == Lower(s)
  {
    forall i | 0 <= i < |s|
      ensures Lower(Lower(s))[i] == Lower(s)[i]
    {
      LowerCharKeepsWordClass(s[i]);
    }
  }

  // ---------------------------------------------------------------------------
  // Word boundaries and the two matchers
  // ---------------------------------------------------------------------------

  /** Position `i` holds a word character; positions outside `s` count as non-word. */
  predicate WordCharAt(s: string, i: int) {
    0 <= i < |s| && IsWordChar(s[i])
  }

  /** The `\b` assertion at position `i`, which sits between `s[i-1]` and `s[i]`. */
  predicate IsBoundary(s: string, i: int) {
    WordCharAt(s, i - 1) != WordCharAt(s, i)
  }

  /** `w` occurs literally at position `i` of `s`, ignoring ASCII case. */
  predicate OccursAt(s: string, w: string, i: int) {
    0 <= i && i + |w| <= |s| && Lower(s[i..i + |w|]) == Lower(w)
  }

  /** `w` occurs at `i` with a `\b` on both sides. */
  predicate WholeWordAt(s: string, w: string, i: int) {
    OccursAt(s, w, i) && IsBoundary(s, i) && IsBoundary(s, i + |w|)
  }

  /** `w` occurs at `i` with a `\b` before it. */
  predicate WordStartAt(s: string, w: string, i: int) {
    OccursAt(s, w, i) && IsBoundary(s, i)
  }

  /** What `new RegExp('\\b' + escape(w) + '\\b', 'i').test(s)` answers. */
  predicate HasExactWord(s: string, w: string) {
    exists i :: 0 <= i <= |s| - |w| && WholeWordAt(s, w, i)
  }

  /** What `new RegExp('\\b' + escape(w), 'i').test(s)` answers. */
  predicate StartsWithQuery(s: string, w: string) {
    exists i :: 0 <= i <= |s| - |w| && WordStartAt(s, w, i)
  }

  /**
   The regular-expression engine's scan: it tries the start positions left to right
   and stops at the first one where the pattern matches. With `endBoundary` the pattern
   is `\bw\b`, otherwise `\bw`. The answer is the declarative matcher's.
   */
  method RegexTest(s: string, w: string, endBoundary: bool) returns (found: bool)
    ensures endBoundary ==> (found <==> HasExactWord(s, w))
    ensures !endBoundary ==> (found <==> StartsWithQuery(s, w))
  {
    var i := 0;
    while i <= |s| - |w|
      invariant 0 <= i
      invariant i <= |s| - |w| + 1 || i == 0
      invariant forall j :: 0 <= j < i ==>
        !(if endBoundary then WholeWordAt(s, w, j) else WordStartAt(s, w, j))
      decreases |s| - |w| - i
    {
      var ok := Lower(s[i..i + |w|]) == Lower(w) && IsBoundary(s, i)
                && (!endBoundary || IsBoundary(s, i + |w|));
      if ok {
        assert endBoundary ==> WholeWordAt(s, w, i);
        assert WordStartAt(s, w, i);
        return true;
      }
      i := i + 1;
    }
    return false;
  }

  /** A whole-word match is in particular a word-start match. */
  lemma ExactWordStartsWord(s: string, w: string)
    requires HasExactWord(s, w)
    ensures StartsWithQuery(s, w)
  {
    var i :| 0 <= i <= |s| - |w| && WholeWordAt(s, w, i);
    assert WordStartAt(s, w, i);
  }

  /** Both matchers ignore ASCII case in the text and in the token. */
  lemma MatchersIgnoreCase(s: string, w: string)
    ensures HasExactWord(Lower(s), Lower(w)) == HasExactWord(s, w)
    ensures StartsWithQuery(Lower(s), Lower(w)) == StartsWithQuery(s, w)
  {
    ExactWordIgnoresCase(s, w);
    WordStartIgnoresCase(s, w);
  }

  lemma ExactWordIgnoresCase(s: string, w: string)
    ensures HasExactWord(Lower(s), Lower(w)) == HasExactWord(s, w)
  {
    var ls, lw := Lower(s), Lower(w);
    if HasExactWord(s, w) {
      var i :| 0 <= i <= |s| - |w| && WholeWordAt(s, w, i);
      MatchAtIgnoresCase(s, w, i);
      assert WholeWordAt(ls, lw, i);
    }
    if HasExactWord(ls, lw) {
      var i :| 0 <= i <= |ls| - |lw| && WholeWordAt(ls, lw, i);
      MatchAtIgnoresCase(s, w, i);
      assert WholeWordAt(s, w, i);
    }
  }

  lemma WordStartIgnoresCase(s: string, w: string)
    ensures StartsWithQuery(Lower(s), Lower(w)) == StartsWithQuery(s, w)
  {
    var ls, lw := Lower(s), Lower(w);
    if StartsWithQuery(s, w) {
      var i :| 0 <= i <= |s| - |w| && WordStartAt(s, w, i);
      MatchAtIgnoresCase(s, w, i);
      assert WordStartAt(ls, lw, i);
    }
    if StartsWithQuery(ls, lw) {
      var i :| 0 <= i <= |ls| - |lw| && WordStartAt(ls, lw, i);
      MatchAtIgnoresCase(s, w, i);
      assert WordStartAt(s, w, i);
    }
  }

  lemma MatchAtIgnoresCase(s: string, w: string, i: int)
    requires 0 <= i <= |s| - |w|
    ensures WholeWordAt(Lower(s), Lower(w), i) == WholeWordAt(s, w, i)
    ensures WordStartAt(Lower(s), Lower(w), i) == WordStartAt(s, w, i)
  {
    LowerIdempotent(w);
    LowerSlice(s, i, i + |w|);
    LowerIdempotent(s[i..i + |w|]);
    BoundaryIgnoresCase(s, i);
    BoundaryIgnoresCase(s, i + |w|);
  }

  lemma BoundaryIgnoresCase(s: string, i: int)
    ensures IsBoundary(Lower(s), i) == IsBoundary(s, i)
  {
    if 0 <= i - 1 < |s| {
      LowerCharKeepsWordClass(s[i - 1]);
    }
    if 0 <= i < |s| {
      LowerCharKeepsWordClass(s[i]);
    }
  }

  // ---------------------------------------------------------------------------
  // String.prototype.trim
  // ---------------------------------------------------------------------------

  /**
   The WhiteSpace and LineTerminator code points that `trim` removes: tab, line feed,
   vertical tab, form feed, carriage return, the byte order mark, the line and paragraph
   separators, and the space separators of the Unicode `Zs` category.
   */
  predicate IsJsWhitespace(c: char) {
    || c == '\t' || c == '\n' || c == '\U{B}' || c == '\U{C}' || c == '\r'
    || c == ' ' || c == '\U{A0}' || c == '\U{1680}'
    || ('\U{2000}' <= c <= '\U{200A}')
    || c == '\U{2028}' || c == '\U{2029}' || c == '\U{202F}' || c == '\U{205F}'
    || c == '\U{3000}' || c == '\U{FEFF}'
  }

  predicate AllWhitespace(s: string) {
    forall i :: 0 <= i < |s| ==> IsJsWhitespace(s[i])
  }

  /** Drops the longest whitespace prefix. */
  function TrimStart(s: string): (r: string)
    ensures |r| <= |s| && r == s[|s| - |r|..]
    ensures AllWhitespace(s[..|s| - |r|])
    ensures r == [] || !IsJsWhitespace(r[0])
    decreases |s|
  {
    if |s| > 0 && IsJsWhitespace(s[0]) then
      var r := TrimStart(s[1..]);
      assert s[1..][..|s| - 1 - |r|] == s[1..|s| - |r|];
      r
    else s
  }

  /** Drops the longest whitespace suffix. */
  function TrimEnd(s: string): (r: string)
    ensures |r| <= |s| && r == s[..|r|]
    ensures AllWhitespace(s[|r|..])
    ensures r == [] || !IsJsWhitespace(r[|r| - 1])
    decreases |s|
  {
    if |s| > 0 && IsJsWhitespace(s[|s| - 1]) then
      var r := TrimEnd(s[..|s| - 1]);
      assert s[..|s| - 1][|r|..] + [s[|s| - 1]] == s[|r|..];
      r
    else s
  }

  /** `r` sits at offset `a` of `s` with only whitespace before and after it. */
  predicate Padded(s: string, a: int, r: string) {
    && 0 <= a <= |s| - |r|
    && r == s[a..a + |r|]
    && AllWhitespace(s[..a])
    && AllWhitespace(s[a + |r|..])
  }

  /**
   `s.trim()`: the slice of `s` left after removing the leading and trailing whitespace;
   it is empty exactly when `s` is all whitespace, and otherwise starts and ends with a
   non-whitespace character.
   */
  function Trim(s: string): (r: string)
    ensures |r| <= |s|
    ensures exists a :: Padded(s, a, r)
    ensures r == [] || (!IsJsWhitespace(r[0]) && !IsJsWhitespace(r[|r| - 1]))
    ensures r == [] <==> AllWhitespace(s)
  {
    var t := TrimStart(s);
    var r := TrimEnd(t);
    TrimSlices(s, t, r);
    r
  }

  /** `s` neither starts nor ends with whitespace. */
  predicate Unpadded(s: string) {
    s == [] || (!IsJsWhitespace(s[0]) && !IsJsWhitespace(s[|s| - 1]))
  }

  /**
   `r` is `s` with its surrounding whitespace removed: a slice of `s` with only
   whitespace around it that neither starts nor ends with whitespace.
   */
  ghost predicate TrimmedFrom(s: string, r: string) {
    && (exists a :: Padded(s, a, r))
    && Unpadded(r)
  }

  lemma TrimIsTrimmed(s: string)
    ensures TrimmedFrom(s, Trim(s))
  {
  }

  /** Trimming only removes characters: a character absent from `s` is absent from its trim. */
  lemma TrimKeepsOut(s: string, c: char)
    requires c !in s
    ensures c !in Trim(s)
  {
    var r := Trim(s);
    var a :| Padded(s, a, r);
    assert forall j :: 0 <= j < |r| ==> r[j] == s[a + j];
  }

  /** A string that neither starts nor ends with whitespace is its own only trim. */
  lemma TrimmedFromItself(s: string, r: string)
    requires Unpadded(s)
    requires TrimmedFrom(s, r)
    ensures r == s
  {
    var a :| Padded(s, a, r);
    if s != [] {
      assert !AllWhitespace(s[..1]);
    }
  }

  /** Pieces that are already trimmed are their own only trims, piece by piece. */
  lemma TrimmedEach(parts: seq<string>, r: seq<string>)
    requires |r| == |parts|
    requires forall i :: 0 <= i < |parts| ==> Unpadded(parts[i])
    requires forall i :: 0 <= i < |r| ==> TrimmedFrom(parts[i], r[i])
    ensures r == parts
  {
    forall i | 0 <= i < |r|
      ensures r[i] == parts[i]
    {
      TrimmedFromItself(parts[i], r[i]);
    }
  }

  lemma TrimSlices(s: string, t: string, r: string)
    requires |t| <= |s| && t == s[|s| - |t|..] && AllWhitespace(s[..|s| - |t|])
    requires t == [] || !IsJsWhitespace(t[0])
    requires |r| <= |t| && r == t[..|r|] && AllWhitespace(t[|r|..])
    requires r == [] || !IsJsWhitespace(r[|r| - 1])
    ensures Padded(s, |s| - |t|, r)
    ensures r == [] || !IsJsWhitespace(r[0])
    ensures r == [] <==> AllWhitespace(s)
  {
    var a := |s| - |t|;
    assert s[a + |r|..] == t[|r|..];
    if r == [] {
      assert s == s[..a] + t[|r|..];
    } else {
      assert r[0] == t[0];
      assert !IsJsWhitespace(s[a]);
    }
  }

  // ---------------------------------------------------------------------------
  // String.prototype.split with a one-character separator, and its inverse
  // ---------------------------------------------------------------------------

  /** `parts.join(sep)`. */
  function Join(parts: seq<string>, sep: char): string
    decreases |parts|
  {
    if |parts| == 0 then []
    else if |parts| == 1 then parts[0]
    else parts[0] + [sep] + Join(parts[1..], sep)
  }

  /**
   Position of the first `x` in `s`, or `|s|` when there is none: `indexOf` with the
   length standing for its `-1`.
   */
  function FirstIndex<T(==)>(s: seq<T>, x: T): (k: nat)
    ensures k <= |s|
    ensures forall j :: 0 <= j < k && j < |s| ==> s[j] != x
    ensures k < |s| <==> x in s
    ensures k < |s| ==> s[k] == x
    decreases |s|
  {
    if |s| == 0 then 0
    else if s[0] == x then 0
    else FirstIndex(s[1..], x) + 1
  }

  /** The first index is the only position holding `x` with no `x` before it. */
  lemma FirstIndexUnique<T>(s: seq<T>, x: T, k: nat)
    requires k < |s| && s[k] == x && x !in s[..k]
    ensures FirstIndex(s, x) == k
  {
  }

  lemma FirstIndexInPrefix<T>(s: seq<T>, n: nat, x: T)
    requires n <= |s| && x in s[..n]
    ensures FirstIndex(s, x) == FirstIndex(s[..n], x)
  {
    var b := FirstIndex(s[..n], x);
    assert s[..n][..b] == s[..b];
    assert s[..n][b] == s[b];
    FirstIndexUnique(s, x, b);
  }

  /**
   `s.split(sep)`: never empty (`"".split(sep)` is `[""]`), no piece contains the
   separator, and joining the pieces back with the separator gives `s` again.
   */
  function Split(s: string, sep: char): (parts: seq<string>)
    ensures |parts| >= 1
    ensures forall i :: 0 <= i < |parts| ==> sep !in parts[i]
    ensures Join(parts, sep) == s
    decreases |s|
  {
    if sep !in s then [s]
    else
      var k := FirstIndex(s, sep);
      assert sep !in s[..k];
      var rest := Split(s[k + 1..], sep);
      assert s == s[..k] + [sep] + s[k + 1..];
      [s[..k]] + rest
  }

  /** The other half of the round trip: splitting a join gives the pieces back. */
  lemma {:induction false} SplitJoin(parts: seq<string>, sep: char)
    requires |parts| >= 1
    requires forall i :: 0 <= i < |parts| ==> sep !in parts[i]
    ensures Split(Join(parts, sep), sep) == parts
    decreases |parts|
  {
    if |parts| > 1 {
      var head, rest := parts[0], parts[1..];
      var tail := Join(rest, sep);
      assert Join(parts, sep) == head + [sep] + tail;
      SplitCons(head, sep, tail);
      assert forall i :: 0 <= i < |rest| ==> rest[i] == parts[i + 1];
      SplitJoin(rest, sep);
      assert parts == [head] + rest;
    }
  }

  /** Splitting at the first separator: the piece before it, then the split of the rest. */
  lemma SplitCons(head: string, sep: char, tail: string)
    requires sep !in head
    ensures Split(head + [sep] + tail, sep) == [head] + Split(tail, sep)
  {
    var s := head + [sep] + tail;
    assert s[|head|] == sep;
    FirstIndexUnique(s, sep, |head|);
    assert s[..|head|] == head;
    assert s[|head| + 1..] == tail;
  }

  // ---------------------------------------------------------------------------
  // Helpers on pieces
  // ---------------------------------------------------------------------------

  /** `b` contains the elements of `a` in the same order, possibly with others between. */
  predicate IsSubsequence<T(==)>(a: seq<T>, b: seq<T>)
    decreases |b|
  {
    && |a| <= |b|
    && (|| |a| == 0
        || (a[0] == b[0] && IsSubsequence(a[1..], b[1..]))
        || IsSubsequence(a, b[1..]))
  }

  /**
   `pieces.filter(w => w.length > 0)`: the non-empty pieces, each as often as it occurs,
   in their order.
   */
  function NonEmpty(pieces: seq<string>): (r: seq<string>)
    ensures forall i :: 0 <= i < |r| ==> |r[i]| > 0
    ensures forall i :: 0 <= i < |pieces| && |pieces[i]| > 0 ==> pieces[i] in r
    ensures IsSubsequence(r, pieces)
    decreases |pieces|
  {
    if |pieces| == 0 then []
    else
      var rest := NonEmpty(pieces[1..]);
      if |pieces[0]| == 0 then
        assert IsSubsequence(rest, pieces[1..]);
        rest
      else
        assert ([pieces[0]] + rest)[1..] == rest;
        [pieces[0]] + rest
  }

  /** Each non-empty piece is kept as often as it occurs. */
  lemma NonEmptyCounts(pieces: seq<string>)
    ensures forall x :: |x| > 0 ==> multiset(NonEmpty(pieces))[x] == multiset(pieces)[x]
  {
    forall x | |x| > 0
      ensures multiset(NonEmpty(pieces))[x] == multiset(pieces)[x]
    {
      NonEmptyCount(pieces, x);
    }
  }

  lemma {:induction false} NonEmptyCount(pieces: seq<string>, x: string)
    requires |x| > 0
    ensures multiset(NonEmpty(pieces))[x] == multiset(pieces)[x]
    decreases |pieces|
  {
    if |pieces| > 0 {
      NonEmptyCount(pieces[1..], x);
      var rest := NonEmpty(pieces[1..]);
      assert pieces == [pieces[0]] + pieces[1..];
      if |pieces[0]| > 0 {
        assert NonEmpty(pieces) == [pieces[0]] + rest;
      } else {
        assert NonEmpty(pieces) == rest;
      }
    }
  }

  /** Every kept piece is one of the pieces. */
  lemma NonEmptyFrom(pieces: seq<string>)
    ensures forall i :: 0 <= i < |NonEmpty(pieces)| ==> NonEmpty(pieces)[i] in pieces
  {
    var r := NonEmpty(pieces);
    NonEmptyCounts(pieces);
    forall i | 0 <= i < |r|
      ensures r[i] in pieces
    {
      assert r[i] in multiset(r);
    }
  }

  /**
   `parts` are the pieces of `s` between the occurrences of `sep`: none holds the
   separator and they join back to `s`.
   */
  predicate CutsInto(s: string, sep: char, parts: seq<string>) {
    && |parts| >= 1
    && (forall i :: 0 <= i < |parts| ==> sep !in parts[i])
    && Join(parts, sep) == s
  }

  /** A string is cut into separator-free pieces in exactly one way, the split. */
  lemma CutsAreSplit(s: string, sep: char, parts: seq<string>)
    requires CutsInto(s, sep, parts)
    ensures parts == Split(s, sep)
  {
    SplitJoin(parts, sep);
  }

  /** Plain concatenation of the pieces. */
  function Concat(pieces: seq<string>): string
    decreases |pieces|
  {
    if |pieces| == 0 then [] else pieces[0] + Concat(pieces[1..])
  }

  /** `s` with every occurrence of `c` removed. */
  function Without(s: string, c: char): (r: string)
    ensures c !in r
    decreases |s|
  {
    if |s| == 0 then []
    else if s[0] == c then Without(s[1..], c)
    else [s[0]] + Without(s[1..], c)
  }

  lemma {:induction false} WithoutAppend(a: string, b: string, c: char)
    ensures Without(a + b, c) == Without(a, c) + Without(b, c)
    decreases |a|
  {
    if |a| == 0 {
      assert a + b == b;
    } else {
      assert (a + b)[1..] == a[1..] + b;
      WithoutAppend(a[1..], b, c);
    }
  }

  lemma {:induction false} WithoutAbsent(s: string, c: char)
    requires c !in s
    ensures Without(s, c) == s
    decreases |s|
  {
    if |s| > 0 {
      WithoutAbsent(s[1..], c);
    }
  }

  lemma WithoutSeparator(c: char)
    ensures Without([c], c) == []
  {
    assert [c][1..] == [];
  }

  /** Removing the separator from a join leaves the concatenation of the pieces. */
  lemma {:induction false} WithoutJoin(parts: seq<string>, sep: char)
    requires forall i :: 0 <= i < |parts| ==> sep !in parts[i]
    ensures Without(Join(parts, sep), sep) == Concat(parts)
    decreases |parts|
  {
    if |parts| == 0 {
    } else if |parts| == 1 {
      WithoutAbsent(parts[0], sep);
      assert Concat(parts[1..]) == [];
    } else {
      var head, rest := parts[0], parts[1..];
      var tail := Join(rest, sep);
      assert Join(parts, sep) == (head + [sep]) + tail;
      assert Concat(parts) == head + Concat(rest);
      assert forall i :: 0 <= i < |rest| ==> rest[i] == parts[i + 1];
      WithoutJoin(rest, sep);
      WithoutAppend(head + [sep], tail, sep);
      WithoutAppend(head, [sep], sep);
      WithoutAbsent(head, sep);
      WithoutSeparator(sep);
    }
  }

  /** Dropping empty pieces does not change their concatenation. */
  lemma {:induction false} ConcatNonEmpty(pieces: seq<string>)
    ensures Concat(NonEmpty(pieces)) == Concat(pieces)
    decreases |pieces|
  {
    if |pieces| > 0 {
      ConcatNonEmpty(pieces[1..]);
      if |pieces[0]| > 0 {
        assert NonEmpty(pieces) == [pieces[0]] + NonEmpty(pieces[1..]);
        assert ([pieces[0]] + NonEmpty(pieces[1..]))[1..] == NonEmpty(pieces[1..]);
      }
    }
  }
}
