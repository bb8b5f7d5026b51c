/**
 * StringUtils::FindIgnoreCase, for `Char` and for `char` strings alike: the
 * leftmost position where `toFind` occurs in `str` ignoring case.
 *
 * A C string is its characters up to the terminating NUL, so a string is a
 * sequence without `nul` here and reading at its length gives `nul`.
 * ToUpper is the parameter `upper`; CompareIgnoreCase compares the
 * `upper` images of its two arguments.
 */
module Search {
  import opened Options

  /** The character at `k` of a C string: past the end it is the terminator. */
  function At<T>(s: seq<T>, k: int, nul: T): T {
    if 0 <= k < |s| then s[k] else nul
  }

  predicate NoNul<T(==)>(s: seq<T>, nul: T) {
    forall k | 0 <= k < |s| :: s[k] != nul
  }

  /** ToUpper maps the terminator, and only the terminator, to itself. */
  ghost predicate KeepsNul<T(!new)>(upper: T -> T, nul: T) {
    forall c :: upper(c) == nul <==> c == nul
  }

  /** No character of `s` folds to the terminator. */
  predicate NoFoldedNul<T(==)>(s: seq<T>, upper: T -> T, nul: T) {
    forall k | 0 <= k < |s| :: upper(s[k]) != nul
  }

  /** What KeepsNul gives for the characters of one string. */
  lemma FoldedNul<T(!new)>(s: seq<T>, upper: T -> T, nul: T)
    requires KeepsNul(upper, nul) && NoNul(s, nul)
    ensures upper(nul) == nul && NoFoldedNul(s, upper, nul)
  {
  }

  /** CompareIgnoreCase(a + from, b, length) == 0: the first `length`
      characters agree once passed through `upper`. */
  predicate EqualIgnoreCase<T(==)>(a: seq<T>, from: int, b: seq<T>, length: int, upper: T -> T, nul: T) {
    forall k | 0 <= k < length :: upper(At(a, from + k, nul)) == upper(At(b, k, nul))
  }

  /** `toFind` occurs at `i` in `str` ignoring case. */
  predicate MatchesAt<T(==)>(str: seq<T>, toFind: seq<T>, i: int, upper: T -> T) {
    |toFind| > 0 && 0 <= i && i + |toFind| <= |str|
    && forall k | 0 <= k < |toFind| :: upper(str[i + k]) == upper(toFind[k])
  }

  /** A comparison that runs past the end of `str` meets its terminator,
      which no character of `b` folds to, so it fails. */
  lemma RunsOut<T(!new)>(str: seq<T>, b: seq<T>, from: nat, upper: T -> T, nul: T)
    requires upper(nul) == nul && NoFoldedNul(b, upper, nul)
    requires from <= |str| < from + |b|
    ensures !EqualIgnoreCase(str, from, b, |b|, upper, nul)
  {
    var k := |str| - from;
    assert At(str, from + k, nul) == nul && upper(nul) == nul;
    assert upper(At(b, k, nul)) != nul;
  }

  /** The find string after its initial; empty when there is no initial. */
  function Rest<T>(toFind: seq<T>): seq<T> {
    if |toFind| > 0 then toFind[1..] else []
  }

  /** The scan's test at `i`: the case-folded first letter, then the rest of
      the find string, agree exactly where `toFind` matches. */
  lemma TestAt<T(!new)>(str: seq<T>, toFind: seq<T>, i: nat, upper: T -> T, nul: T)
    requires upper(nul) == nul && NoFoldedNul(str, upper, nul) && NoFoldedNul(toFind, upper, nul)
    requires i < |str|
    ensures (upper(str[i]) == upper(At(toFind, 0, nul)) && EqualIgnoreCase(str, i + 1, Rest(toFind), |toFind| - 1, upper, nul))
        <==> MatchesAt(str, toFind, i, upper)
  {
    if |toFind| == 0 {
      assert upper(str[i]) != upper(At(toFind, 0, nul));
      return;
    }
    var rest := Rest(toFind);
    if i + |toFind| > |str| {
      RunsOut(str, rest, i + 1, upper, nul);
    }
    if upper(str[i]) == upper(toFind[0]) && EqualIgnoreCase(str, i + 1, rest, |toFind| - 1, upper, nul) {
      forall k | 0 <= k < |toFind| ensures upper(str[i + k]) == upper(toFind[k]) {
        if k > 0 {
          assert upper(At(str, i + 1 + (k - 1), nul)) == upper(At(rest, k - 1, nul));
        }
      }
    }
    if MatchesAt(str, toFind, i, upper) {
      forall k | 0 <= k < |toFind| - 1
        ensures upper(At(str, i + 1 + k, nul)) == upper(At(rest, k, nul))
      {
        assert str[i + (k + 1)] == At(str, i + 1 + k, nul);
      }
    }
  }

  /**
   * The scan of lines 27-54 over two non-null strings: it stops at the first
   * `i` whose case-folded character is the case-folded initial of `toFind`
   * and whose following characters agree with the rest of `toFind`.
   */
  method Scan<T(==,!new)>(s: seq<T>, f: seq<T>, upper: T -> T, nul: T) returns (r: Option<nat>)
    requires upper(nul) == nul && NoNul(s, nul) && NoFoldedNul(s, upper, nul) && NoFoldedNul(f, upper, nul)
    ensures r.Some? ==> MatchesAt(s, f, r.value, upper)
    ensures r.Some? ==> forall j | 0 <= j < r.value :: !MatchesAt(s, f, j, upper)
    ensures r.None? ==> forall j | 0 <= j < |s| :: !MatchesAt(s, f, j, upper)
  {
    var findInitial := upper(At(f, 0, nul));
    var length := |f| - 1;
    var rest := Rest(f);
    var i := 0;
    var strChar := At(s, i, nul);
    while strChar != nul
      invariant 0 <= i <= |s| && strChar == At(s, i, nul)
      invariant forall j | 0 <= j < i :: !MatchesAt(s, f, j, upper)
      decreases |s| - i
    {
      strChar := upper(strChar);
      TestAt(s, f, i, upper, nul);
      var found := strChar == findInitial && EqualIgnoreCase(s, i + 1, rest, length, upper, nul);
      if found {
        return Some(i);
      }
      i := i + 1;
      strChar := At(s, i, nul);
    }
    return None;
  }

  /**
   * Lines 19-55 and 57-93. `None` is the null pointer, and a found position
   * is the index in `str` of the returned pointer. An empty `toFind` is never
   * found: its initial is the terminator, which no case-folded character of
   * `str` equals.
   */
  method FindIgnoreCase<T(==,!new)>(str: Option<seq<T>>, toFind: Option<seq<T>>, upper: T -> T, nul: T)
    returns (r: Option<nat>)
    requires KeepsNul(upper, nul)
    requires str.Some? ==> NoNul(str.value, nul)
    requires toFind.Some? ==> NoNul(toFind.value, nul)
    ensures str.None? || toFind.None? ==> r.None?
    ensures str.Some? && toFind.Some? ==>
      (r.Some? <==> exists i | 0 <= i < |str.value| :: MatchesAt(str.value, toFind.value, i, upper))
    ensures r.Some? ==> str.Some? && toFind.Some? && MatchesAt(str.value, toFind.value, r.value, upper)
    ensures r.Some? ==> forall j | 0 <= j < r.value :: !MatchesAt(str.value, toFind.value, j, upper)
  {
    if toFind.None? || str.None? {
      return None;
    }
    FoldedNul(str.value, upper, nul);
    FoldedNul(toFind.value, upper, nul);
    r := Scan(str.value, toFind.value, upper, nul);
    if r.Some? {
      assert r.value < |str.value|;
    }
  }
}
