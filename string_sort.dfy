/**
 * The default `Array.prototype.sort` of JavaScript on strings (ascending
 * code-unit order, stable) and `Array.prototype.reverse`, as pure functions
 * on sequences, with the facts the statistics hook relies on.
 */
module StringSort {
  import opened Text

  /** Ascending: no later element is below an earlier one. */
  predicate Ascending(xs: seq<string>)
  {
    forall i, j :: 0 <= i < j < |xs| ==> !LexLess(xs[j], xs[i])
  }

  /** Strictly descending: every later element is below every earlier one. */
  predicate StrictlyDescending(xs: seq<string>)
  {
    forall i, j :: 0 <= i < j < |xs| ==> LexLess(xs[j], xs[i])
  }

  predicate NoDuplicates(xs: seq<string>)
  {
    forall i, j :: 0 <= i < j < |xs| ==> xs[i] != xs[j]
  }

  /** Insert `x` into the ascending `xs`, after the elements it is not below. */
  function Insert(x: string, xs: seq<string>): (r: seq<string>)
    ensures multiset(r) == multiset(xs) + multiset{x}
  {
    if xs == [] then [x]
    else if LexLess(x, xs[0]) then [x] + xs
    else
      assert xs == [xs[0]] + xs[1..];
      [xs[0]] + Insert(x, xs[1..])
  }

  lemma {:induction false} InsertSpec(x: string, xs: seq<string>)
    requires Ascending(xs)
    ensures Ascending(Insert(x, xs))
    ensures multiset(Insert(x, xs)) == multiset(xs) + multiset{x}
  {
    if xs == [] {
    } else if LexLess(x, xs[0]) {
      var r := [x] + xs;
      forall i, j | 0 <= i < j < |r|
        ensures !LexLess(r[j], r[i])
      {
        if i == 0 {
          if LexLess(r[j], x) {
            LexLessTransitive(r[j], x, xs[0]);
            if j == 1 {
              LexLessIrreflexive(xs[0]);
            }
          }
        }
      }
    } else {
      InsertSpec(x, xs[1..]);
      var rest := Insert(x, xs[1..]);
      var r := [xs[0]] + rest;
      assert xs == [xs[0]] + xs[1..];
      forall i, j | 0 <= i < j < |r|
        ensures !LexLess(r[j], r[i])
      {
        if i == 0 {
          assert r[j] in multiset(rest);
          if r[j] == x {
          } else {
            assert r[j] in xs[1..];
          }
        }
      }
    }
  }

  /** `Array.prototype.sort()` on strings: insertion sort, element by element. */
  function Sort(xs: seq<string>): (r: seq<string>)
    ensures multiset(r) == multiset(xs)
  {
    if xs == [] then []
    else
      assert xs == xs[..|xs| - 1] + [xs[|xs| - 1]];
      Insert(xs[|xs| - 1], Sort(xs[..|xs| - 1]))
  }

  /** The sort returns the same elements, in ascending order. */
  lemma {:induction false} SortSpec(xs: seq<string>)
    ensures Ascending(Sort(xs))
    ensures multiset(Sort(xs)) == multiset(xs)
    decreases |xs|
  {
    if xs != [] {
      var n := |xs| - 1;
      SortSpec(xs[..n]);
      InsertSpec(xs[n], Sort(xs[..n]));
      assert xs == xs[..n] + [xs[n]];
    }
  }

  /** `Array.prototype.reverse()`. */
  function Reverse(xs: seq<string>): (r: seq<string>)
    ensures |r| == |xs|
    ensures forall i :: 0 <= i < |xs| ==> r[i] == xs[|xs| - 1 - i]
  {
    if xs == [] then [] else [xs[|xs| - 1]] + Reverse(xs[..|xs| - 1])
  }

  /**
   * Sorting distinct strings and reversing the result lists the same strings,
   * each once, from the greatest down.
   */
  lemma SortReverseDistinct(xs: seq<string>)
    requires NoDuplicates(xs)
    ensures var r := Reverse(Sort(xs));
      && StrictlyDescending(r)
      && NoDuplicates(r)
      && multiset(r) == multiset(xs)
      && (forall y :: y in r <==> y in xs)
  {
    var s := Sort(xs);
    var r := Reverse(s);
    SortSpec(xs);
    ReverseMultiset(s);
    DistinctMultiset(xs, r);
    DistinctMultiset(xs, s);
    AscendingReversed(s);
    forall y
      ensures y in r <==> y in xs
    {
      assert y in r <==> y in multiset(r);
      assert y in xs <==> y in multiset(xs);
    }
  }

  /** Reversing an ascending duplicate-free sequence gives a strictly descending one. */
  lemma AscendingReversed(s: seq<string>)
    requires Ascending(s) && NoDuplicates(s)
    ensures StrictlyDescending(Reverse(s))
  {
    var r := Reverse(s);
    forall i, j | 0 <= i < j < |r|
      ensures LexLess(r[j], r[i])
    {
      var a, b := |s| - 1 - j, |s| - 1 - i;
      assert r[j] == s[a] && r[i] == s[b];
      LexLessTotal(s[a], s[b]);
    }
  }

  /** A sequence with the same elements as a duplicate-free one is itself duplicate-free. */
  lemma {:induction false} DistinctMultiset(xs: seq<string>, ys: seq<string>)
    requires NoDuplicates(xs)
    requires multiset(ys) == multiset(xs)
    ensures NoDuplicates(ys)
  {
    forall i, j | 0 <= i < j < |ys|
      ensures ys[i] != ys[j]
    {
      if ys[i] == ys[j] {
        assert ys == ys[..i] + [ys[i]] + ys[i + 1..j] + [ys[j]] + ys[j + 1..];
        assert multiset(ys)[ys[i]] >= 2;
        AtMostOnce(xs, ys[i]);
      }
    }
  }

  lemma {:induction false} AtMostOnce(xs: seq<string>, y: string)
    requires NoDuplicates(xs)
    ensures multiset(xs)[y] <= 1
    decreases |xs|
  {
    if xs != [] {
      var n := |xs| - 1;
      assert xs == xs[..n] + [xs[n]];
      AtMostOnce(xs[..n], y);
      if xs[n] == y {
        assert y !in xs[..n];
      }
    }
  }

  lemma {:induction false} ReverseMultiset(xs: seq<string>)
    ensures multiset(Reverse(xs)) == multiset(xs)
    decreases |xs|
  {
    if xs != [] {
      var n := |xs| - 1;
      ReverseMultiset(xs[..n]);
      assert xs == xs[..n] + [xs[n]];
    }
  }
}
