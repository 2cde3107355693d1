/**
 * `Array.prototype.sort()` without a comparator, applied to an array of
 * strings: the elements end up in ascending order of their UTF-16 code units,
 * and nothing is added or removed (duplicates stay).
 *
 * `Sort` is one definition of that result (an insertion sort). Because equal
 * strings are identical, a sorted permutation is unique
 * (`SortedPermutationIsSort`), so whichever algorithm the engine uses, its
 * result is `Sort` of the input.
 */
module ArraySort {
  import opened JsText

  /** Lexicographic order on code-unit sequences, a proper prefix first. */
  predicate LexLessEq(a: seq<int>, b: seq<int>) {
    a == [] || (b != [] && (a[0] < b[0] || (a[0] == b[0] && LexLessEq(a[1..], b[1..]))))
  }

  lemma {:induction false} LexTotal(a: seq<int>, b: seq<int>)
    ensures LexLessEq(a, b) || LexLessEq(b, a)
  {
    if a != [] && b != [] && a[0] == b[0] {
      LexTotal(a[1..], b[1..]);
    }
  }

  lemma {:induction false} LexTransitive(a: seq<int>, b: seq<int>, c: seq<int>)
    requires LexLessEq(a, b) && LexLessEq(b, c)
    ensures LexLessEq(a, c)
  {
    if a != [] && a[0] == b[0] && b[0] == c[0] {
      LexTransitive(a[1..], b[1..], c[1..]);
    }
  }

  lemma {:induction false} LexAntisymmetric(a: seq<int>, b: seq<int>)
    requires LexLessEq(a, b) && LexLessEq(b, a)
    ensures a == b
  {
    if a != [] {
      LexAntisymmetric(a[1..], b[1..]);
      assert a == [a[0]] + a[1..] && b == [b[0]] + b[1..];
    }
  }

  /** `a` sorts no later than `b`: the default comparison of `Array.prototype.sort`. */
  predicate LessEq(a: string, b: string) {
    LexLessEq(Units(a), Units(b))
  }

  /** The default string order is a total order. */
  lemma {:induction false} LessEqTotalOrder(a: string, b: string, c: string)
    ensures LessEq(a, b) || LessEq(b, a)
    ensures LessEq(a, b) && LessEq(b, c) ==> LessEq(a, c)
    ensures LessEq(a, b) && LessEq(b, a) ==> a == b
  {
    LexTotal(Units(a), Units(b));
    if LessEq(a, b) && LessEq(b, c) {
      LexTransitive(Units(a), Units(b), Units(c));
    }
    if LessEq(a, b) && LessEq(b, a) {
      LexAntisymmetric(Units(a), Units(b));
      UnitsInjective(a, b);
    }
  }

  predicate Sorted(s: seq<string>) {
    forall i, j :: 0 <= i < j < |s| ==> LessEq(s[i], s[j])
  }

  /** Places `x` in front of the first element it does not sort after. */
  function Insert(x: string, s: seq<string>): (r: seq<string>)
    ensures multiset(r) == multiset(s) + multiset{x}
    ensures Sorted(s) ==> Sorted(r)
  {
    if s == [] then [x]
    else if LessEq(x, s[0]) then
      InsertInFront(x, s);
      [x] + s
    else
      var r := [s[0]] + Insert(x, s[1..]);
      assert s == [s[0]] + s[1..];
      assert Sorted(s) ==> Sorted(r) by {
        if Sorted(s) {
          LessEqTotalOrder(x, s[0], s[0]);
          forall y | y in Insert(x, s[1..]) ensures LessEq(s[0], y) {
            assert y in multiset(Insert(x, s[1..]));
            assert y == x || y in s[1..];
          }
          SortedCons(s[0], Insert(x, s[1..]));
        }
      }
      r
  }

  lemma {:induction false} InsertInFront(x: string, s: seq<string>)
    requires s != [] && LessEq(x, s[0])
    ensures Sorted(s) ==> Sorted([x] + s)
  {
    if Sorted(s) {
      forall y | y in s ensures LessEq(x, y) {
        var j :| 0 <= j < |s| && s[j] == y;
        LessEqTotalOrder(x, s[0], y);
      }
      SortedCons(x, s);
    }
  }

  lemma {:induction false} SortedCons(a: string, t: seq<string>)
    requires Sorted(t)
    requires forall y :: y in t ==> LessEq(a, y)
    ensures Sorted([a] + t)
  {
    forall i, j | 0 <= i < j < |t| + 1 ensures LessEq(([a] + t)[i], ([a] + t)[j]) {
      if i == 0 {
        assert ([a] + t)[j] == t[j - 1];
      }
    }
  }

  /** The array after `sort()`: its elements in ascending code-unit order. */
  function Sort(s: seq<string>): (r: seq<string>)
    ensures Sorted(r)
    ensures multiset(r) == multiset(s)
    ensures |r| == |s|
  {
    if s == [] then []
    else
      assert s == [s[0]] + s[1..];
      Insert(s[0], Sort(s[1..]))
  }

  /** The first element of a sorted array sorts no later than any element of it. */
  lemma {:induction false} SortedHeadLeast(a: seq<string>, y: string)
    requires Sorted(a) && y in a
    ensures LessEq(a[0], y)
  {
    var i :| 0 <= i < |a| && a[i] == y;
    if i == 0 {
      LessEqTotalOrder(y, y, y);
    }
  }

  /** Two sorted arrays holding the same elements, counted with multiplicity, are equal. */
  lemma {:induction false} SortedUnique(a: seq<string>, b: seq<string>)
    requires Sorted(a) && Sorted(b)
    requires multiset(a) == multiset(b)
    ensures a == b
  {
    if a == [] {
      assert |b| == |multiset(b)| == 0;
    } else {
      assert a[0] in multiset(b) && b[0] in multiset(a);
      SortedHeadLeast(a, b[0]);
      SortedHeadLeast(b, a[0]);
      LessEqTotalOrder(a[0], b[0], b[0]);
      assert a == [a[0]] + a[1..] && b == [b[0]] + b[1..];
      assert multiset(a[1..]) == multiset(a) - multiset{a[0]};
      assert multiset(b[1..]) == multiset(b) - multiset{b[0]};
      SortedUnique(a[1..], b[1..]);
    }
  }

  /**
   * Whatever algorithm sorts the array, the result is `Sort` of it; in
   * particular the result depends only on which strings were collected and
   * how often, not on the order they were collected in.
   */
  lemma {:induction false} SortedPermutationIsSort(s: seq<string>, r: seq<string>)
    requires Sorted(r) && multiset(r) == multiset(s)
    ensures r == Sort(s)
  {
    SortedUnique(r, Sort(s));
  }

  /** Sorting forgets the order of the input: same contents, same result, and conversely. */
  lemma {:induction false} SortSameContents(s: seq<string>, t: seq<string>)
    ensures Sort(s) == Sort(t) <==> multiset(s) == multiset(t)
  {
    if multiset(s) == multiset(t) {
      SortedUnique(Sort(s), Sort(t));
    }
  }
}
