/** Lists of strings used as sets: duplicate-freedom, the elements of a
    list, and the "add unless already there" fold that both a JavaScript
    `Set` filled by `add` and an array grown by `includes`/`push` perform. */
module StringLists {

  predicate Distinct(s: seq<string>)
  {
    forall i, j :: 0 <= i < j < |s| ==> s[i] != s[j]
  }

  function Elements(s: seq<string>): set<string>
  {
    set x | x in s
  }

  /** Adds each of `xs`, in order, to the end of `acc` unless it is there. */
  function AppendNew(acc: seq<string>, xs: seq<string>): seq<string>
    decreases |xs|
  {
    if xs == [] then acc
    else AppendNew(if xs[0] in acc then acc else acc + [xs[0]], xs[1..])
  }

  lemma ElementsAppend(s: seq<string>, x: string)
    ensures Elements(s + [x]) == Elements(s) + {x}
  {
  }

  lemma DistinctAppend(s: seq<string>, x: string)
    requires Distinct(s) && x !in s
    ensures Distinct(s + [x])
  {
  }

  /** Starting from a duplicate-free list, the fold keeps it duplicate-free,
      keeps it as a prefix, and ends with exactly the elements of both. */
  lemma {:induction false} AppendNewFacts(acc: seq<string>, xs: seq<string>)
    requires Distinct(acc)
    ensures Distinct(AppendNew(acc, xs))
    ensures Elements(AppendNew(acc, xs)) == Elements(acc) + Elements(xs)
    ensures |acc| <= |AppendNew(acc, xs)| && AppendNew(acc, xs)[..|acc|] == acc
    decreases |xs|
  {
    if xs != [] {
      var next := if xs[0] in acc then acc else acc + [xs[0]];
      if xs[0] !in acc {
        DistinctAppend(acc, xs[0]);
      }
      ElementsAppend(acc, xs[0]);
      AppendNewFacts(next, xs[1..]);
      assert xs == [xs[0]] + xs[1..];
      assert Elements(xs) == {xs[0]} + Elements(xs[1..]);
      assert AppendNew(acc, xs)[..|next|][..|acc|] == acc;
    }
  }

  /** Folding over two lists one after the other is folding over both. */
  lemma {:induction false} AppendNewConcat(acc: seq<string>, a: seq<string>, b: seq<string>)
    ensures AppendNew(acc, a + b) == AppendNew(AppendNew(acc, a), b)
    decreases |a|
  {
    if a != [] {
      assert (a + b)[0] == a[0] && (a + b)[1..] == a[1..] + b;
      AppendNewConcat(if a[0] in acc then acc else acc + [a[0]], a[1..], b);
    } else {
      assert a + b == b;
    }
  }

  /** Adds each of `xs` in turn unless the list already holds it: a `Set`
      filled by `add`, or an array grown by `push` behind an `includes`
      test. */
  method AddMissing(acc: seq<string>, xs: seq<string>) returns (result: seq<string>)
    ensures result == AppendNew(acc, xs)
  {
    result := acc;
    var k := 0;
    while k < |xs|
      invariant k <= |xs|
      invariant result == AppendNew(acc, xs[..k])
    {
      AppendNewConcat(acc, xs[..k], [xs[k]]);
      assert xs[..k + 1] == xs[..k] + [xs[k]];
      if xs[k] !in result {
        result := result + [xs[k]];
      }
      k := k + 1;
    }
    assert xs[..k] == xs;
  }

  /** A list is duplicate-free exactly when it holds each value at most
      once. */
  lemma {:induction false} DistinctCounts(s: seq<string>)
    ensures Distinct(s) <==> forall x :: multiset(s)[x] <= 1
  {
    if s != [] {
      var t := s[1..];
      assert s == [s[0]] + t;
      DistinctCounts(t);
      if Distinct(s) {
        assert Distinct(t) by {
          forall i, j | 0 <= i < j < |t| ensures t[i] != t[j] {
            assert t[i] == s[i + 1] && t[j] == s[j + 1];
          }
        }
        forall m | 0 <= m < |t| ensures t[m] != s[0] {
          assert t[m] == s[m + 1];
        }
      }
      if forall x :: multiset(s)[x] <= 1 {
        assert forall x :: multiset(t)[x] <= 1 by {
          forall x ensures multiset(t)[x] <= 1 {
            assert multiset(s)[x] == multiset(t)[x] + (if x == s[0] then 1 else 0);
          }
        }
        assert multiset(s)[s[0]] == multiset(t)[s[0]] + 1;
        forall i, j | 0 <= i < j < |s| ensures s[i] != s[j] {
          if i == 0 {
            assert s[j] == t[j - 1];
            assert t[j - 1] in multiset(t);
          } else {
            assert s[i] == t[i - 1] && s[j] == t[j - 1];
          }
        }
      }
    }
  }

  /** Reordering keeps a list duplicate-free and keeps its elements. */
  lemma PermutationKeepsElements(a: seq<string>, b: seq<string>)
    requires Distinct(a) && multiset(a) == multiset(b)
    ensures Distinct(b) && Elements(b) == Elements(a)
  {
    DistinctCounts(a);
    DistinctCounts(b);
    forall x ensures x in b <==> x in a {
      assert x in b <==> x in multiset(b);
      assert x in a <==> x in multiset(a);
    }
  }
}
