/**
 Python's `sorted(xs, key=f)`: a stable sort, ascending by `f`. Every
 stable sort returns the same list, so an insertion sort models it exactly.
 */
module Sorting {
  import opened Text

  /** The default sort key: the string itself. */
  function Id(s: string): string
  {
    s
  }

  /** No string occurs twice. */
  predicate Distinct(s: seq<string>)
  {
    forall i, j :: 0 <= i < j < |s| ==> s[i] != s[j]
  }

  /** Ascending by `key`, equal keys allowed. */
  ghost predicate SortedBy(s: seq<string>, key: string -> string)
  {
    forall i, j :: 0 <= i < j < |s| ==> LessEq(key(s[i]), key(s[j]))
  }

  /** Ascending by `key`, and among equal keys ascending by the string itself. */
  ghost predicate SortedByThenSelf(s: seq<string>, key: string -> string)
  {
    forall i, j :: 0 <= i < j < |s| ==>
      Less(key(s[i]), key(s[j])) || (key(s[i]) == key(s[j]) && LessEq(s[i], s[j]))
  }

  /** Strictly descending: each string is greater than every later one. */
  ghost predicate StrictlyDescending(s: seq<string>)
  {
    forall i, j :: 0 <= i < j < |s| ==> Less(s[j], s[i])
  }

  /** Places `x` in front of the first element whose key is not smaller than its own. */
  function Insert(x: string, s: seq<string>, key: string -> string): (r: seq<string>)
    ensures multiset(r) == multiset(s) + multiset{x}
  {
    if |s| == 0 then [x]
    else if Less(key(s[0]), key(x)) then
      assert s == [s[0]] + s[1..];
      [s[0]] + Insert(x, s[1..], key)
    else [x] + s
  }

  /** The stable sort by `key`: a permutation of `s` in ascending key order. */
  function SortBy(s: seq<string>, key: string -> string): (r: seq<string>)
    ensures multiset(r) == multiset(s)
    ensures SortedBy(r, key)
  {
    if |s| == 0 then []
    else
      var rest := SortBy(s[1..], key);
      InsertSorted(s[0], rest, key);
      assert s == [s[0]] + s[1..];
      Insert(s[0], rest, key)
  }

  /** A permutation has the same elements. */
  lemma SameElements(a: seq<string>, b: seq<string>)
    requires multiset(a) == multiset(b)
    ensures forall x :: x in a <==> x in b
  {
    forall x
      ensures x in a <==> x in b
    {
      assert x in a <==> x in multiset(a);
      assert x in b <==> x in multiset(b);
    }
  }

  lemma {:induction false} InsertSorted(x: string, s: seq<string>, key: string -> string)
    requires SortedBy(s, key)
    ensures SortedBy(Insert(x, s, key), key)
    decreases |s|
  {
    var r := Insert(x, s, key);
    if |s| == 0 {
    } else if Less(key(s[0]), key(x)) {
      var tail := Insert(x, s[1..], key);
      InsertSorted(x, s[1..], key);
      SameElements(tail, s[1..] + [x]);
      forall j | 0 <= j < |tail|
        ensures LessEq(key(s[0]), key(tail[j]))
      {
        assert tail[j] in s[1..] + [x];
        if tail[j] != x {
          var k :| 0 <= k < |s[1..]| && s[1..][k] == tail[j];
          assert s[1..][k] == s[k + 1];
        }
      }
    } else {
      NotLessIsGreaterEq(key(s[0]), key(x));
      forall j | 0 <= j < |s|
        ensures LessEq(key(x), key(s[j]))
      {
        if j > 0 {
          LessEqTransitive(key(x), key(s[0]), key(s[j]));
        }
      }
    }
  }

  /**
   Inserting `x` that is not greater than any element of `s` keeps the order
   by key with ties broken by the string: `x` goes before its equal keys.
   */
  lemma {:induction false} InsertKeepsTies(x: string, s: seq<string>, key: string -> string)
    requires SortedByThenSelf(s, key)
    requires forall y :: y in s ==> LessEq(x, y)
    ensures SortedByThenSelf(Insert(x, s, key), key)
    decreases |s|
  {
    if |s| == 0 {
    } else if Less(key(s[0]), key(x)) {
      var tail := Insert(x, s[1..], key);
      InsertKeepsTies(x, s[1..], key);
      SameElements(tail, s[1..] + [x]);
      forall j | 0 <= j < |tail|
        ensures Less(key(s[0]), key(tail[j])) || (key(s[0]) == key(tail[j]) && LessEq(s[0], tail[j]))
      {
        assert tail[j] in s[1..] + [x];
        if tail[j] != x {
          var k :| 0 <= k < |s[1..]| && s[1..][k] == tail[j];
          assert s[1..][k] == s[k + 1];
        }
      }
    } else {
      NotLessIsGreaterEq(key(s[0]), key(x));
      forall j | 0 <= j < |s|
        ensures Less(key(x), key(s[j])) || (key(x) == key(s[j]) && LessEq(x, s[j]))
      {
        assert s[j] in s;
        if j > 0 {
          assert Less(key(s[0]), key(s[j])) || key(s[0]) == key(s[j]);
          if key(x) != key(s[0]) && Less(key(s[0]), key(s[j])) {
            LessTransitive(key(x), key(s[0]), key(s[j]));
          }
        }
      }
    }
  }

  /**
   Stability: sorting a list that is already in name order by some key
   leaves equal keys in name order.
   */
  lemma {:induction false} StableSortKeepsTies(s: seq<string>, key: string -> string)
    requires SortedBy(s, Id)
    ensures SortedByThenSelf(SortBy(s, key), key)
    decreases |s|
  {
    if |s| > 0 {
      var rest := SortBy(s[1..], key);
      StableSortKeepsTies(s[1..], key);
      SameElements(rest, s[1..]);
      forall y | y in rest
        ensures LessEq(s[0], y)
      {
        var k :| 0 <= k < |s[1..]| && s[1..][k] == y;
        assert s[1..][k] == s[k + 1];
        assert Id(s[0]) == s[0] && Id(s[k + 1]) == s[k + 1];
      }
      InsertKeepsTies(s[0], rest, key);
    }
  }

  /** Two equal entries make an element occur twice. */
  lemma TwiceCounted(s: seq<string>, i: nat, j: nat)
    requires i < j < |s| && s[i] == s[j]
    ensures multiset(s)[s[i]] >= 2
  {
    assert s == s[..j] + s[j..];
    assert s[i] == s[..j][i];
    assert s[j] == s[j..][0];
  }

  /** In a list without repeats every element is counted once. */
  lemma {:induction false} DistinctCountedOnce(s: seq<string>)
    requires Distinct(s)
    ensures forall x :: multiset(s)[x] <= 1
    decreases |s|
  {
    if |s| > 0 {
      assert Distinct(s[1..]) by {
        forall i, j | 0 <= i < j < |s[1..]|
          ensures s[1..][i] != s[1..][j]
        {
          assert s[1..][i] == s[i + 1] && s[1..][j] == s[j + 1];
        }
      }
      DistinctCountedOnce(s[1..]);
      assert s == [s[0]] + s[1..];
      assert s[0] !in s[1..];
    }
  }

  /** A permutation of a list without repeats has no repeats. */
  lemma PermutationKeepsDistinct(s: seq<string>, r: seq<string>)
    requires Distinct(s) && multiset(r) == multiset(s)
    ensures Distinct(r)
  {
    DistinctCountedOnce(s);
    forall i, j | 0 <= i < j < |r|
      ensures r[i] != r[j]
    {
      if r[i] == r[j] {
        TwiceCounted(r, i, j);
      }
    }
  }

  /** The list read back to front. */
  function Reverse(s: seq<string>): (r: seq<string>)
    ensures |r| == |s|
    ensures forall i :: 0 <= i < |s| ==> r[i] == s[|s| - 1 - i]
  {
    if |s| == 0 then [] else Reverse(s[1..]) + [s[0]]
  }

  /**
   Python's `sorted(xs, reverse=True)` on a list without repeats: the
   ascending sort read back to front.
   */
  function SortDescending(s: seq<string>): (r: seq<string>)
  {
    Reverse(SortBy(s, Id))
  }

  /**
   The descending sort of a list without repeats is a permutation of it,
   strictly descending, with its greatest element first.
   */
  lemma SortDescendingSpec(s: seq<string>)
    requires Distinct(s)
    ensures multiset(SortDescending(s)) == multiset(s)
    ensures StrictlyDescending(SortDescending(s))
    ensures |s| > 0 ==> forall x :: x in s ==> LessEq(x, SortDescending(s)[0])
  {
    var up := SortBy(s, Id);
    var r := SortDescending(s);
    PermutationKeepsDistinct(s, up);
    assert multiset(r) == multiset(up) by {
      ReverseMultiset(up);
    }
    forall i, j | 0 <= i < j < |r|
      ensures Less(r[j], r[i])
    {
      var a, b := |up| - 1 - j, |up| - 1 - i;
      assert LessEq(Id(up[a]), Id(up[b]));
      assert up[a] != up[b];
    }
    if |s| > 0 {
      SameElements(r, s);
      forall x | x in s
        ensures LessEq(x, r[0])
      {
        var k :| 0 <= k < |r| && r[k] == x;
        if k > 0 {
          assert Less(r[k], r[0]);
        }
      }
    }
  }

  lemma {:induction false} ReverseMultiset(s: seq<string>)
    ensures multiset(Reverse(s)) == multiset(s)
    decreases |s|
  {
    if |s| > 0 {
      ReverseMultiset(s[1..]);
      assert s == [s[0]] + s[1..];
    }
  }
}
