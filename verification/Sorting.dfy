/** Sorting a sequence by an integer key, sequences without repetitions, and sizes of sets. */
module Sorting {
  predicate SortedBy<T>(s: seq<T>, key: T -> int) {
    forall i, j :: 0 <= i < j < |s| ==> key(s[i]) <= key(s[j])
  }

  function InsertBy<T>(x: T, s: seq<T>, key: T -> int): seq<T> {
    if s == [] || key(x) <= key(s[0]) then [x] + s else [s[0]] + InsertBy(x, s[1..], key)
  }

  /** A stable sort. */
  function SortBy<T>(s: seq<T>, key: T -> int): seq<T> {
    if s == [] then [] else InsertBy(s[0], SortBy(s[1..], key), key)
  }

  ghost predicate Distinct<T>(s: seq<T>) {
    forall i, j :: 0 <= i < j < |s| ==> s[i] != s[j]
  }

  function Elements<T>(s: seq<T>): set<T> {
    set x | x in s
  }

  lemma ElementsCons<T>(x: T, s: seq<T>)
    ensures Elements([x] + s) == Elements(s) + {x}
    ensures Distinct([x] + s) <==> Distinct(s) && x !in Elements(s)
  {
    var r := [x] + s;
    forall i | 0 <= i < |s| ensures s[i] == r[i + 1] {}
    if Distinct(r) {
      forall i, j | 0 <= i < j < |s| ensures s[i] != s[j] {
        assert r[i + 1] != r[j + 1];
      }
      forall i | 0 <= i < |s| ensures s[i] != x {
        assert r[0] != r[i + 1];
      }
    }
    assert x == r[0];
    forall y | y in s ensures y in r {
      var i :| 0 <= i < |s| && s[i] == y;
      assert r[i + 1] == y;
    }
  }

  lemma {:induction false} InsertByLaws<T>(x: T, s: seq<T>, key: T -> int)
    requires SortedBy(s, key)
    ensures SortedBy(InsertBy(x, s, key), key)
    ensures Elements(InsertBy(x, s, key)) == Elements(s) + {x}
    ensures Distinct(s) && x !in Elements(s) ==> Distinct(InsertBy(x, s, key))
    ensures |InsertBy(x, s, key)| == |s| + 1
  {
    hide Elements, Distinct;
    ElementsCons(x, s);
    if s != [] && key(x) > key(s[0]) {
      var tail, rest := s[1..], InsertBy(x, s[1..], key);
      InsertByLaws(x, tail, key);
      ElementsCons(s[0], tail);
      ElementsCons(s[0], rest);
      assert s == [s[0]] + tail;
      forall i | 0 <= i < |rest| ensures key(s[0]) <= key(rest[i]) {
        InElements(rest, i);
        ElementsAt(tail, rest[i]);
      }
    }
  }

  lemma InElements<T>(s: seq<T>, i: nat)
    requires i < |s|
    ensures s[i] in Elements(s)
  {
  }

  lemma ElementsAt<T>(s: seq<T>, x: T)
    ensures x in Elements(s) <==> exists i :: 0 <= i < |s| && s[i] == x
  {
  }

  /** The result is sorted, has the same elements, and repeats none that the input does not repeat. */
  lemma {:induction false} SortByLaws<T>(s: seq<T>, key: T -> int)
    ensures SortedBy(SortBy(s, key), key)
    ensures Elements(SortBy(s, key)) == Elements(s) && |SortBy(s, key)| == |s|
    ensures Distinct(s) ==> Distinct(SortBy(s, key))
  {
    hide Elements, Distinct;
    if s != [] {
      SortByLaws(s[1..], key);
      InsertByLaws(s[0], SortBy(s[1..], key), key);
      ElementsCons(s[0], s[1..]);
      assert s == [s[0]] + s[1..];
    } else {
      NothingDistinct(s);
    }
  }

  lemma NothingDistinct<T>(s: seq<T>)
    requires s == []
    ensures Distinct(s)
  {
  }

  lemma {:induction false} DistinctSize<T>(s: seq<T>)
    requires Distinct(s)
    ensures |Elements(s)| == |s|
  {
    if s != [] {
      assert s == [s[0]] + s[1..];
      ElementsCons(s[0], s[1..]);
      DistinctSize(s[1..]);
    }
  }

  lemma ElementsAppend<T>(s: seq<T>, x: T)
    ensures Elements(s + [x]) == Elements(s) + {x}
    ensures Distinct(s) && x !in Elements(s) ==> Distinct(s + [x])
  {
  }

  lemma InSuffix<T>(s: seq<T>, n: nat, i: nat)
    requires Distinct(s) && n <= |s| && i < |s|
    ensures s[i] in s[n..] <==> i >= n
  {
    if i >= n {
      assert s[n..][i - n] == s[i];
    } else {
      forall j | 0 <= j < |s| - n ensures s[n..][j] != s[i] {
        assert s[n..][j] == s[n + j];
      }
    }
  }

  lemma SubsetSize<T>(a: set<T>, b: set<T>)
    requires a <= b
    ensures |a| <= |b|
  {
    assert b == a + (b - a);
  }

  /** Every finite set can be listed without repetition. */
  lemma {:induction false} ListOf<T>(all: set<T>) returns (s: seq<T>)
    ensures Distinct(s) && Elements(s) == all
  {
    s := [];
    if all != {} {
      var x :| x in all;
      var rest := ListOf(all - {x});
      ElementsAppend(rest, x);
      s := rest + [x];
    }
  }

  /** The elements of a set in some order. */
  method Enumerate<T(==)>(all: set<T>) returns (s: seq<T>)
    ensures Distinct(s) && Elements(s) == all
  {
    s := [];
    var todo := all;
    while todo != {}
      invariant Distinct(s) && todo <= all && Elements(s) == all - todo
      decreases todo
    {
      var x :| x in todo;
      ElementsAppend(s, x);
      s, todo := s + [x], todo - {x};
    }
  }
}
