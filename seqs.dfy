/** Sequence operations the solver borrows from the .NET collections:
    LINQ's `Except`/`Distinct`, `List.Remove`, and filtering. */
module Seqs {

  /** No element occurs twice: the head is not in the tail, and so on. */
  predicate NoDuplicates<T(==,!new)>(s: seq<T>) {
    s == [] || (s[0] !in s[1..] && NoDuplicates(s[1..]))
  }

  /** The same, pair by pair: distinct positions hold distinct elements. */
  lemma {:induction false} NoDuplicatesIff<T(!new)>(s: seq<T>)
    ensures NoDuplicates(s) <==> forall i, j :: 0 <= i < j < |s| ==> s[i] != s[j]
  {
    if s != [] {
      NoDuplicatesIff(s[1..]);
      if NoDuplicates(s) {
        forall i, j | 0 <= i < j < |s| ensures s[i] != s[j] {
          if i == 0 {
            assert s[j] == s[1..][j - 1];
          } else {
            assert s[i] == s[1..][i - 1] && s[j] == s[1..][j - 1];
          }
        }
      }
      if forall i, j :: 0 <= i < j < |s| ==> s[i] != s[j] {
        forall i, j | 0 <= i < j < |s[1..]| ensures s[1..][i] != s[1..][j] {
          assert s[1..][i] == s[i + 1] && s[1..][j] == s[j + 1];
        }
        forall k | 0 <= k < |s[1..]| ensures s[1..][k] != s[0] {
          assert s[1..][k] == s[k + 1];
        }
      }
    }
  }

  /** r can be obtained from s by deleting elements (order is kept). */
  predicate SubsequenceOf<T(==,!new)>(r: seq<T>, s: seq<T>)
    decreases |s|
  {
    if r == [] then true
    else if s == [] then false
    else if r[0] == s[0] then SubsequenceOf(r[1..], s[1..])
    else SubsequenceOf(r, s[1..])
  }

  /** The elements of s that belong to k, in their order in s. */
  function Keep<T(==,!new)>(s: seq<T>, k: set<T>): (r: seq<T>)
    ensures forall x :: x in r <==> x in s && x in k
    ensures |r| <= |s|
    ensures NoDuplicates(s) ==> NoDuplicates(r)
  {
    if s == [] then []
    else
      var rest := Keep(s[1..], k);
      assert forall x :: x in rest ==> x in s[1..];
      if s[0] in k then
        var r := [s[0]] + rest;
        assert r[0] == s[0] && r[1..] == rest;
        assert NoDuplicates(s) ==> NoDuplicates(r);
        r
      else rest
  }

  /** s with every occurrence of x taken out. */
  function Drop<T(==,!new)>(s: seq<T>, x: T): (r: seq<T>)
    ensures forall y :: y in r <==> y in s && y != x
    ensures NoDuplicates(s) ==> NoDuplicates(r)
  {
    if s == [] then []
    else
      var rest := Drop(s[1..], x);
      assert forall y :: y in rest ==> y in s[1..];
      if s[0] == x then rest
      else
        var r := [s[0]] + rest;
        assert r[0] == s[0] && r[1..] == rest;
        assert NoDuplicates(s) ==> NoDuplicates(r);
        r
  }

  /** Where x first occurs in s; |s| when it does not occur. */
  function FirstIndex<T(==)>(s: seq<T>, x: T): (i: nat)
    ensures i <= |s| && (i < |s| <==> x in s)
    ensures i < |s| ==> s[i] == x
    ensures x !in s[..i]
  {
    if s == [] then 0
    else if s[0] == x then 0
    else
      var i := FirstIndex(s[1..], x);
      assert s[..i + 1] == [s[0]] + s[1..][..i];
      i + 1
  }

  /** `List<T>.Remove(x)`: looks up the first occurrence of x and, if
      there is one, deletes it, keeping the order of the rest. */
  function RemoveFirst<T(==,!new)>(s: seq<T>, x: T): (r: seq<T>)
    ensures |r| == if x in s then |s| - 1 else |s|
    ensures forall y :: y in r ==> y in s
    ensures x !in s ==> r == s
    ensures x in s ==> exists i :: 0 <= i < |s| && s[i] == x && x !in s[..i] && r == s[..i] + s[i + 1..]
  {
    var i := FirstIndex(s, x);
    if i < |s| then
      assert s == s[..i] + [s[i]] + s[i + 1..];
      s[..i] + s[i + 1..]
    else s
  }

  /** LINQ's `Except`: walks xs, yielding each element not yet in `seen`
      and adding it to `seen`; so the result has no duplicates and keeps
      first occurrences in order. */
  function ExceptFrom<T(==,!new)>(xs: seq<T>, seen: set<T>): (r: seq<T>)
    ensures forall x :: x in r <==> x in xs && x !in seen
    ensures NoDuplicates(r)
  {
    if xs == [] then []
    else if xs[0] in seen then ExceptFrom(xs[1..], seen)
    else
      var rest := ExceptFrom(xs[1..], seen + {xs[0]});
      [xs[0]] + rest
  }

  /** `xs.Except(ys)`. */
  function Except<T(==,!new)>(xs: seq<T>, ys: seq<T>): (r: seq<T>)
    ensures forall x :: x in r <==> x in xs && x !in ys
    ensures NoDuplicates(r)
  {
    ExceptFrom(xs, set y | y in ys)
  }

  /** `s.Distinct()`. */
  function Distinct<T(==,!new)>(s: seq<T>): (r: seq<T>)
    ensures forall x :: x in r <==> x in s
    ensures NoDuplicates(r)
  {
    ExceptFrom(s, {})
  }

  lemma {:induction false} KeepEquiv<T(!new)>(s: seq<T>, k1: set<T>, k2: set<T>)
    requires forall x :: x in s ==> (x in k1 <==> x in k2)
    ensures Keep(s, k1) == Keep(s, k2)
  {
    if s != [] {
      KeepEquiv(s[1..], k1, k2);
    }
  }

  lemma {:induction false} KeepAll<T(!new)>(s: seq<T>, k: set<T>)
    requires forall x :: x in s ==> x in k
    ensures Keep(s, k) == s
  {
    if s != [] {
      KeepAll(s[1..], k);
    }
  }

  lemma {:induction false} KeepIsSubsequence<T(!new)>(s: seq<T>, k: set<T>)
    ensures SubsequenceOf(Keep(s, k), s)
  {
    if s != [] {
      KeepIsSubsequence(s[1..], k);
      var rest := Keep(s[1..], k);
      if s[0] in k {
        assert Keep(s, k) == [s[0]] + rest;
        assert ([s[0]] + rest)[1..] == rest;
      } else {
        assert Keep(s, k) == rest;
        // the head of rest lies in k, so it is not s[0]
        assert rest != [] ==> rest[0] in k;
      }
    }
  }

  /** Dropping x from the kept elements is keeping one element fewer. */
  lemma {:induction false} DropKeep<T(!new)>(s: seq<T>, k: set<T>, x: T)
    ensures Drop(Keep(s, k), x) == Keep(s, k - {x})
  {
    if s != [] {
      DropKeep(s[1..], k, x);
      var rest := Keep(s[1..], k);
      if s[0] in k {
        var t := [s[0]] + rest;
        assert Keep(s, k) == t;
        assert t[0] == s[0] && t[1..] == rest;
        assert Drop(t, x) == (if s[0] == x then [] else [s[0]]) + Drop(rest, x);
      } else {
        assert Keep(s, k) == rest;
      }
      assert Keep(s, k - {x}) == (if s[0] in k - {x} then [s[0]] else []) + Keep(s[1..], k - {x});
    }
  }

  lemma {:induction false} DropTwice<T(!new)>(s: seq<T>, x: T)
    ensures Drop(Drop(s, x), x) == Drop(s, x)
  {
    if s != [] {
      DropTwice(s[1..], x);
      var rest := Drop(s[1..], x);
      if s[0] != x {
        var t := [s[0]] + rest;
        assert Drop(s, x) == t;
        assert t[0] == s[0] && t[1..] == rest;
        assert Drop(t, x) == [s[0]] + Drop(rest, x);
      } else {
        assert Drop(s, x) == rest;
      }
    }
  }

  /** `Remove` on a non-empty list: the head goes if it is x, otherwise
      the search goes on in the tail. */
  lemma RemoveFirstCons<T(!new)>(s: seq<T>, x: T)
    requires s != []
    ensures RemoveFirst(s, x) == if s[0] == x then s[1..] else [s[0]] + RemoveFirst(s[1..], x)
  {
    if s[0] == x {
      assert FirstIndex(s, x) == 0 && s[..0] + s[1..] == s[1..];
    } else {
      RemoveFirstSkip(s, x);
    }
  }

  /** `Remove` past a head that is not x. */
  lemma RemoveFirstSkip<T(!new)>(s: seq<T>, x: T)
    requires s != [] && s[0] != x
    ensures RemoveFirst(s, x) == [s[0]] + RemoveFirst(s[1..], x)
  {
    var t := s[1..];
    var i := FirstIndex(t, x);
    assert FirstIndex(s, x) == i + 1;
    if i < |t| {
      assert RemoveFirst(t, x) == t[..i] + t[i + 1..];
      assert RemoveFirst(s, x) == s[..i + 1] + s[i + 2..];
      SpliceTail(s, i);
    } else {
      assert RemoveFirst(t, x) == t && RemoveFirst(s, x) == s;
      assert s == [s[0]] + t;
    }
  }

  /** In a list without duplicates, no element occurs before its own position. */
  lemma NotBefore<T(!new)>(s: seq<T>, i: int)
    requires NoDuplicates(s) && 0 <= i < |s|
    ensures s[i] !in s[..i]
  {
    NoDuplicatesIff(s);
    forall t | 0 <= t < i ensures s[..i][t] != s[i] {
      assert s[..i][t] == s[t];
    }
  }

  /** Cutting out element i + 1 of s is cutting element i out of its tail. */
  lemma SpliceTail<T>(s: seq<T>, i: nat)
    requires i + 1 < |s|
    ensures s[..i + 1] + s[i + 2..] == [s[0]] + (s[1..][..i] + s[1..][i + 1..])
  {
    assert s[..i + 1] == [s[0]] + s[1..][..i];
    assert s[i + 2..] == s[1..][i + 1..];
  }

  /** On a list without duplicates, `List.Remove` removes every occurrence. */
  lemma {:induction false} RemoveFirstDistinct<T(!new)>(s: seq<T>, x: T)
    requires NoDuplicates(s)
    ensures RemoveFirst(s, x) == Drop(s, x)
  {
    if s != [] {
      RemoveFirstCons(s, x);
      if s[0] == x {
        assert x !in s[1..];
        DropAbsent(s[1..], x);
      } else {
        RemoveFirstDistinct(s[1..], x);
      }
    }
  }

  lemma {:induction false} DropAbsent<T(!new)>(s: seq<T>, x: T)
    requires x !in s
    ensures Drop(s, x) == s
  {
    if s != [] {
      DropAbsent(s[1..], x);
      assert s == [s[0]] + s[1..];
    }
  }

  /** On a list without duplicates, `Except` is a filter keeping order. */
  lemma {:induction false} ExceptFromDistinct<T(!new)>(xs: seq<T>, seen: set<T>)
    requires NoDuplicates(xs)
    ensures ExceptFrom(xs, seen) == Keep(xs, set x | x in xs && x !in seen)
  {
    if xs != [] {
      var tail := xs[1..];
      assert xs[0] !in tail;
      var k := set x | x in xs && x !in seen;
      if xs[0] in seen {
        ExceptFromDistinct(tail, seen);
        KeepEquiv(tail, (set x | x in tail && x !in seen), k);
      } else {
        ExceptFromDistinct(tail, seen + {xs[0]});
        KeepEquiv(tail, (set x | x in tail && x !in seen + {xs[0]}), k);
      }
    }
  }
}
