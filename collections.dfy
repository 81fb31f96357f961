/** Sequence helpers shared by the model: distinctness, `[...new Set(xs)]` and element counting. */
module Collections {

  /** No element occurs twice. */
  ghost predicate Distinct<T>(s: seq<T>) {
    forall i, j :: 0 <= i < j < |s| ==> s[i] != s[j]
  }

  /** The last element of a non-empty sequence, and all but the last. */
  function Last<T>(s: seq<T>): T
    requires s != []
  {
    s[|s| - 1]
  }

  function AllButLast<T>(s: seq<T>): seq<T>
    requires s != []
  {
    s[..|s| - 1]
  }

  /**
    * `[...new Set(s)]`: the distinct elements of `s`, each at the position of
    * its first occurrence.
    */
  function Dedupe<T(==,!new)>(s: seq<T>): (r: seq<T>)
    ensures Distinct(r)
    ensures forall x :: x in r <==> x in s
    ensures |r| <= |s|
  {
    if s == [] then []
    else
      var d := Dedupe(AllButLast(s));
      assert forall x :: x in s <==> x in AllButLast(s) || x == Last(s) by {
        assert s == AllButLast(s) + [Last(s)];
      }
      if Last(s) in d then d else d + [Last(s)]
  }

  /** Dedupe keeps the order of first occurrences: earlier-first elements come first. */
  lemma {:induction false} DedupeKeepsFirstOccurrenceOrder<T(!new)>(s: seq<T>, i: nat, j: nat)
    requires i < j < |Dedupe(s)|
    ensures exists a, b :: 0 <= a < b < |s| && s[a] == Dedupe(s)[i] && s[b] == Dedupe(s)[j]
              && (forall k :: 0 <= k < b ==> s[k] != Dedupe(s)[j])
  {
    var p := AllButLast(s);
    assert s == p + [Last(s)];
    var d := Dedupe(p);
    if Last(s) in d {
      DedupeKeepsFirstOccurrenceOrder(p, i, j);
      var a, b :| 0 <= a < b < |p| && p[a] == d[i] && p[b] == d[j] && (forall k :: 0 <= k < b ==> p[k] != d[j]);
      assert s[a] == d[i] && s[b] == d[j];
    } else {
      if j < |d| {
        DedupeKeepsFirstOccurrenceOrder(p, i, j);
        var a, b :| 0 <= a < b < |p| && p[a] == d[i] && p[b] == d[j] && (forall k :: 0 <= k < b ==> p[k] != d[j]);
        assert s[a] == d[i] && s[b] == d[j];
      } else {
        assert Dedupe(s)[j] == Last(s);
        assert d[i] in p;
        var a :| 0 <= a < |p| && p[a] == d[i];
        assert s[a] == Dedupe(s)[i];
        assert forall k :: 0 <= k < |p| ==> s[k] != Last(s) by {
          forall k | 0 <= k < |p| ensures s[k] != Last(s) {
            assert p[k] in d;
          }
        }
      }
    }
  }

  /** How many times `x` occurs in `s`. */
  function Occurrences<T(==)>(s: seq<T>, x: T): (n: nat)
    ensures n == multiset(s)[x]
  {
    if s == [] then 0
    else
      assert s == [s[0]] + s[1..];
      (if s[0] == x then 1 else 0) + Occurrences(s[1..], x)
  }

  /** In a sequence without duplicates, each member occurs exactly once. */
  lemma {:induction false} DistinctOccursOnce<T>(s: seq<T>, x: T)
    requires Distinct(s) && x in s
    ensures Occurrences(s, x) == 1
  {
    if s[0] == x {
      DistinctOccursNever(s[1..], x);
    } else {
      DistinctOccursOnce(s[1..], x);
    }
  }

  lemma {:induction false} DistinctOccursNever<T>(s: seq<T>, x: T)
    requires x !in s
    ensures Occurrences(s, x) == 0
  {
    if s != [] {
      DistinctOccursNever(s[1..], x);
    }
  }

  /** `s.map(f)`. */
  function MapSeq<T, U>(f: T -> U, s: seq<T>): (r: seq<U>)
    ensures |r| == |s|
    ensures forall i :: 0 <= i < |s| ==> r[i] == f(s[i])
  {
    if s == [] then [] else [f(s[0])] + MapSeq(f, s[1..])
  }

  /** Mapping a one-longer prefix adds the image of the new element. */
  lemma MapSeqPrefixSnoc<T, U>(f: T -> U, s: seq<T>, i: nat)
    requires i < |s|
    ensures MapSeq(f, s[..i + 1]) == MapSeq(f, s[..i]) + [f(s[i])]
  {
    var a, b := MapSeq(f, s[..i + 1]), MapSeq(f, s[..i]) + [f(s[i])];
    assert |a| == |b|;
    forall k | 0 <= k < |a| ensures a[k] == b[k] {
      assert s[..i + 1][k] == s[k];
    }
  }

  /** Mapping a concatenation maps each part. */
  lemma MapSeqConcat<T, U>(f: T -> U, a: seq<T>, b: seq<T>)
    ensures MapSeq(f, a + b) == MapSeq(f, a) + MapSeq(f, b)
  {
    var l, r := MapSeq(f, a + b), MapSeq(f, a) + MapSeq(f, b);
    assert |l| == |r|;
    forall k | 0 <= k < |l| ensures l[k] == r[k] {
      if k < |a| {
        assert (a + b)[k] == a[k];
      } else {
        assert (a + b)[k] == b[k - |a|];
      }
    }
  }

  /** Rearranging the input rearranges the image: equal multisets map to equal multisets. */
  lemma {:induction false} MapSeqMultiset<T, U>(f: T -> U, a: seq<T>, b: seq<T>)
    requires multiset(a) == multiset(b)
    ensures multiset(MapSeq(f, a)) == multiset(MapSeq(f, b))
  {
    if a == [] {
      assert |b| == |multiset(b)| == 0;
    } else {
      var x := a[0];
      assert x in multiset(b);
      var j :| 0 <= j < |b| && b[j] == x;
      var rest := b[..j] + b[j + 1..];
      assert b == b[..j] + [x] + b[j + 1..];
      assert a == [x] + a[1..];
      assert multiset(b) == multiset(b[..j]) + multiset{x} + multiset(b[j + 1..]);
      assert multiset(rest) == multiset(b[..j]) + multiset(b[j + 1..]);
      assert multiset(a) == multiset{x} + multiset(a[1..]);
      forall y ensures multiset(a[1..])[y] == multiset(rest)[y] {
        assert multiset(a)[y] == multiset{x}[y] + multiset(a[1..])[y];
        assert multiset(b)[y] == multiset{x}[y] + multiset(rest)[y];
      }
      MapSeqMultiset(f, a[1..], rest);
      MapSeqConcat(f, b[..j] + [x], b[j + 1..]);
      MapSeqConcat(f, b[..j], [x]);
      MapSeqConcat(f, b[..j], b[j + 1..]);
      MapSeqConcat(f, [x], a[1..]);
    }
  }

  /** Two duplicate-free sequences with the same members hold them equally often. */
  lemma DistinctSameMembers<T>(a: seq<T>, b: seq<T>)
    requires Distinct(a) && Distinct(b)
    requires forall x :: x in a <==> x in b
    ensures multiset(a) == multiset(b)
  {
    forall x ensures multiset(a)[x] == multiset(b)[x] {
      if x in a {
        DistinctOccursOnce(a, x);
        DistinctOccursOnce(b, x);
      } else {
        DistinctOccursNever(a, x);
        DistinctOccursNever(b, x);
      }
    }
  }

  /** `s.filter(p)`: the elements satisfying `p`, in order. */
  function Filter<T(!new)>(p: T -> bool, s: seq<T>): (r: seq<T>)
    ensures forall x :: x in r <==> x in s && p(x)
    ensures |r| <= |s|
  {
    if s == [] then []
    else
      assert s == AllButLast(s) + [Last(s)];
      Filter(p, AllButLast(s)) + (if p(Last(s)) then [Last(s)] else [])
  }

  /** Filtering a one-longer sequence filters the new element last. */
  lemma FilterSnoc<T(!new)>(p: T -> bool, s: seq<T>, x: T)
    ensures Filter(p, s + [x]) == Filter(p, s) + (if p(x) then [x] else [])
  {
    assert AllButLast(s + [x]) == s;
  }

  /** Updating a union updates its right operand. */
  lemma UpdateUnion<K, V>(a: map<K, V>, b: map<K, V>, k: K, v: V)
    ensures (a + b)[k := v] == a + b[k := v]
  {
  }
}
