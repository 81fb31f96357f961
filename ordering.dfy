/**
  * The order both pages sort category summaries in: larger counts first,
  * then names in `localeCompare` order.
  * `localeCompare` is locale dependent, so it is an abstract total order `le`
  * on names; `Array.prototype.sort` is modelled by an insertion sort.
  */
module Ordering {
  import opened Collections

  /** What the comparator reads of an entry. */
  datatype SortKey = SortKey(count: nat, name: string)

  /** `le(a, b)` stands for `a.localeCompare(b) <= 0`. */
  ghost predicate IsTotalOrder(le: (string, string) -> bool) {
    && (forall a :: le(a, a))
    && (forall a, b :: le(a, b) && le(b, a) ==> a == b)
    && (forall a, b, c :: le(a, b) && le(b, c) ==> le(a, c))
    && (forall a, b :: le(a, b) || le(b, a))
  }

  /**
    * The comparator says `x` may stand before `y` (its value is not positive):
    * a larger count comes first; equal counts are ordered by name.
    */
  predicate Precedes(le: (string, string) -> bool, x: SortKey, y: SortKey) {
    x.count > y.count || (x.count == y.count && le(x.name, y.name))
  }

  lemma PrecedesTotal(le: (string, string) -> bool, x: SortKey, y: SortKey)
    requires IsTotalOrder(le)
    ensures Precedes(le, x, y) || Precedes(le, y, x)
  {
  }

  lemma PrecedesTransitive(le: (string, string) -> bool, x: SortKey, y: SortKey, z: SortKey)
    requires IsTotalOrder(le)
    requires Precedes(le, x, y) && Precedes(le, y, z)
    ensures Precedes(le, x, z)
  {
  }

  lemma PrecedesAntisymmetric(le: (string, string) -> bool, x: SortKey, y: SortKey)
    requires IsTotalOrder(le)
    requires Precedes(le, x, y) && Precedes(le, y, x)
    ensures x == y
  {
  }

  /** Every earlier entry may stand before every later one. */
  ghost predicate SortedBy<T>(le: (string, string) -> bool, key: T -> SortKey, s: seq<T>) {
    forall i, j :: 0 <= i < j < |s| ==> Precedes(le, key(s[i]), key(s[j]))
  }

  /** No two entries carry the same name. */
  ghost predicate NamesDistinct<T>(key: T -> SortKey, s: seq<T>) {
    forall i, j :: 0 <= i < j < |s| ==> key(s[i]).name != key(s[j]).name
  }

  /** Entries with equal keys are equal. */
  ghost predicate KeyInjective<T>(key: T -> SortKey, s: seq<T>) {
    forall i, j :: 0 <= i < |s| && 0 <= j < |s| && key(s[i]) == key(s[j]) ==> s[i] == s[j]
  }

  /** Inserts `x` before the first entry it may precede. */
  function Insert<T>(le: (string, string) -> bool, key: T -> SortKey, x: T, s: seq<T>): (r: seq<T>)
    ensures multiset(r) == multiset(s) + multiset{x}
  {
    if s == [] then [x]
    else if Precedes(le, key(x), key(s[0])) then [x] + s
    else
      assert s == [s[0]] + s[1..];
      [s[0]] + Insert(le, key, x, s[1..])
  }

  /** `entries.sort(comparator)`. */
  function Sort<T>(le: (string, string) -> bool, key: T -> SortKey, s: seq<T>): (r: seq<T>)
    ensures multiset(r) == multiset(s)
    ensures |r| == |s|
  {
    if s == [] then []
    else
      assert s == [s[0]] + s[1..];
      var r := Insert(le, key, s[0], Sort(le, key, s[1..]));
      assert |r| == |multiset(r)|;
      r
  }

  lemma {:induction false} InsertSorted<T>(le: (string, string) -> bool, key: T -> SortKey, x: T, s: seq<T>)
    requires IsTotalOrder(le)
    requires SortedBy(le, key, s)
    ensures SortedBy(le, key, Insert(le, key, x, s))
  {
    if s == [] {
    } else if Precedes(le, key(x), key(s[0])) {
      var r := Insert(le, key, x, s);
      forall i, j | 0 <= i < j < |r| ensures Precedes(le, key(r[i]), key(r[j])) {
        if i == 0 && j > 1 {
          PrecedesTransitive(le, key(x), key(s[0]), key(s[j - 1]));
        }
      }
    } else {
      var t := Insert(le, key, x, s[1..]);
      InsertSorted(le, key, x, s[1..]);
      var r := [s[0]] + t;
      forall k | 0 <= k < |t| ensures Precedes(le, key(s[0]), key(t[k])) {
        assert t[k] in multiset(t);
        if t[k] == x {
          PrecedesTotal(le, key(x), key(s[0]));
        } else {
          assert t[k] in multiset(s[1..]);
          var m :| 0 <= m < |s[1..]| && s[1..][m] == t[k];
          assert s[m + 1] == t[k];
        }
      }
      forall i, j | 0 <= i < j < |r| ensures Precedes(le, key(r[i]), key(r[j])) {
        if i > 0 { assert r[i] == t[i - 1] && r[j] == t[j - 1]; }
      }
    }
  }

  /** With a total order on names, the sort's output is ordered by the comparator. */
  lemma {:induction false} SortSorted<T>(le: (string, string) -> bool, key: T -> SortKey, s: seq<T>)
    requires IsTotalOrder(le)
    ensures SortedBy(le, key, Sort(le, key, s))
  {
    if s != [] {
      SortSorted(le, key, s[1..]);
      InsertSorted(le, key, s[0], Sort(le, key, s[1..]));
    }
  }

  lemma {:induction false} InsertKeepsNamesDistinct<T>(le: (string, string) -> bool, key: T -> SortKey, x: T, s: seq<T>)
    requires NamesDistinct(key, s)
    requires forall i :: 0 <= i < |s| ==> key(s[i]).name != key(x).name
    ensures NamesDistinct(key, Insert(le, key, x, s))
  {
    if s != [] && !Precedes(le, key(x), key(s[0])) {
      var t := Insert(le, key, x, s[1..]);
      InsertKeepsNamesDistinct(le, key, x, s[1..]);
      var r := [s[0]] + t;
      forall k | 0 <= k < |t| ensures key(s[0]).name != key(t[k]).name {
        assert t[k] in multiset(t);
        if t[k] != x {
          assert t[k] in multiset(s[1..]);
          var m :| 0 <= m < |s[1..]| && s[1..][m] == t[k];
          assert s[m + 1] == t[k];
        }
      }
      forall i, j | 0 <= i < j < |r| ensures key(r[i]).name != key(r[j]).name {
        if i > 0 { assert r[i] == t[i - 1] && r[j] == t[j - 1]; }
      }
    }
  }

  /** Sorting entries with distinct names keeps the names distinct. */
  lemma {:induction false} SortKeepsNamesDistinct<T>(le: (string, string) -> bool, key: T -> SortKey, s: seq<T>)
    requires NamesDistinct(key, s)
    ensures NamesDistinct(key, Sort(le, key, s))
  {
    if s != [] {
      var t := Sort(le, key, s[1..]);
      SortKeepsNamesDistinct(le, key, s[1..]);
      forall k | 0 <= k < |t| ensures key(t[k]).name != key(s[0]).name {
        assert t[k] in multiset(s[1..]);
        var m :| 0 <= m < |s[1..]| && s[1..][m] == t[k];
        assert s[m + 1] == t[k];
      }
      InsertKeepsNamesDistinct(le, key, s[0], t);
    }
  }

  lemma TailsSameMultiset<T>(a: seq<T>, b: seq<T>)
    requires a != [] && b != [] && a[0] == b[0]
    requires multiset(a) == multiset(b)
    ensures multiset(a[1..]) == multiset(b[1..])
  {
    assert a == [a[0]] + a[1..];
    assert b == [b[0]] + b[1..];
    var m := multiset{a[0]};
    assert multiset(a) == m + multiset(a[1..]);
    assert multiset(b) == m + multiset(b[1..]);
    forall x ensures multiset(a[1..])[x] == multiset(b[1..])[x] {
      assert multiset(a)[x] == m[x] + multiset(a[1..])[x];
      assert multiset(b)[x] == m[x] + multiset(b[1..])[x];
    }
  }

  /** Ordered sequences with the same entries begin with the same entry. */
  lemma SortedHeadsAgree<T>(le: (string, string) -> bool, key: T -> SortKey, a: seq<T>, b: seq<T>)
    requires IsTotalOrder(le)
    requires a != [] && SortedBy(le, key, a) && SortedBy(le, key, b)
    requires multiset(a) == multiset(b)
    requires KeyInjective(key, a)
    ensures b != [] && a[0] == b[0]
  {
    assert a[0] in multiset(b);
    var j :| 0 <= j < |b| && b[j] == a[0];
    assert b[0] in multiset(a);
    var i :| 0 <= i < |a| && a[i] == b[0];
    if i > 0 && j > 0 {
      assert Precedes(le, key(b[0]), key(a[0]));
      assert Precedes(le, key(a[0]), key(b[0]));
      PrecedesAntisymmetric(le, key(a[0]), key(b[0]));
    }
  }

  /** Two comparator-ordered sequences with the same entries and no key shared by two distinct entries are equal. */
  lemma {:induction false} SortedUnique<T>(le: (string, string) -> bool, key: T -> SortKey, a: seq<T>, b: seq<T>)
    requires IsTotalOrder(le)
    requires SortedBy(le, key, a) && SortedBy(le, key, b)
    requires multiset(a) == multiset(b)
    requires KeyInjective(key, a)
    ensures a == b
  {
    assert |a| == |multiset(a)| == |b|;
    if a != [] {
      SortedHeadsAgree(le, key, a, b);
      TailsSameMultiset(a, b);
      var a', b' := a[1..], b[1..];
      forall p, q | 0 <= p < |a'| && 0 <= q < |a'| && key(a'[p]) == key(a'[q])
        ensures a'[p] == a'[q]
      {
        assert a'[p] == a[p + 1] && a'[q] == a[q + 1];
      }
      assert SortedBy(le, key, a') by {
        forall p, q | 0 <= p < q < |a'| ensures Precedes(le, key(a'[p]), key(a'[q])) {
          assert a'[p] == a[p + 1] && a'[q] == a[q + 1];
        }
      }
      assert SortedBy(le, key, b') by {
        forall p, q | 0 <= p < q < |b'| ensures Precedes(le, key(b'[p]), key(b'[q])) {
          assert b'[p] == b[p + 1] && b'[q] == b[q + 1];
        }
      }
      SortedUnique(le, key, a', b');
      assert a == [a[0]] + a' && b == [b[0]] + b';
    }
  }

  /**
    * The sorted result does not depend on the order the entries came in
    * (as long as no two distinct entries share a key).
    */
  lemma SortIgnoresInputOrder<T>(le: (string, string) -> bool, key: T -> SortKey, xs: seq<T>, ys: seq<T>)
    requires IsTotalOrder(le)
    requires multiset(xs) == multiset(ys)
    requires KeyInjective(key, xs)
    ensures Sort(le, key, xs) == Sort(le, key, ys)
  {
    var a, b := Sort(le, key, xs), Sort(le, key, ys);
    SortSorted(le, key, xs);
    SortSorted(le, key, ys);
    forall p, q | 0 <= p < |a| && 0 <= q < |a| && key(a[p]) == key(a[q]) ensures a[p] == a[q] {
      assert a[p] in multiset(xs) && a[q] in multiset(xs);
      var m :| 0 <= m < |xs| && xs[m] == a[p];
      var n :| 0 <= n < |xs| && xs[n] == a[q];
    }
    SortedUnique(le, key, a, b);
  }

  /** Sum of the counts of the entries. */
  function TotalCount<T>(key: T -> SortKey, s: seq<T>): nat {
    if s == [] then 0 else key(s[0]).count + TotalCount(key, s[1..])
  }

  lemma {:induction false} InsertAddsCount<T>(le: (string, string) -> bool, key: T -> SortKey, x: T, s: seq<T>)
    ensures TotalCount(key, Insert(le, key, x, s)) == key(x).count + TotalCount(key, s)
  {
    if s != [] && !Precedes(le, key(x), key(s[0])) {
      InsertAddsCount(le, key, x, s[1..]);
      assert ([s[0]] + Insert(le, key, x, s[1..]))[1..] == Insert(le, key, x, s[1..]);
    } else if s != [] {
      assert ([x] + s)[1..] == s;
    }
  }

  /** Sorting does not change the sum of the counts. */
  lemma {:induction false} SortKeepsTotal<T>(le: (string, string) -> bool, key: T -> SortKey, s: seq<T>)
    ensures TotalCount(key, Sort(le, key, s)) == TotalCount(key, s)
  {
    if s != [] {
      SortKeepsTotal(le, key, s[1..]);
      InsertAddsCount(le, key, s[0], Sort(le, key, s[1..]));
    }
  }

  /** Inserting commutes with a map that keeps the sort key. */
  lemma {:induction false} InsertMapCommutes<T, U>(le: (string, string) -> bool, keyT: T -> SortKey, keyU: U -> SortKey,
                                                     f: T -> U, x: T, s: seq<T>)
    requires forall y :: keyU(f(y)) == keyT(y)
    ensures Insert(le, keyU, f(x), MapSeq(f, s)) == MapSeq(f, Insert(le, keyT, x, s))
  {
    if s == [] {
      assert MapSeq(f, [x]) == [f(x)];
    } else {
      var m := MapSeq(f, s);
      assert m[0] == f(s[0]) && m[1..] == MapSeq(f, s[1..]);
      if Precedes(le, keyT(x), keyT(s[0])) {
        assert ([x] + s)[1..] == s;
      } else {
        InsertMapCommutes(le, keyT, keyU, f, x, s[1..]);
        var r := Insert(le, keyT, x, s[1..]);
        assert ([s[0]] + r)[1..] == r;
      }
    }
  }

  /** Sorting commutes with a map that keeps the sort key. */
  lemma {:induction false} SortMapCommutes<T, U>(le: (string, string) -> bool, keyT: T -> SortKey, keyU: U -> SortKey,
                                                   f: T -> U, s: seq<T>)
    requires forall y :: keyU(f(y)) == keyT(y)
    ensures Sort(le, keyU, MapSeq(f, s)) == MapSeq(f, Sort(le, keyT, s))
  {
    if s != [] {
      var m := MapSeq(f, s);
      assert m[0] == f(s[0]) && m[1..] == MapSeq(f, s[1..]);
      SortMapCommutes(le, keyT, keyU, f, s[1..]);
      InsertMapCommutes(le, keyT, keyU, f, s[0], Sort(le, keyT, s[1..]));
    }
  }
}
