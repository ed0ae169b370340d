/**
 A stable sort by a key that is a real number or +infinity, the model of
 Python's `list.sort(key=...)` on keys built from float distances and
 `float("inf")`. The sort is insertion sort: any stable sort gives the same
 list (see `LexUnique`), so the choice of algorithm is immaterial.
 */
module StableSort {

  /** A real extended with +infinity. */
  datatype Ext = Fin(r: real) | Inf

  predicate Le(a: Ext, b: Ext) {
    b.Inf? || (a.Fin? && a.r <= b.r)
  }

  predicate Lt(a: Ext, b: Ext) {
    a.Fin? && (b.Inf? || a.r < b.r)
  }

  /** `a` comes strictly before `b` in the order by key, ties broken by `tie`. */
  predicate LexLt<T>(key: T -> Ext, tie: T -> int, a: T, b: T) {
    Lt(key(a), key(b)) || (key(a) == key(b) && tie(a) < tie(b))
  }

  predicate SortedBy<T>(key: T -> Ext, s: seq<T>) {
    forall p, q :: 0 <= p < q < |s| ==> Le(key(s[p]), key(s[q]))
  }

  /** Strictly increasing in the lexicographic order (key, tie). */
  predicate StrictlyLex<T>(key: T -> Ext, tie: T -> int, s: seq<T>) {
    forall p, q :: 0 <= p < q < |s| ==> LexLt(key, tie, s[p], s[q])
  }

  predicate IncreasingBy<T>(tie: T -> int, s: seq<T>) {
    forall p, q :: 0 <= p < q < |s| ==> tie(s[p]) < tie(s[q])
  }

  /** Puts `x` before the first element whose key is not smaller than its own. */
  function Insert<T>(key: T -> Ext, x: T, s: seq<T>): (r: seq<T>)
    ensures |r| == |s| + 1
  {
    if |s| == 0 || Le(key(x), key(s[0])) then [x] + s
    else [s[0]] + Insert(key, x, s[1..])
  }

  lemma {:induction false} InsertPerm<T>(key: T -> Ext, x: T, s: seq<T>)
    ensures multiset(Insert(key, x, s)) == multiset([x] + s)
  {
    if |s| > 0 && !Le(key(x), key(s[0])) {
      assert s == [s[0]] + s[1..];
      InsertPerm(key, x, s[1..]);
    }
  }

  lemma {:induction false} InsertSorted<T>(key: T -> Ext, x: T, s: seq<T>)
    requires SortedBy(key, s)
    ensures SortedBy(key, Insert(key, x, s))
  {
    if |s| == 0 || Le(key(x), key(s[0])) {
      forall q | 0 <= q < |s|
        ensures Le(key(x), key(s[q]))
      {
        assert Le(key(s[0]), key(s[q]));
      }
      ConsSorted(key, x, s);
    } else {
      var rest := Insert(key, x, s[1..]);
      InsertSorted(key, x, s[1..]);
      InsertPerm(key, x, s[1..]);
      forall q | 0 <= q < |rest|
        ensures Le(key(s[0]), key(rest[q]))
      {
        InMultiset(rest[q], rest, [x] + s[1..]);
        if rest[q] != x {
          var i :| 0 <= i < |s[1..]| && s[1..][i] == rest[q];
          assert s[1..][i] == s[i + 1];
        }
      }
      ConsSorted(key, s[0], rest);
    }
  }

  lemma ConsSorted<T>(key: T -> Ext, h: T, t: seq<T>)
    requires SortedBy(key, t)
    requires forall q :: 0 <= q < |t| ==> Le(key(h), key(t[q]))
    ensures SortedBy(key, [h] + t)
  {
    var r := [h] + t;
    forall p, q | 0 <= p < q < |r|
      ensures Le(key(r[p]), key(r[q]))
    {
      assert r[q] == t[q - 1];
      if p > 0 {
        assert r[p] == t[p - 1];
      }
    }
  }

  lemma InMultiset<T>(y: T, a: seq<T>, b: seq<T>)
    requires y in a && multiset(a) == multiset(b)
    ensures y in b
  {
    assert y in multiset(a);
  }

  /** Stable sort: earlier elements stay before later ones with an equal key. */
  function Sort<T>(key: T -> Ext, s: seq<T>): (r: seq<T>)
    ensures |r| == |s|
  {
    if |s| == 0 then [] else Insert(key, s[0], Sort(key, s[1..]))
  }

  /** The sorted list is a permutation of the input. */
  lemma {:induction false} SortPerm<T>(key: T -> Ext, s: seq<T>)
    ensures multiset(Sort(key, s)) == multiset(s)
  {
    if |s| > 0 {
      assert s == [s[0]] + s[1..];
      SortPerm(key, s[1..]);
      InsertPerm(key, s[0], Sort(key, s[1..]));
    }
  }

  lemma {:induction false} SortSorted<T>(key: T -> Ext, s: seq<T>)
    ensures SortedBy(key, Sort(key, s))
  {
    if |s| > 0 {
      SortSorted(key, s[1..]);
      InsertSorted(key, s[0], Sort(key, s[1..]));
    }
  }

  lemma {:induction false} InsertLex<T>(key: T -> Ext, tie: T -> int, x: T, s: seq<T>)
    requires StrictlyLex(key, tie, s)
    requires forall q :: 0 <= q < |s| ==> tie(x) < tie(s[q])
    ensures StrictlyLex(key, tie, Insert(key, x, s))
  {
    if |s| == 0 || Le(key(x), key(s[0])) {
      forall q | 0 <= q < |s|
        ensures LexLt(key, tie, x, s[q])
      {
        if q > 0 {
          assert LexLt(key, tie, s[0], s[q]);
        }
      }
      ConsLex(key, tie, x, s);
    } else {
      var rest := Insert(key, x, s[1..]);
      InsertLex(key, tie, x, s[1..]);
      InsertPerm(key, x, s[1..]);
      forall q | 0 <= q < |rest|
        ensures LexLt(key, tie, s[0], rest[q])
      {
        InMultiset(rest[q], rest, [x] + s[1..]);
        if rest[q] != x {
          var i :| 0 <= i < |s[1..]| && s[1..][i] == rest[q];
          assert s[1..][i] == s[i + 1];
        }
      }
      ConsLex(key, tie, s[0], rest);
    }
  }

  lemma ConsLex<T>(key: T -> Ext, tie: T -> int, h: T, t: seq<T>)
    requires StrictlyLex(key, tie, t)
    requires forall q :: 0 <= q < |t| ==> LexLt(key, tie, h, t[q])
    ensures StrictlyLex(key, tie, [h] + t)
  {
    var r := [h] + t;
    forall p, q | 0 <= p < q < |r|
      ensures LexLt(key, tie, r[p], r[q])
    {
      assert r[q] == t[q - 1];
      if p > 0 {
        assert r[p] == t[p - 1];
      }
    }
  }

  /**
   Stability: when the input is increasing in `tie`, the sorted list is
   strictly increasing in (key, tie), so elements with equal keys keep their
   input order.
   */
  lemma {:induction false} SortLex<T>(key: T -> Ext, tie: T -> int, s: seq<T>)
    requires IncreasingBy(tie, s)
    ensures StrictlyLex(key, tie, Sort(key, s))
  {
    if |s| > 0 {
      assert s == [s[0]] + s[1..];
      SortLex(key, tie, s[1..]);
      var t := Sort(key, s[1..]);
      SortPerm(key, s[1..]);
      forall q | 0 <= q < |t|
        ensures tie(s[0]) < tie(t[q])
      {
        assert t[q] in multiset(s[1..]);
        var j :| 0 <= j < |s[1..]| && s[1..][j] == t[q];
      }
      InsertLex(key, tie, s[0], t);
    }
  }

  /** A list whose keys are all equal is left as it is. */
  lemma {:induction false} SortEqualKeys<T>(key: T -> Ext, k: Ext, s: seq<T>)
    requires forall q :: 0 <= q < |s| ==> key(s[q]) == k
    ensures Sort(key, s) == s
  {
    if |s| > 0 {
      SortEqualKeys(key, k, s[1..]);
      assert s == [s[0]] + s[1..];
    }
  }

  /** Two such lists start with the same element. */
  lemma LexHead<T>(key: T -> Ext, tie: T -> int, a: seq<T>, b: seq<T>)
    requires multiset(a) == multiset(b) && |a| > 0
    requires StrictlyLex(key, tie, a) && StrictlyLex(key, tie, b)
    ensures |b| > 0 && a[0] == b[0]
  {
    assert |multiset(b)| == |multiset(a)| > 0;
    assert a[0] in multiset(b);
    assert b[0] in multiset(a);
    var i :| 0 <= i < |b| && b[i] == a[0];
    var j :| 0 <= j < |a| && a[j] == b[0];
    assert i == 0;
  }

  /** Dropping equal heads keeps the multisets equal. */
  lemma TailMultiset<T>(a: seq<T>, b: seq<T>)
    requires multiset(a) == multiset(b) && |a| > 0 && |b| > 0 && a[0] == b[0]
    ensures multiset(a[1..]) == multiset(b[1..])
  {
    assert a == [a[0]] + a[1..];
    assert b == [b[0]] + b[1..];
    forall e
      ensures multiset(a[1..])[e] == multiset(b[1..])[e]
    {
      assert multiset(a)[e] == multiset{a[0]}[e] + multiset(a[1..])[e];
      assert multiset(b)[e] == multiset{b[0]}[e] + multiset(b[1..])[e];
    }
  }

  /**
   Two lists with the same elements that are both strictly increasing in
   (key, tie) are equal: a stable sort has only one possible result.
   */
  lemma {:induction false} LexUnique<T>(key: T -> Ext, tie: T -> int, a: seq<T>, b: seq<T>)
    requires multiset(a) == multiset(b)
    requires StrictlyLex(key, tie, a) && StrictlyLex(key, tie, b)
    ensures a == b
  {
    if |a| == 0 {
      assert |multiset(b)| == 0;
    } else {
      LexHead(key, tie, a, b);
      TailMultiset(a, b);
      LexUnique(key, tie, a[1..], b[1..]);
      assert a == [a[0]] + a[1..];
      assert b == [b[0]] + b[1..];
    }
  }

}
