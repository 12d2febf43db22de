/**
 * `Array.prototype.sort` with a comparator `(a, b) => key(b) - key(a)`: a
 * stable sort, newest (largest key) first. An ascending sort by `k` is this
 * sort by `-k`.
 */
module Sorting {

  ghost predicate SortedDesc<T>(s: seq<T>, key: T -> int) {
    forall i, j :: 0 <= i < j < |s| ==> key(s[i]) >= key(s[j])
  }

  /** `k` is the first position holding the largest key. */
  ghost predicate IsFirstMax<T>(s: seq<T>, key: T -> int, k: int) {
    && 0 <= k < |s|
    && (forall j :: 0 <= j < |s| ==> key(s[j]) <= key(s[k]))
    && (forall j :: 0 <= j < k ==> key(s[j]) < key(s[k]))
  }

  /** Inserts `x`, which came before every element of `t`, ahead of the elements whose key is not larger. */
  function Insert<T>(x: T, t: seq<T>, key: T -> int): seq<T>
    decreases |t|
  {
    if |t| == 0 || key(x) >= key(t[0]) then [x] + t else [t[0]] + Insert(x, t[1..], key)
  }

  function SortDesc<T>(s: seq<T>, key: T -> int): seq<T>
    decreases |s|
  {
    if |s| == 0 then [] else Insert(s[0], SortDesc(s[1..], key), key)
  }

  ghost predicate AllAtMost<T>(s: seq<T>, key: T -> int, c: int) {
    forall i :: 0 <= i < |s| ==> key(s[i]) <= c
  }

  lemma {:induction false} InsertBound<T>(x: T, t: seq<T>, key: T -> int, c: int)
    requires AllAtMost(t, key, c) && key(x) <= c
    ensures AllAtMost(Insert(x, t, key), key, c)
    decreases |t|
  {
    if |t| > 0 && key(x) < key(t[0]) {
      InsertBound(x, t[1..], key, c);
    }
  }

  lemma {:induction false} InsertSorted<T>(x: T, t: seq<T>, key: T -> int)
    requires SortedDesc(t, key)
    ensures SortedDesc(Insert(x, t, key), key)
    decreases |t|
  {
    if |t| > 0 && key(x) < key(t[0]) {
      var r := Insert(x, t[1..], key);
      InsertSorted(x, t[1..], key);
      InsertBound(x, t[1..], key, key(t[0]));
      assert Insert(x, t, key) == [t[0]] + r;
      forall i, j | 0 <= i < j < |r| + 1 ensures key(([t[0]] + r)[i]) >= key(([t[0]] + r)[j]) {
        if i > 0 {
          assert ([t[0]] + r)[i] == r[i - 1];
        }
        assert ([t[0]] + r)[j] == r[j - 1];
      }
    }
  }

  lemma {:induction false} InsertMultiset<T>(x: T, t: seq<T>, key: T -> int)
    ensures multiset(Insert(x, t, key)) == multiset{x} + multiset(t)
    ensures |Insert(x, t, key)| == |t| + 1
    decreases |t|
  {
    if |t| > 0 && key(x) < key(t[0]) {
      InsertMultiset(x, t[1..], key);
      assert t == [t[0]] + t[1..];
    }
  }

  lemma InsertProps<T>(x: T, t: seq<T>, key: T -> int)
    requires SortedDesc(t, key)
    ensures SortedDesc(Insert(x, t, key), key)
    ensures multiset(Insert(x, t, key)) == multiset{x} + multiset(t)
    ensures |Insert(x, t, key)| == |t| + 1
    ensures Insert(x, t, key)[0] == (if |t| == 0 || key(x) >= key(t[0]) then x else t[0])
  {
    InsertSorted(x, t, key);
    InsertMultiset(x, t, key);
  }

  /** The sorted list is ordered newest first and is a permutation of the input. */
  lemma {:induction false} SortDescProps<T>(s: seq<T>, key: T -> int)
    ensures SortedDesc(SortDesc(s, key), key)
    ensures multiset(SortDesc(s, key)) == multiset(s)
    ensures |SortDesc(s, key)| == |s|
    decreases |s|
  {
    if |s| > 0 {
      SortDescProps(s[1..], key);
      InsertProps(s[0], SortDesc(s[1..], key), key);
      assert s == [s[0]] + s[1..];
    }
  }

  /**
   * Because the sort is stable, its first element is the first element of the
   * input that holds the largest key.
   */
  lemma {:induction false} SortDescHead<T>(s: seq<T>, key: T -> int)
    requires |s| > 0
    ensures exists k :: IsFirstMax(s, key, k) && SortDesc(s, key)[0] == s[k]
    decreases |s|
  {
    var rest := SortDesc(s[1..], key);
    SortDescProps(s[1..], key);
    InsertProps(s[0], rest, key);
    if |s| == 1 {
      assert IsFirstMax(s, key, 0);
    } else {
      SortDescHead(s[1..], key);
      var k :| IsFirstMax(s[1..], key, k) && rest[0] == s[1..][k];
      FirstMaxCons(s, key, k);
    }
  }

  /** The first largest key of `s` is its head's, or else the first largest of its tail. */
  lemma FirstMaxCons<T>(s: seq<T>, key: T -> int, k: nat)
    requires |s| > 1 && IsFirstMax(s[1..], key, k)
    ensures key(s[0]) >= key(s[k + 1]) ==> IsFirstMax(s, key, 0)
    ensures key(s[0]) < key(s[k + 1]) ==> IsFirstMax(s, key, k + 1)
  {
    forall j | 0 < j < |s| ensures key(s[j]) <= key(s[k + 1]) {
      assert s[j] == s[1..][j - 1];
    }
    forall j | 0 < j < k + 1 ensures key(s[j]) < key(s[k + 1]) {
      assert s[j] == s[1..][j - 1];
    }
  }
}
