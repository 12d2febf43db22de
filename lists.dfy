/**
 * The array operations the stores and pages build on: `filter`, `map` that
 * replaces the items with a given key, and `find`.
 */
module Lists {
  import opened Wrappers

  /** `s.filter(f)`. */
  function Filter<T>(s: seq<T>, f: T -> bool): (r: seq<T>)
    ensures |r| <= |s|
    decreases |s|
  {
    if |s| == 0 then [] else (if f(s[0]) then [s[0]] else []) + Filter(s[1..], f)
  }

  /** `a` is `b` with some elements left out, in the same order. */
  ghost predicate IsSubsequence<T>(a: seq<T>, b: seq<T>)
    decreases |b|
  {
    if |a| == 0 then true
    else if |b| == 0 then false
    else if a[0] == b[0] then IsSubsequence(a[1..], b[1..])
    else IsSubsequence(a, b[1..])
  }

  /** The filtered list keeps the order of the input. */
  lemma {:induction false} FilterIsSubsequence<T>(s: seq<T>, f: T -> bool)
    ensures IsSubsequence(Filter(s, f), s)
    decreases |s|
  {
    if |s| > 0 {
      FilterIsSubsequence(s[1..], f);
      if f(s[0]) {
        assert Filter(s, f) == [s[0]] + Filter(s[1..], f);
        assert (Filter(s, f))[1..] == Filter(s[1..], f);
      } else {
        assert Filter(s, f) == Filter(s[1..], f);
        SubsequenceDropHead(Filter(s, f), s);
      }
    }
  }

  lemma {:induction false} SubsequenceDropHead<T>(a: seq<T>, b: seq<T>)
    requires |b| > 0 && IsSubsequence(a, b[1..])
    ensures IsSubsequence(a, b)
    decreases |a| + |b|, 1
  {
    if |a| > 0 && a[0] == b[0] {
      SubsequenceTail(a, b[1..]);
    }
  }

  lemma {:induction false} SubsequenceTail<T>(a: seq<T>, c: seq<T>)
    requires |a| > 0 && IsSubsequence(a, c)
    ensures IsSubsequence(a[1..], c)
    decreases |a| + |c|, 0
  {
    if |c| > 0 {
      if a[0] == c[0] {
        SubsequenceDropHead(a[1..], c);
      } else {
        SubsequenceTail(a, c[1..]);
        SubsequenceDropHead(a[1..], c);
      }
    }
  }

  /**
   * The filtered list holds each element that satisfies `f` exactly as often as
   * the input does, and no other element.
   */
  lemma {:induction false} FilterCounts<T>(s: seq<T>, f: T -> bool)
    ensures forall x :: multiset(Filter(s, f))[x] == if f(x) then multiset(s)[x] else 0
    decreases |s|
  {
    if |s| > 0 {
      FilterCounts(s[1..], f);
      assert s == [s[0]] + s[1..];
      assert multiset(s) == multiset{s[0]} + multiset(s[1..]);
      assert multiset(Filter(s, f)) == multiset(if f(s[0]) then [s[0]] else []) + multiset(Filter(s[1..], f));
    }
  }

  /** Membership in the filtered list: an element of the input that satisfies `f`. */
  lemma FilterMembers<T>(s: seq<T>, f: T -> bool)
    ensures forall x :: x in Filter(s, f) <==> x in s && f(x)
  {
    FilterCounts(s, f);
    forall x ensures x in Filter(s, f) <==> x in s && f(x) {
      assert x in Filter(s, f) <==> multiset(Filter(s, f))[x] > 0;
      assert x in s <==> multiset(s)[x] > 0;
    }
  }

  /** A filter every element passes keeps the whole list. */
  lemma {:induction false} FilterAll<T>(s: seq<T>, f: T -> bool)
    requires forall i :: 0 <= i < |s| ==> f(s[i])
    ensures Filter(s, f) == s
    decreases |s|
  {
    if |s| > 0 {
      assert f(s[0]);
      FilterAll(s[1..], f);
      assert s == [s[0]] + s[1..];
    }
  }

  /** A filter no element passes keeps nothing. */
  lemma {:induction false} FilterRejectsAll<T>(s: seq<T>, f: T -> bool)
    requires forall i :: 0 <= i < |s| ==> !f(s[i])
    ensures Filter(s, f) == []
    decreases |s|
  {
    if |s| > 0 {
      assert !f(s[0]);
      FilterRejectsAll(s[1..], f);
    }
  }

  /** The elements whose key differs from `id`; `remove` keeps these. */
  function KeyIsNot<T>(key: T -> string, id: string): T -> bool {
    x => key(x) != id
  }

  /** `s.filter(x => key(x) !== id)`. */
  function RemoveWhere<T>(s: seq<T>, key: T -> string, id: string): seq<T> {
    Filter(s, KeyIsNot(key, id))
  }

  /** `s.map(x => key(x) === id ? v : x)`. */
  function ReplaceWhere<T>(s: seq<T>, key: T -> string, id: string, v: T): (r: seq<T>)
    ensures |r| == |s|
  {
    seq(|s|, i requires 0 <= i < |s| => if key(s[i]) == id then v else s[i])
  }

  /** After a removal no element carries the key, and every other element is kept. */
  lemma RemoveWhereSpec<T>(s: seq<T>, key: T -> string, id: string)
    ensures forall x :: x in RemoveWhere(s, key, id) <==> x in s && key(x) != id
    ensures forall x :: key(x) != id ==> multiset(RemoveWhere(s, key, id))[x] == multiset(s)[x]
  {
    FilterMembers(s, KeyIsNot(key, id));
    FilterCounts(s, KeyIsNot(key, id));
  }

  /** Replacing a key that no element carries changes nothing. */
  lemma ReplaceAbsentKey<T>(s: seq<T>, key: T -> string, id: string, v: T)
    requires forall x :: x in s ==> key(x) != id
    ensures ReplaceWhere(s, key, id, v) == s
  {
  }

  /** Replacing twice with the same value is replacing once. */
  lemma ReplaceIdempotent<T>(s: seq<T>, key: T -> string, id: string, v: T)
    ensures ReplaceWhere(ReplaceWhere(s, key, id, v), key, id, v) == ReplaceWhere(s, key, id, v)
  {
  }

  /**
   * Items replaced under their own key are dropped by a later removal of that
   * key: replacing then removing is removing.
   */
  lemma {:induction false} ReplaceThenRemove<T>(s: seq<T>, key: T -> string, id: string, v: T)
    requires key(v) == id
    ensures RemoveWhere(ReplaceWhere(s, key, id, v), key, id) == RemoveWhere(s, key, id)
    decreases |s|
  {
    if |s| > 0 {
      var r := ReplaceWhere(s, key, id, v);
      assert r[1..] == ReplaceWhere(s[1..], key, id, v);
      ReplaceThenRemove(s[1..], key, id, v);
    }
  }

  /** `s.find(x => key(x) === id)`: the first element carrying the key. */
  function FindFirst<T>(s: seq<T>, key: T -> string, id: string): (r: Option<T>)
    ensures r.None? <==> forall i :: 0 <= i < |s| ==> key(s[i]) != id
    ensures r.Some? ==> exists i :: 0 <= i < |s| && s[i] == r.value && key(s[i]) == id
                          && forall j :: 0 <= j < i ==> key(s[j]) != id
    decreases |s|
  {
    if |s| == 0 then None
    else if key(s[0]) == id then Some(s[0])
    else
      var r := FindFirst(s[1..], key, id);
      assert r.Some? ==> exists i :: 1 <= i < |s| && s[i] == r.value && key(s[i]) == id
                           && forall j :: 0 <= j < i ==> key(s[j]) != id by {
        if r.Some? {
          var i :| 0 <= i < |s| - 1 && s[1..][i] == r.value && key(s[1..][i]) == id
                   && forall j :: 0 <= j < i ==> key(s[1..][j]) != id;
          assert s[i + 1] == r.value;
          forall j | 0 <= j < i + 1 ensures key(s[j]) != id {
            if j > 0 { assert s[j] == s[1..][j - 1]; }
          }
        }
      }
      r
  }
}
