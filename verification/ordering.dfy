/**
 * Sort keys and the stable sort every list ordering in the dashboard reduces to.
 *
 * Each comparator handed to `Array.prototype.sort` in the dashboard compares a
 * fixed tuple of numbers (and, in the schedule, a time string) field by field;
 * since `Array.prototype.sort` is stable, the outcome is the stable sort of the
 * input by that tuple read lexicographically. `SortBy` is that sort (an
 * insertion sort), `LexLe` the order on keys, `Select` the stable filter.
 */
module Ordering {

  /** A sort key: compared lexicographically, a proper prefix first. */
  type Key = seq<int>

  /** `a` sorts no later than `b`. */
  predicate LexLe(a: Key, b: Key)
    decreases |a|
  {
    |a| == 0 || (|b| > 0 && (a[0] < b[0] || (a[0] == b[0] && LexLe(a[1..], b[1..]))))
  }

  lemma {:induction false} LexLeRefl(a: Key)
    ensures LexLe(a, a)
    decreases |a|
  {
    if |a| > 0 {
      LexLeRefl(a[1..]);
    }
  }

  lemma {:induction false} LexLeTotal(a: Key, b: Key)
    ensures LexLe(a, b) || LexLe(b, a)
    decreases |a|
  {
    if |a| > 0 && |b| > 0 && a[0] == b[0] {
      LexLeTotal(a[1..], b[1..]);
    }
  }

  lemma {:induction false} LexLeAntisymmetric(a: Key, b: Key)
    requires LexLe(a, b) && LexLe(b, a)
    ensures a == b
    decreases |a|
  {
    if |a| > 0 {
      LexLeAntisymmetric(a[1..], b[1..]);
      assert a == [a[0]] + a[1..];
      assert b == [b[0]] + b[1..];
    }
  }

  lemma {:induction false} LexLeTransitive(a: Key, b: Key, c: Key)
    requires LexLe(a, b) && LexLe(b, c)
    ensures LexLe(a, c)
    decreases |a|
  {
    if |a| > 0 && a[0] == b[0] && b[0] == c[0] {
      LexLeTransitive(a[1..], b[1..], c[1..]);
    }
  }

  /** Comparing keys with a common first component compares the rests. */
  lemma LexLeCons(x: int, a: Key, y: int, b: Key)
    ensures LexLe([x] + a, [y] + b) <==> x < y || (x == y && LexLe(a, b))
  {
    assert ([x] + a)[1..] == a;
    assert ([y] + b)[1..] == b;
  }

  /** A common prefix does not affect the comparison. */
  lemma {:induction false} LexLeCommonPrefix(p: Key, a: Key, b: Key)
    ensures LexLe(p + a, p + b) <==> LexLe(a, b)
    decreases |p|
  {
    if |p| > 0 {
      assert p + a == [p[0]] + (p[1..] + a);
      assert p + b == [p[0]] + (p[1..] + b);
      LexLeCons(p[0], p[1..] + a, p[0], p[1..] + b);
      LexLeCommonPrefix(p[1..], a, b);
    } else {
      assert p + a == a && p + b == b;
    }
  }

  /** `s` is ordered by `key`: no element sorts after a later one. */
  predicate SortedBy<T>(s: seq<T>, key: T -> Key) {
    forall i, j :: 0 <= i < j < |s| ==> LexLe(key(s[i]), key(s[j]))
  }

  // ---------------------------------------------------------------------
  // Stable filters
  // ---------------------------------------------------------------------

  /** The elements `x` of `s` with `p(x) == want`, in their original order (`s.filter`). */
  function Select<T>(s: seq<T>, p: T -> bool, want: bool): (r: seq<T>)
    ensures |r| <= |s|
    ensures forall i :: 0 <= i < |r| ==> p(r[i]) == want
  {
    if |s| == 0 then []
    else
      var init := Select(s[..|s| - 1], p, want);
      var last := s[|s| - 1];
      assert s == s[..|s| - 1] + [last];
      init + (if p(last) == want then [last] else [])
  }

  lemma {:induction false} SelectConcat<T>(a: seq<T>, b: seq<T>, p: T -> bool, want: bool)
    ensures Select(a + b, p, want) == Select(a, p, want) + Select(b, p, want)
    decreases |b|
  {
    if |b| == 0 {
      assert a + b == a;
    } else {
      assert (a + b)[..|a + b| - 1] == a + b[..|b| - 1];
      SelectConcat(a, b[..|b| - 1], p, want);
    }
  }

  /** Every element goes to exactly one side, and a side is empty exactly when no element belongs there. */
  lemma {:induction false} SelectCounts<T>(s: seq<T>, p: T -> bool, want: bool)
    ensures |Select(s, p, want)| + |Select(s, p, !want)| == |s|
    ensures |Select(s, p, want)| == 0 <==> forall i :: 0 <= i < |s| ==> p(s[i]) != want
  {
    if |s| > 0 {
      var init := s[..|s| - 1];
      SelectCounts(init, p, want);
      assert forall i :: 0 <= i < |init| ==> init[i] == s[i];
    }
  }

  /** Selecting what every element already satisfies keeps everything. */
  lemma {:induction false} SelectAll<T>(s: seq<T>, p: T -> bool, want: bool)
    requires forall i :: 0 <= i < |s| ==> p(s[i]) == want
    ensures Select(s, p, want) == s
    ensures Select(s, p, !want) == []
  {
    if |s| > 0 {
      var init := s[..|s| - 1];
      SelectAll(init, p, want);
      assert s == init + [s[|s| - 1]];
      assert Select(s, p, want) == Select(init, p, want) + [s[|s| - 1]];
      assert Select(s, p, !want) == Select(init, p, !want);
    }
  }

  /** The elements of `s` whose key is exactly `k`, in their original order. */
  function KeyClass<T>(s: seq<T>, key: T -> Key, k: Key): (r: seq<T>)
    ensures forall i :: 0 <= i < |r| ==> key(r[i]) == k
  {
    if |s| == 0 then []
    else
      KeyClass(s[..|s| - 1], key, k) + (if key(s[|s| - 1]) == k then [s[|s| - 1]] else [])
  }

  // ---------------------------------------------------------------------
  // Stable insertion sort
  // ---------------------------------------------------------------------

  /** Places `x` after the last element of `t` whose key is not above `x`'s. */
  function Insert<T>(t: seq<T>, x: T, key: T -> Key): seq<T>
    decreases |t|
  {
    if |t| == 0 || LexLe(key(t[|t| - 1]), key(x)) then t + [x]
    else Insert(t[..|t| - 1], x, key) + [t[|t| - 1]]
  }

  /** Inserting adds exactly `x`. */
  lemma {:induction false} InsertPermutation<T>(t: seq<T>, x: T, key: T -> Key)
    ensures |Insert(t, x, key)| == |t| + 1
    ensures multiset(Insert(t, x, key)) == multiset(t) + multiset{x}
    decreases |t|
  {
    if !(|t| == 0 || LexLe(key(t[|t| - 1]), key(x))) {
      var init := t[..|t| - 1];
      assert t == init + [t[|t| - 1]];
      InsertPermutation(init, x, key);
    }
  }

  /** Inserting into a sorted sequence keeps it sorted. */
  lemma {:induction false} InsertSorted<T>(t: seq<T>, x: T, key: T -> Key)
    requires SortedBy(t, key)
    ensures SortedBy(Insert(t, x, key), key)
    decreases |t|
  {
    var r := Insert(t, x, key);
    if |t| == 0 || LexLe(key(t[|t| - 1]), key(x)) {
      assert r == t + [x];
      forall i | 0 <= i < |t| ensures LexLe(key(r[i]), key(x)) {
        if i < |t| - 1 {
          LexLeTransitive(key(t[i]), key(t[|t| - 1]), key(x));
        }
      }
    } else {
      var init := t[..|t| - 1];
      var last := t[|t| - 1];
      var front := Insert(init, x, key);
      assert r == front + [last];
      InsertSorted(init, x, key);
      InsertPermutation(init, x, key);
      LexLeTotal(key(last), key(x));
      forall i | 0 <= i < |front| ensures LexLe(key(front[i]), key(last)) {
        var y := front[i];
        assert y in multiset(front);
        if y != x {
          assert y in multiset(init);
          var m :| 0 <= m < |init| && init[m] == y;
          assert t[m] == y;
        }
      }
    }
  }

  /** The stable sort of `s` by `key`. */
  function SortBy<T>(s: seq<T>, key: T -> Key): (r: seq<T>)
  {
    if |s| == 0 then []
    else Insert(SortBy(s[..|s| - 1], key), s[|s| - 1], key)
  }

  /** Two items stay in order exactly when the first one's key is not above the second's. */
  lemma SortTwo<T>(a: T, b: T, key: T -> Key)
    ensures SortBy([a, b], key) == if LexLe(key(a), key(b)) then [a, b] else [b, a]
  {
    assert [a, b][..1] == [a];
    assert [a][..0] == [];
    assert SortBy([a], key) == [a];
    assert SortBy([a, b], key) == Insert([a], b, key);
    if !LexLe(key(a), key(b)) {
      assert Insert([a], b, key) == Insert([], b, key) + [a];
    }
  }

  /** The sort returns a permutation of its input, ordered by the key. */
  lemma {:induction false} SortBySortedPermutation<T>(s: seq<T>, key: T -> Key)
    ensures |SortBy(s, key)| == |s|
    ensures multiset(SortBy(s, key)) == multiset(s)
    ensures SortedBy(SortBy(s, key), key)
  {
    if |s| > 0 {
      var init := s[..|s| - 1];
      SortBySortedPermutation(init, key);
      InsertPermutation(SortBy(init, key), s[|s| - 1], key);
      InsertSorted(SortBy(init, key), s[|s| - 1], key);
      assert s == init + [s[|s| - 1]];
    }
  }

  /** Inserting adds `x` to its own key class at the end and leaves the other classes alone. */
  lemma {:induction false} InsertKeyClass<T>(t: seq<T>, x: T, key: T -> Key, k: Key)
    ensures KeyClass(Insert(t, x, key), key, k)
         == KeyClass(t, key, k) + (if key(x) == k then [x] else [])
    decreases |t|
  {
    if |t| == 0 || LexLe(key(t[|t| - 1]), key(x)) {
      var r := t + [x];
      assert Insert(t, x, key) == r;
      assert r[..|r| - 1] == t;
    } else {
      var init := t[..|t| - 1];
      var last := t[|t| - 1];
      var front := Insert(init, x, key);
      var r := front + [last];
      assert Insert(t, x, key) == r;
      assert r[..|r| - 1] == front;
      InsertKeyClass(init, x, key, k);
      LexLeRefl(key(x));
      assert key(last) != key(x);
    }
  }

  /** Stability: within every key class the sort keeps the input order. */
  lemma {:induction false} SortByStable<T>(s: seq<T>, key: T -> Key, k: Key)
    ensures KeyClass(SortBy(s, key), key, k) == KeyClass(s, key, k)
  {
    if |s| > 0 {
      SortByStable(s[..|s| - 1], key, k);
      InsertKeyClass(SortBy(s[..|s| - 1], key), s[|s| - 1], key, k);
    }
  }

  lemma {:induction false} SelectKeys<T>(s: seq<T>, key: T -> Key, p: T -> bool)
    requires forall i :: 0 <= i < |s| ==> key(s[i]) == (if p(s[i]) then [0] else [1])
    ensures forall i :: 0 <= i < |Select(s, p, true)| ==> key(Select(s, p, true)[i]) == [0]
    ensures forall i :: 0 <= i < |Select(s, p, false)| ==> key(Select(s, p, false)[i]) == [1]
  {
    if |s| > 0 {
      SelectKeys(s[..|s| - 1], key, p);
    }
  }

  /** Inserting an element that sorts strictly before every element of `b` and not before `a`. */
  lemma {:induction false} InsertBetween<T>(a: seq<T>, b: seq<T>, x: T, key: T -> Key)
    requires |a| == 0 || LexLe(key(a[|a| - 1]), key(x))
    requires forall i :: 0 <= i < |b| ==> !LexLe(key(b[i]), key(x))
    ensures Insert(a + b, x, key) == a + [x] + b
    decreases |b|
  {
    var ab := a + b;
    if |b| == 0 {
      assert ab == a;
    } else {
      var b' := b[..|b| - 1];
      var last := b[|b| - 1];
      assert ab[..|ab| - 1] == a + b';
      assert ab[|ab| - 1] == last;
      assert !LexLe(key(last), key(x));
      assert Insert(ab, x, key) == Insert(a + b', x, key) + [last];
      InsertBetween(a, b', x, key);
      assert a + [x] + b' + [last] == a + [x] + b;
    }
  }

  /**
   * A two-valued key splits the input: sorting by `[0]` for the elements with
   * `p` and `[1]` for the rest is the stable partition "those with `p`, then
   * the others".
   */
  lemma {:induction false} SortByTwoClasses<T>(s: seq<T>, key: T -> Key, p: T -> bool)
    requires forall i :: 0 <= i < |s| ==> key(s[i]) == (if p(s[i]) then [0] else [1])
    ensures SortBy(s, key) == Select(s, p, true) + Select(s, p, false)
  {
    if |s| > 0 {
      var init := s[..|s| - 1];
      var x := s[|s| - 1];
      SortByTwoClasses(init, key, p);
      var a := Select(init, p, true);
      var b := Select(init, p, false);
      SelectKeys(init, key, p);
      assert SortBy(s, key) == Insert(a + b, x, key);
      if p(x) {
        InsertFirstClass(a, b, x, key);
        assert Select(s, p, true) == a + [x];
        assert Select(s, p, false) == b;
      } else {
        InsertSecondClass(a + b, x, key);
        assert Select(s, p, true) == a;
        assert Select(s, p, false) == b + [x];
      }
    }
  }

  /** An element keyed `[0]` goes after the `[0]` block and before the `[1]` block. */
  lemma InsertFirstClass<T>(a: seq<T>, b: seq<T>, x: T, key: T -> Key)
    requires key(x) == [0]
    requires forall i :: 0 <= i < |a| ==> key(a[i]) == [0]
    requires forall i :: 0 <= i < |b| ==> key(b[i]) == [1]
    ensures Insert(a + b, x, key) == a + [x] + b
  {
    assert |a| == 0 || LexLe(key(a[|a| - 1]), key(x)) by {
      if |a| > 0 {
        assert key(a[|a| - 1]) == [0];
        LexLeRefl([0]);
      }
    }
    assert forall i :: 0 <= i < |b| ==> !LexLe(key(b[i]), key(x)) by {
      assert !LexLe([1], [0]);
    }
    InsertBetween(a, b, x, key);
  }

  /** An element keyed `[1]` goes last among elements keyed `[0]` or `[1]`. */
  lemma InsertSecondClass<T>(ab: seq<T>, x: T, key: T -> Key)
    requires key(x) == [1]
    requires forall i :: 0 <= i < |ab| ==> key(ab[i]) == [0] || key(ab[i]) == [1]
    ensures Insert(ab, x, key) == ab + [x]
  {
    if |ab| > 0 {
      assert key(ab[|ab| - 1]) == [0] || key(ab[|ab| - 1]) == [1];
      assert LexLe([0], [1]) && LexLe([1], [1]);
    }
  }

  /** Selecting keeps everything exactly when every element has the wanted value. */
  lemma {:induction false} SelectFull<T>(s: seq<T>, p: T -> bool, want: bool)
    ensures |Select(s, p, want)| == |s| <==> forall i :: 0 <= i < |s| ==> p(s[i]) == want
  {
    if |s| > 0 {
      var init := s[..|s| - 1];
      SelectFull(init, p, want);
      if |Select(s, p, want)| == |s| {
        assert p(s[|s| - 1]) == want;
        forall i | 0 <= i < |s| ensures p(s[i]) == want {
          if i < |s| - 1 {
            assert init[i] == s[i];
          }
        }
      }
    }
  }

  /** The two selections together are as long as the input. */
  lemma {:induction false} SelectSizes<T>(s: seq<T>, p: T -> bool)
    ensures |Select(s, p, true)| + |Select(s, p, false)| == |s|
  {
    if |s| > 0 {
      SelectSizes(s[..|s| - 1], p);
    }
  }

  /** A key that sorts no later starts no higher. */
  lemma LexLeHead(a: Key, b: Key)
    requires |a| > 0 && |b| > 0 && LexLe(a, b)
    ensures a[0] <= b[0]
  {
  }

  // ---------------------------------------------------------------------
  // Text order
  // ---------------------------------------------------------------------

  /** A string as a key: its character codes. */
  function TextKey(s: string): (k: Key)
    ensures |k| == |s|
  {
    seq(|s|, i requires 0 <= i < |s| => s[i] as int)
  }

  /**
   * Ordinal comparison of two strings, the model of `localeCompare`: the first
   * differing character decides, and a proper prefix comes first.
   */
  function CompareText(a: string, b: string): int
    decreases |a|
  {
    if |a| == 0 && |b| == 0 then 0
    else if |a| == 0 then -1
    else if |b| == 0 then 1
    else if a[0] < b[0] then -1
    else if a[0] > b[0] then 1
    else CompareText(a[1..], b[1..])
  }

  /** The comparison lets `a` stay ahead of `b` exactly when `a`'s codes are not above `b`'s. */
  lemma {:induction false} CompareTextIsKeyOrder(a: string, b: string)
    ensures CompareText(a, b) <= 0 <==> LexLe(TextKey(a), TextKey(b))
    decreases |a|
  {
    if |a| > 0 && |b| > 0 {
      assert TextKey(a) == [a[0] as int] + TextKey(a[1..]);
      assert TextKey(b) == [b[0] as int] + TextKey(b[1..]);
      LexLeCons(a[0] as int, TextKey(a[1..]), b[0] as int, TextKey(b[1..]));
      CompareTextIsKeyOrder(a[1..], b[1..]);
    }
  }

  /** Equal texts, and only those, compare as 0. */
  lemma {:induction false} CompareTextZero(a: string, b: string)
    ensures CompareText(a, b) == 0 <==> a == b
    decreases |a|
  {
    if |a| > 0 && |b| > 0 {
      CompareTextZero(a[1..], b[1..]);
      if a[0] == b[0] && a[1..] == b[1..] {
        assert a == [a[0]] + a[1..] && b == [b[0]] + b[1..];
      }
    }
  }

  /** Something is selected exactly when some element has the wanted value. */
  lemma {:induction false} SelectNonEmpty<T>(s: seq<T>, p: T -> bool, want: bool)
    ensures Select(s, p, want) != [] <==> exists i :: 0 <= i < |s| && p(s[i]) == want
  {
    if |s| > 0 {
      var init := s[..|s| - 1];
      SelectNonEmpty(init, p, want);
      if exists i :: 0 <= i < |init| && p(init[i]) == want {
        var i :| 0 <= i < |init| && p(init[i]) == want;
        assert s[i] == init[i];
      }
      if exists i :: 0 <= i < |s| && p(s[i]) == want {
        var i :| 0 <= i < |s| && p(s[i]) == want;
        if i < |s| - 1 {
          assert init[i] == s[i];
        }
      }
    }
  }

  /** Two tests that agree on every element select the same elements. */
  lemma {:induction false} SelectAgree<T>(s: seq<T>, p: T -> bool, q: T -> bool, want: bool)
    requires forall i :: 0 <= i < |s| ==> p(s[i]) == q(s[i])
    ensures Select(s, p, want) == Select(s, q, want)
  {
    if |s| > 0 {
      SelectAgree(s[..|s| - 1], p, q, want);
    }
  }

  /** An element is selected exactly when it is in the input with the wanted value. */
  lemma {:induction false} SelectMembers<T>(s: seq<T>, p: T -> bool, want: bool, x: T)
    ensures x in Select(s, p, want) <==> x in s && p(x) == want
  {
    if |s| > 0 {
      var init := s[..|s| - 1];
      SelectMembers(init, p, want, x);
      assert s == init + [s[|s| - 1]];
    }
  }
}
