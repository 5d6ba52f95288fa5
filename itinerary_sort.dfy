/** The ordering step of the itinerary (src/components/Landing.tsx): `Array.prototype.sort`
    with a comparator that subtracts the keys of two entries. The sort the language
    specifies is stable, so its result is the unique stable ordering by that key; the model
    computes it by insertion sort, in place on an array as the source sorts its array.
    The key is a parameter here; the itinerary passes the start minutes of a label. */
module ItinerarySort {

  predicate SortedBy<T>(s: seq<T>, key: T -> int)
  {
    forall i, j :: 0 <= i < j < |s| ==> key(s[i]) <= key(s[j])
  }

  /** Places `x` after every trailing entry whose key is not greater than its own:
      it moves left only past strictly greater entries, which is what keeps the sort stable. */
  function Insert<T>(s: seq<T>, x: T, key: T -> int): (r: seq<T>)
    ensures multiset(r) == multiset(s) + multiset{x}
  {
    if s == [] || key(s[|s| - 1]) <= key(x) then s + [x]
    else
      assert s == s[..|s| - 1] + [s[|s| - 1]];
      Insert(s[..|s| - 1], x, key) + [s[|s| - 1]]
  }

  /** Every key of the result is at most `b` when `x`'s and those of `s` are. */
  lemma {:induction false} InsertBounded<T>(s: seq<T>, x: T, key: T -> int, b: int)
    requires forall i :: 0 <= i < |s| ==> key(s[i]) <= b
    requires key(x) <= b
    ensures forall i :: 0 <= i < |Insert(s, x, key)| ==> key(Insert(s, x, key)[i]) <= b
  {
    if s != [] && key(s[|s| - 1]) > key(x) {
      InsertBounded(s[..|s| - 1], x, key, b);
    }
  }

  /** Inserting into a sorted sequence keeps it sorted. */
  lemma {:induction false} InsertSorted<T>(s: seq<T>, x: T, key: T -> int)
    requires SortedBy(s, key)
    ensures SortedBy(Insert(s, x, key), key)
  {
    if s != [] && key(s[|s| - 1]) > key(x) {
      var init, last := s[..|s| - 1], s[|s| - 1];
      InsertSorted(init, x, key);
      InsertBounded(init, x, key, key(last));
      assert Insert(s, x, key) == Insert(init, x, key) + [last];
    }
  }

  /** The stable sort by `key`: each entry, first to last, inserted into the sorted
      entries before it. */
  function SortBy<T>(s: seq<T>, key: T -> int): (r: seq<T>)
    ensures multiset(r) == multiset(s)
    ensures SortedBy(r, key)
  {
    if s == [] then []
    else
      assert s == s[..|s| - 1] + [s[|s| - 1]];
      InsertSorted(SortBy(s[..|s| - 1], key), s[|s| - 1], key);
      Insert(SortBy(s[..|s| - 1], key), s[|s| - 1], key)
  }

  /** The entries of `s` whose key is `k`, in their order in `s`. */
  function WithKey<T>(s: seq<T>, key: T -> int, k: int): seq<T>
  {
    if s == [] then []
    else WithKey(s[..|s| - 1], key, k) + (if key(s[|s| - 1]) == k then [s[|s| - 1]] else [])
  }

  lemma {:induction false} WithKeyAppend<T>(s: seq<T>, t: seq<T>, key: T -> int, k: int)
    ensures WithKey(s + t, key, k) == WithKey(s, key, k) + WithKey(t, key, k)
  {
    if t == [] {
      assert s + t == s;
    } else {
      WithKeyAppend(s, t[..|t| - 1], key, k);
      assert (s + t)[..|s + t| - 1] == s + t[..|t| - 1];
    }
  }

  lemma {:induction false} InsertStable<T>(s: seq<T>, x: T, key: T -> int, k: int)
    ensures WithKey(Insert(s, x, key), key, k) == WithKey(s, key, k) + WithKey([x], key, k)
  {
    if s == [] || key(s[|s| - 1]) <= key(x) {
      WithKeyAppend(s, [x], key, k);
    } else {
      var init, last := s[..|s| - 1], s[|s| - 1];
      InsertStable(init, x, key, k);
      WithKeyAppend(Insert(init, x, key), [last], key, k);
      WithKeyAppend(init, [last], key, k);
      assert s == init + [last];
      assert [x][..0] == [] && [last][..0] == [];
    }
  }

  /** Stability: for every key value, the entries with that key keep their relative order. */
  lemma {:induction false} SortByStable<T>(s: seq<T>, key: T -> int, k: int)
    ensures WithKey(SortBy(s, key), key, k) == WithKey(s, key, k)
  {
    if s != [] {
      var init, last := s[..|s| - 1], s[|s| - 1];
      SortByStable(init, key, k);
      InsertStable(SortBy(init, key), last, key, k);
      assert [last][..0] == [];
      assert s == init + [last];
      WithKeyAppend(init, [last], key, k);
    }
  }

  /** Sorting one more entry inserts it into the sorted prefix. */
  lemma SortByStep<T>(s: seq<T>, i: nat, key: T -> int)
    requires i < |s|
    ensures SortBy(s[..i + 1], key) == Insert(SortBy(s[..i], key), s[i], key)
  {
    assert s[..i + 1][..i] == s[..i];
  }

  /** An entry not less than the last one is placed at the end. */
  lemma InsertAtEnd<T>(s: seq<T>, x: T, key: T -> int)
    requires s == [] || key(s[|s| - 1]) <= key(x)
    ensures Insert(s, x, key) == s + [x]
  {
  }

  /** Two sorted runs, every key of the first not above any of the second, are sorted together. */
  lemma SortedByAppend<T>(a: seq<T>, b: seq<T>, key: T -> int)
    requires SortedBy(a, key) && SortedBy(b, key)
    requires forall i, j :: 0 <= i < |a| && 0 <= j < |b| ==> key(a[i]) <= key(b[j])
    ensures SortedBy(a + b, key)
  {
    var s := a + b;
    forall i, j | 0 <= i < j < |s| ensures key(s[i]) <= key(s[j]) {
      if j < |a| {
        assert s[i] == a[i] && s[j] == a[j];
      } else if i < |a| {
        assert s[i] == a[i] && s[j] == b[j - |a|];
      } else {
        assert s[i] == b[i - |a|] && s[j] == b[j - |a|];
      }
    }
  }

  /** Dropping the last entry of a sorted sequence leaves it sorted, and that entry is not
      less than the one before it. */
  lemma SortedInit<T>(s: seq<T>, key: T -> int)
    requires s != [] && SortedBy(s, key)
    ensures SortedBy(s[..|s| - 1], key)
    ensures |s| > 1 ==> key(s[|s| - 2]) <= key(s[|s| - 1])
  {
  }

  /** An input already in order is returned unchanged. */
  lemma {:induction false} SortByOfSorted<T>(s: seq<T>, key: T -> int)
    requires SortedBy(s, key)
    ensures SortBy(s, key) == s
  {
    if s != [] {
      var n := |s| - 1;
      var init := s[..n];
      SortedInit(s, key);
      SortByOfSorted(init, key);
      InsertAtEnd(init, s[n], key);
      assert init + [s[n]] == s;
    }
  }

  /** One step of the inner loop: `x` moves left past a strictly greater entry. */
  lemma InsertPastGreater<T>(p: seq<T>, y: T, x: T, key: T -> int)
    requires key(y) > key(x)
    ensures Insert(p + [y], x, key) == Insert(p, x, key) + [y]
  {
    var s := p + [y];
    assert s[..|s| - 1] == p;
  }

  /** The state of the inner loop, on the array's contents `s`: `x` stands at `j`, the
      entries before it are the sorted prefix's first `j`, the entries after it up to `i`
      are the ones it has moved past, and the rest is untouched. */
  ghost predicate Inserting<T>(s: seq<T>, j: nat, i: nat, sorted: seq<T>, x: T, rest: seq<T>, key: T -> int)
  {
    && j <= i < |s| && |sorted| == i
    && s[j] == x
    && s[..j] == sorted[..j]
    && Insert(sorted, x, key) == Insert(s[..j], x, key) + s[j + 1..i + 1]
    && s[i + 1..] == rest
  }

  lemma InsertingStep<T>(s: seq<T>, j: nat, i: nat, sorted: seq<T>, x: T, rest: seq<T>, key: T -> int)
    requires Inserting(s, j, i, sorted, x, rest, key)
    requires j > 0 && key(s[j - 1]) > key(s[j])
    ensures Inserting(s[j - 1 := s[j]][j := s[j - 1]], j - 1, i, sorted, x, rest, key)
  {
    var t := s[j - 1 := s[j]][j := s[j - 1]];
    assert s[..j] == s[..j - 1] + [s[j - 1]];
    InsertPastGreater(s[..j - 1], s[j - 1], x, key);
    assert t[..j - 1] == s[..j - 1];
    assert t[j..i + 1] == [s[j - 1]] + s[j + 1..i + 1];
    assert t[i + 1..] == s[i + 1..];
  }

  lemma InsertingDone<T>(s: seq<T>, j: nat, i: nat, sorted: seq<T>, x: T, rest: seq<T>, key: T -> int)
    requires Inserting(s, j, i, sorted, x, rest, key)
    requires j == 0 || key(s[j - 1]) <= key(s[j])
    ensures s[..i + 1] == Insert(sorted, x, key)
  {
    assert s[..i + 1] == s[..j] + [x] + s[j + 1..i + 1];
    if j > 0 {
      assert s[..j][j - 1] == s[j - 1];
    }
  }

  /** The inner loop: the entry at `i` moves left into the sorted prefix before it. */
  method InsertAt<T>(a: array<T>, i: nat, key: T -> int)
    requires i < a.Length
    modifies a
    ensures a[..i + 1] == Insert(old(a[..i]), old(a[i]), key)
    ensures a[i + 1..] == old(a[i + 1..])
  {
    ghost var sorted, x, rest := a[..i], a[i], a[i + 1..];
    var j := i;
    while j > 0 && key(a[j - 1]) > key(a[j])
      invariant Inserting(a[..], j, i, sorted, x, rest, key)
    {
      ghost var s := a[..];
      InsertingStep(s, j, i, sorted, x, rest, key);
      a[j - 1], a[j] := a[j], a[j - 1];
      assert a[..] == s[j - 1 := s[j]][j := s[j - 1]];
      j := j - 1;
    }
    InsertingDone(a[..], j, i, sorted, x, rest, key);
  }

  /** The in-place insertion sort: afterwards the array holds the stable sort of what it held. */
  method SortInPlace<T>(a: array<T>, key: T -> int)
    modifies a
    ensures a[..] == SortBy(old(a[..]), key)
  {
    ghost var s := a[..];
    var i := 0;
    while i < a.Length
      invariant 0 <= i <= a.Length && |s| == a.Length
      invariant a[..i] == SortBy(s[..i], key)
      invariant a[i..] == s[i..]
    {
      assert a[i] == s[i] by {
        assert a[i] == a[i..][0] && s[i] == s[i..][0];
      }
      assert a[i + 1..] == s[i + 1..] by {
        assert a[i + 1..] == a[i..][1..] && s[i + 1..] == s[i..][1..];
      }
      SortByStep(s, i, key);
      InsertAt(a, i, key);
      i := i + 1;
    }
    assert a[..] == a[..a.Length];
    assert s == s[..a.Length];
  }
}
