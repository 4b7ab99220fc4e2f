/**
 * The merge step of the snippet memory, stated over any items and any key
 * the items are compared by. The buffer holds keys; a search returns items;
 * an item enters when its key is neither buffered nor the key of an earlier
 * item of the same search. After the loop the new keys stand in front, last
 * found first, and the buffer is cut to its capacity with a Python slice.
 */
module Window {

  predicate NoDup<T(==)>(s: seq<T>) {
    forall i, j :: 0 <= i < j < |s| ==> s[i] != s[j]
  }

  /** Python's `list(reversed(s))`. */
  function Reverse<T>(s: seq<T>): seq<T> {
    seq(|s|, i requires 0 <= i < |s| => s[|s| - 1 - i])
  }

  /**
   * Python's slice `s[:k]`: the first `k` elements, or all of them when
   * there are fewer; a negative `k` drops `-k` elements from the end.
   */
  function PyPrefix<T>(s: seq<T>, k: int): (r: seq<T>)
    ensures |r| <= |s| && r == s[..|r|]
    ensures k >= 0 ==> |r| == if k < |s| then k else |s|
    ensures k < 0 ==> |r| == if |s| + k > 0 then |s| + k else 0
  {
    if k >= 0 then (if k < |s| then s[..k] else s)
    else if |s| + k > 0 then s[..|s| + k]
    else []
  }

  /** The key of every item, in order. */
  function Map<T, K>(key: T -> K, xs: seq<T>): seq<K> {
    seq(|xs|, i requires 0 <= i < |xs| => key(xs[i]))
  }

  /**
   * The items that enter the buffer, in search order: those whose key is
   * neither in `seen` nor the key of an earlier item of the same search.
   */
  function Unseen<T, K(==)>(key: T -> K, seen: seq<K>, xs: seq<T>): seq<T>
    decreases |xs|
  {
    if xs == [] then []
    else
      var init, x := xs[..|xs| - 1], xs[|xs| - 1];
      Unseen(key, seen, init) +
        (if key(x) in seen || key(x) in Map(key, init) then [] else [x])
  }

  /** The buffer after one merge of the items `xs` into `prev`, with capacity `k`. */
  function Merge<T, K(==)>(key: T -> K, prev: seq<K>, xs: seq<T>, k: int): seq<K> {
    PyPrefix(Reverse(Map(key, Unseen(key, prev, xs))) + prev, k)
  }

  /** Reversing twice gives the list back, as the merge's second reversal relies on. */
  lemma ReverseReverse<T>(s: seq<T>)
    ensures Reverse(Reverse(s)) == s
  {
  }

  lemma MapAppend<T, K>(key: T -> K, a: seq<T>, b: seq<T>)
    ensures Map(key, a + b) == Map(key, a) + Map(key, b)
  {
  }

  lemma MapOne<T, K>(key: T -> K, x: T)
    ensures Map(key, [x]) == [key(x)]
  {
  }

  /** Appending one item to a buffer whose tail holds the keys of `u`. */
  lemma MapSnoc<T, K>(key: T -> K, front: seq<K>, u: seq<T>, x: T)
    ensures front + Map(key, u + [x]) == front + Map(key, u) + [key(x)]
  {
    MapAppend(key, u, [x]);
    MapOne(key, x);
  }

  lemma MapReverse<T, K>(key: T -> K, xs: seq<T>)
    ensures Map(key, Reverse(xs)) == Reverse(Map(key, xs))
  {
  }

  lemma MapPrefix<T, K>(key: T -> K, xs: seq<T>, k: int)
    ensures Map(key, PyPrefix(xs, k)) == PyPrefix(Map(key, xs), k)
  {
  }

  lemma ReverseMembers<T>(s: seq<T>)
    ensures |Reverse(s)| == |s|
    ensures forall x :: x in Reverse(s) <==> x in s
  {
    forall x | x in s
      ensures x in Reverse(s)
    {
      var i :| 0 <= i < |s| && s[i] == x;
      assert Reverse(s)[|s| - 1 - i] == x;
    }
  }

  /**
   * Undoing the first reversal after appending puts the appended part,
   * reversed, in front of the original, for the items and for any of their
   * projections.
   */
  lemma ReverseAppend<T, K>(f: T -> K, a: seq<T>, b: seq<T>)
    ensures Reverse(Reverse(a) + b) == Reverse(b) + a
    ensures Reverse(Map(f, Reverse(a) + b)) == Reverse(Map(f, b)) + Map(f, a)
  {
    MapAppend(f, Reverse(a), b);
    MapReverse(f, a);
  }

  /** Only which keys the buffer holds matters to a merge, not their order. */
  lemma {:induction false} UnseenSameMembers<T, K>(key: T -> K, s1: seq<K>, s2: seq<K>, xs: seq<T>)
    requires forall y :: y in s1 <==> y in s2
    ensures Unseen(key, s1, xs) == Unseen(key, s2, xs)
    decreases |xs|
  {
    if xs != [] {
      UnseenSameMembers(key, s1, s2, xs[..|xs| - 1]);
    }
  }

  /**
   * The buffer grows only by keys of this search that are new to it: no
   * entering key was in `seen`, no two are equal, and every key of the
   * search is either among them or already in `seen`.
   */
  lemma {:induction false} UnseenCover<T, K>(key: T -> K, seen: seq<K>, xs: seq<T>)
    ensures forall y :: y in Map(key, Unseen(key, seen, xs)) ==> y in Map(key, xs) && y !in seen
    ensures forall y :: y in Map(key, xs) ==> y in seen || y in Map(key, Unseen(key, seen, xs))
    ensures NoDup(Map(key, Unseen(key, seen, xs)))
    decreases |xs|
  {
    if xs != [] {
      var init, x := xs[..|xs| - 1], xs[|xs| - 1];
      assert xs == init + [x];
      UnseenCover(key, seen, init);
      var u0 := Unseen(key, seen, init);
      var extra := if key(x) in seen || key(x) in Map(key, init) then [] else [x];
      assert Unseen(key, seen, xs) == u0 + extra;
      MapAppend(key, u0, extra);
      MapAppend(key, init, [x]);
    }
  }

  /**
   * One step of the loop: the item at `i` enters exactly when its key is in
   * neither the old buffer nor the part already merged.
   */
  lemma UnseenStep<T, K>(key: T -> K, seen: seq<K>, xs: seq<T>, i: nat)
    requires i < |xs|
    ensures var u := Unseen(key, seen, xs[..i]);
      Unseen(key, seen, xs[..i + 1]) ==
        u + (if key(xs[i]) in seen + Map(key, u) then [] else [xs[i]])
  {
    var init := xs[..i + 1][..i];
    assert init == xs[..i];
    assert xs[..i + 1][i] == xs[i];
    UnseenCover(key, seen, xs[..i]);
  }

  /** No item enters exactly when every item's key is already buffered. */
  lemma UnseenEmpty<T, K>(key: T -> K, seen: seq<K>, xs: seq<T>)
    ensures Unseen(key, seen, xs) == [] <==> forall x :: x in xs ==> key(x) in seen
  {
    UnseenCover(key, seen, xs);
    forall x | x in xs
      ensures key(x) in Map(key, xs)
    {
      var i :| 0 <= i < |xs| && xs[i] == x;
      assert Map(key, xs)[i] == key(x);
    }
    if Unseen(key, seen, xs) != [] {
      var u := Unseen(key, seen, xs);
      assert Map(key, u)[0] in Map(key, u);
      var j :| 0 <= j < |xs| && Map(key, xs)[j] == Map(key, u)[0];
      assert xs[j] in xs;
    }
  }

  /** After a merge the buffer holds at most `k` keys; with `k == 0` it is empty. */
  lemma MergeBound<T, K>(key: T -> K, prev: seq<K>, xs: seq<T>, k: int)
    requires k >= 0
    ensures |Merge(key, prev, xs, k)| <= k
    ensures k == 0 ==> Merge(key, prev, xs, k) == []
  {
  }

  lemma PrefixNoDup<T>(s: seq<T>, k: int)
    requires NoDup(s)
    ensures NoDup(PyPrefix(s, k))
  {
  }

  /** Two duplicate-free sequences with no common element concatenate to one. */
  lemma DisjointNoDup<T>(a: seq<T>, b: seq<T>)
    requires NoDup(a) && NoDup(b)
    requires forall y :: y in a ==> y !in b
    ensures NoDup(a + b)
  {
    var all := a + b;
    forall i, j | 0 <= i < j < |all|
      ensures all[i] != all[j]
    {
      if i < |a| <= j {
        assert all[i] in a;
        assert all[j] == b[j - |a|];
      }
    }
  }

  lemma ReverseNoDup<T>(s: seq<T>)
    requires NoDup(s)
    ensures NoDup(Reverse(s))
  {
    var r := Reverse(s);
    forall i, j | 0 <= i < j < |r|
      ensures r[i] != r[j]
    {
      assert r[i] == s[|s| - 1 - i] && r[j] == s[|s| - 1 - j];
    }
  }

  /** A merge keeps the buffer free of duplicates, even when one search returns the same item twice. */
  lemma MergeNoDup<T, K>(key: T -> K, prev: seq<K>, xs: seq<T>, k: int)
    requires NoDup(prev)
    ensures NoDup(Merge(key, prev, xs, k))
  {
    var u := Map(key, Unseen(key, prev, xs));
    UnseenCover(key, prev, xs);
    ReverseMembers(u);
    ReverseNoDup(u);
    DisjointNoDup(Reverse(u), prev);
    PrefixNoDup(Reverse(u) + prev, k);
  }

  /**
   * The shape of a merged buffer with `n` entering keys: first the entering
   * keys, last found first, none of which was in the old buffer; then the
   * old buffer's own first entries, in their old order.
   */
  lemma MergeShape<T, K>(key: T -> K, prev: seq<K>, xs: seq<T>, k: int)
    requires k >= 0
    ensures var u := Map(key, Unseen(key, prev, xs));
      var r := Merge(key, prev, xs, k);
      var n := if |u| < k then |u| else k;
      n <= |r| &&
      (forall i :: 0 <= i < n ==> r[i] == u[|u| - 1 - i] && r[i] !in prev) &&
      r[n..] == prev[..|r| - n]
  {
    var u := Map(key, Unseen(key, prev, xs));
    UnseenCover(key, prev, xs);
    var all := Reverse(u) + prev;
    var r := Merge(key, prev, xs, k);
    var n := if |u| < k then |u| else k;
    assert r == all[..|r|];
    forall i | 0 <= i < n
      ensures r[i] == u[|u| - 1 - i] && r[i] !in prev
    {
      assert all[i] == u[|u| - 1 - i];
      assert u[|u| - 1 - i] in u;
    }
    assert r[n..] == all[n..|r|];
    assert all[n..|r|] == prev[..|r| - n] by {
      if n < |u| {
        assert |r| == n;
      }
    }
  }

  /**
   * When every item is already buffered (or there are none), a merge only
   * truncates: the buffer keeps its order, and does not change at all when
   * it already fits in `k`.
   */
  lemma MergeNothingNew<T, K>(key: T -> K, prev: seq<K>, xs: seq<T>, k: int)
    requires forall x :: x in xs ==> key(x) in prev
    ensures Merge(key, prev, xs, k) == PyPrefix(prev, k)
    ensures 0 <= |prev| <= k ==> Merge(key, prev, xs, k) == prev
  {
    UnseenEmpty(key, prev, xs);
    assert Reverse(Map(key, Unseen(key, prev, xs))) + prev == prev;
  }

  predicate Distinct4<T, K(==)>(key: T -> K, a: T, b: T, c: T, d: T) {
    NoDup([key(a), key(b), key(c), key(d)])
  }

  /** Merging one more item: it enters exactly when its key is buffered nowhere yet. */
  lemma UnseenSnoc<T, K>(key: T -> K, seen: seq<K>, xs: seq<T>, x: T)
    ensures var u := Unseen(key, seen, xs);
      Unseen(key, seen, xs + [x]) == u + (if key(x) in seen + Map(key, u) then [] else [x])
  {
    var ys := xs + [x];
    assert ys[..|ys| - 1] == xs && ys[|ys| - 1] == x;
    UnseenCover(key, seen, xs);
  }

  lemma Distinct4Pairs<T, K>(key: T -> K, a: T, b: T, c: T, d: T)
    requires Distinct4(key, a, b, c, d)
    ensures key(a) != key(b) && key(a) != key(c) && key(a) != key(d)
    ensures key(b) != key(c) && key(b) != key(d) && key(c) != key(d)
  {
    var ks := [key(a), key(b), key(c), key(d)];
    assert ks[0] == key(a) && ks[1] == key(b) && ks[2] == key(c) && ks[3] == key(d);
  }

  lemma UnseenOfFour<T, K>(key: T -> K, seen: seq<K>, a: T, b: T, c: T, d: T)
    requires Distinct4(key, a, b, c, d)
    requires key(a) !in seen && key(b) !in seen && key(c) !in seen && key(d) !in seen
    ensures Unseen(key, seen, [a, b, c, d]) == [a, b, c, d]
  {
    Distinct4Pairs(key, a, b, c, d);
    var none: seq<T> := [];
    assert Unseen(key, seen, none) == [];
    UnseenSnoc(key, seen, none, a);
    assert none + [a] == [a];
    assert Unseen(key, seen, [a]) == [a];
    UnseenSnoc(key, seen, [a], b);
    assert [a] + [b] == [a, b];
    assert Map(key, [a]) == [key(a)];
    assert Unseen(key, seen, [a, b]) == [a, b];
    UnseenSnoc(key, seen, [a, b], c);
    assert [a, b] + [c] == [a, b, c];
    assert Map(key, [a, b]) == [key(a), key(b)];
    assert Unseen(key, seen, [a, b, c]) == [a, b, c];
    UnseenSnoc(key, seen, [a, b, c], d);
    assert [a, b, c] + [d] == [a, b, c, d];
    assert Map(key, [a, b, c]) == [key(a), key(b), key(c)];
  }

  /** An empty buffer of size 3 given four new items A, B, C, D keeps D, C, B: the first item is dropped. */
  lemma MergeIntoEmpty<T, K>(key: T -> K, a: T, b: T, c: T, d: T)
    requires Distinct4(key, a, b, c, d)
    ensures Merge(key, [], [a, b, c, d], 3) == [key(d), key(c), key(b)]
  {
    UnseenOfFour(key, [], a, b, c, d);
  }

  /** A full buffer A, B, C of size 3 given one new item D becomes D, A, B: C is evicted. */
  lemma MergeEvictsOldest<T, K>(key: T -> K, a: T, b: T, c: T, d: T)
    requires Distinct4(key, a, b, c, d)
    ensures Merge(key, [key(a), key(b), key(c)], [d], 3) == [key(d), key(a), key(b)]
  {
    Distinct4Pairs(key, a, b, c, d);
    var seen := [key(a), key(b), key(c)];
    var none: seq<T> := [];
    assert Unseen(key, seen, none) == [];
    UnseenSnoc(key, seen, none, d);
    assert none + [d] == [d];
    assert Unseen(key, seen, [d]) == [d];
    assert Map(key, [d]) == [key(d)];
  }

  /**
   * Merging the same search twice need not leave the buffer unchanged: with
   * more new items than room, the item dropped the first time enters the
   * second time.
   */
  lemma MergeTwiceDiffers<T, K>(key: T -> K, a: T, b: T, c: T, d: T)
    requires Distinct4(key, a, b, c, d)
    ensures var once := Merge(key, [], [a, b, c, d], 3);
      Merge(key, once, [a, b, c, d], 3) == [key(a), key(d), key(c)] &&
      Merge(key, once, [a, b, c, d], 3) != once
  {
    MergeIntoEmpty(key, a, b, c, d);
    Distinct4Pairs(key, a, b, c, d);
    var once := [key(d), key(c), key(b)];
    var none: seq<T> := [];
    assert Unseen(key, once, none) == [];
    UnseenSnoc(key, once, none, a);
    assert none + [a] == [a];
    assert Unseen(key, once, [a]) == [a];
    UnseenSnoc(key, once, [a], b);
    assert [a] + [b] == [a, b];
    assert Unseen(key, once, [a, b]) == [a];
    UnseenSnoc(key, once, [a, b], c);
    assert [a, b] + [c] == [a, b, c];
    assert Unseen(key, once, [a, b, c]) == [a];
    UnseenSnoc(key, once, [a, b, c], d);
    assert [a, b, c] + [d] == [a, b, c, d];
    assert Unseen(key, once, [a, b, c, d]) == [a];
  }
}
