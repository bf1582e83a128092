/** The abstract contents of a skip list: the (key, value) pairs met along its
    level-0 chain, in chain order. Equal keys may repeat: the skip list is an
    ordered multimap. This module states, on plain sequences, what insertion,
    erasure and search do to these contents. */
module EntryList {

  type Entry<V> = (int, V)

  datatype Option<T> = None | Some(value: T)

  /** Keys never decrease along the sequence; equal keys may sit side by side. */
  ghost predicate SortedKeys<V>(c: seq<Entry<V>>)
  {
    forall a, b :: 0 <= a < b < |c| ==> c[a].0 <= c[b].0
  }

  ghost predicate HasKey<V>(c: seq<Entry<V>>, k: int)
  {
    exists t :: 0 <= t < |c| && c[t].0 == k
  }

  /** The number of entries whose key is k. */
  function KeyCount<V>(c: seq<Entry<V>>, k: int): nat
  {
    if c == [] then 0 else (if c[0].0 == k then 1 else 0) + KeyCount(c[1..], k)
  }

  /** The first index whose key is not below k (|c| when there is none). */
  function LowerBound<V>(c: seq<Entry<V>>, k: int): (p: nat)
    ensures p <= |c|
    ensures forall t :: 0 <= t < p ==> c[t].0 < k
    ensures p < |c| ==> c[p].0 >= k
  {
    if c == [] || c[0].0 >= k then 0 else 1 + LowerBound(c[1..], k)
  }

  /** Contents after inserting (k, v): the new entry goes after every key below
      k and before every other entry, including the entries whose key is k. */
  function InsertEntry<V>(c: seq<Entry<V>>, k: int, v: V): seq<Entry<V>>
  {
    var p := LowerBound(c, k);
    c[..p] + [(k, v)] + c[p..]
  }

  /** Contents after erasing k, and the entry taken out: the entry at the lower
      bound of k is removed when its key is k; otherwise nothing changes. */
  function EraseEntry<V>(c: seq<Entry<V>>, k: int): (seq<Entry<V>>, Option<Entry<V>>)
  {
    var p := LowerBound(c, k);
    if p < |c| && c[p].0 == k then (c[..p] + c[p + 1..], Some(c[p])) else (c, None)
  }

  lemma {:induction false} KeyCountConcat<V>(a: seq<Entry<V>>, b: seq<Entry<V>>, k: int)
    ensures KeyCount(a + b, k) == KeyCount(a, k) + KeyCount(b, k)
  {
    if a == [] {
      assert a + b == b;
    } else {
      assert (a + b)[1..] == a[1..] + b;
      KeyCountConcat(a[1..], b, k);
    }
  }

  /** Putting one entry x between a and b adds one to the count of x's key only. */
  lemma KeyCountSplice<V>(a: seq<Entry<V>>, x: Entry<V>, b: seq<Entry<V>>, k: int)
    ensures KeyCount(a + [x] + b, k) == KeyCount(a + b, k) + (if x.0 == k then 1 else 0)
  {
    KeyCountConcat(a + [x], b, k);
    KeyCountConcat(a, [x], k);
    KeyCountConcat(a, b, k);
    assert [x][1..] == [];
  }

  /** k has at least one entry exactly when its count is positive. */
  lemma {:induction false} KeyCountPositive<V>(c: seq<Entry<V>>, k: int)
    ensures KeyCount(c, k) > 0 <==> HasKey(c, k)
  {
    if c != [] {
      KeyCountPositive(c[1..], k);
      if HasKey(c[1..], k) {
        var t :| 0 <= t < |c[1..]| && c[1..][t].0 == k;
        assert c[t + 1].0 == k;
      }
      if HasKey(c, k) && c[0].0 != k {
        var t :| 0 <= t < |c| && c[t].0 == k;
        assert c[1..][t - 1].0 == k;
      }
    }
  }

  /** On sorted contents every entry from the lower bound on has a key >= k,
      so the lower bound is the first entry with key k whenever there is one. */
  lemma LowerBoundSorted<V>(c: seq<Entry<V>>, k: int)
    requires SortedKeys(c)
    ensures forall t :: LowerBound(c, k) <= t < |c| ==> c[t].0 >= k
    ensures HasKey(c, k) <==> LowerBound(c, k) < |c| && c[LowerBound(c, k)].0 == k
  {
    var p := LowerBound(c, k);
    if HasKey(c, k) {
      var t :| 0 <= t < |c| && c[t].0 == k;
      assert p <= t;
    }
  }

  /** Insertion puts (k, v) at the lower bound of k and keeps every old entry,
      in order, around it. */
  lemma InsertEntryShape<V>(c: seq<Entry<V>>, k: int, v: V)
    ensures var r, p := InsertEntry(c, k, v), LowerBound(c, k);
      && |r| == |c| + 1 && r[p] == (k, v)
      && r[..p] == c[..p] && r[p + 1..] == c[p..]
      && (forall t :: 0 <= t < p ==> r[t] == c[t])
      && (forall t :: p < t < |r| ==> r[t] == c[t - 1])
  {
    var r, p := InsertEntry(c, k, v), LowerBound(c, k);
    assert r[p + 1..] == c[p..];
    assert r[..p] == c[..p];
  }

  /** Insertion keeps the contents sorted: every key before the new entry is
      below k and every key after it is at least k. */
  lemma InsertEntrySorted<V>(c: seq<Entry<V>>, k: int, v: V)
    requires SortedKeys(c)
    ensures var r, p := InsertEntry(c, k, v), LowerBound(c, k);
      && (forall t :: 0 <= t < p ==> r[t].0 < k)
      && (forall t :: p < t < |r| ==> r[t].0 >= k)
      && SortedKeys(r)
  {
    var r, p := InsertEntry(c, k, v), LowerBound(c, k);
    LowerBoundSorted(c, k);
    InsertEntryShape(c, k, v);
    forall a, b | 0 <= a < b < |r| ensures r[a].0 <= r[b].0 {
      if b < p {
        assert r[a] == c[a] && r[b] == c[b];
      } else if a > p {
        assert r[a] == c[a - 1] && r[b] == c[b - 1];
      } else if a < p {
        assert r[a] == c[a];
      } else {
        assert r[b] == c[b - 1];
      }
    }
  }

  /** Insertion adds one entry for key k and none for any other key: a
      duplicate key is kept as a separate entry, never merged. */
  lemma InsertEntryCounts<V>(c: seq<Entry<V>>, k: int, v: V)
    ensures KeyCount(InsertEntry(c, k, v), k) == KeyCount(c, k) + 1
    ensures forall k' :: k' != k ==> KeyCount(InsertEntry(c, k, v), k') == KeyCount(c, k')
  {
    var p := LowerBound(c, k);
    assert c == c[..p] + c[p..];
    forall k' ensures KeyCount(InsertEntry(c, k, v), k') == KeyCount(c, k') + (if k' == k then 1 else 0) {
      KeyCountSplice(c[..p], (k, v), c[p..], k');
    }
  }

  /** Erasure on sorted contents finds the FIRST entry with key k: it takes no
      entry exactly when k is absent, and then nothing changes. */
  lemma EraseEntryFindsFirst<V>(c: seq<Entry<V>>, k: int)
    requires SortedKeys(c)
    ensures var (r, e), p := EraseEntry(c, k), LowerBound(c, k);
      && (e.None? <==> !HasKey(c, k))
      && (e.None? ==> r == c)
      && (e.Some? ==>
            && p < |c| && e.value == c[p] && e.value.0 == k
            && (forall t :: 0 <= t < p ==> c[t].0 != k))
  {
    LowerBoundSorted(c, k);
  }

  /** Taking out the entry at position p of a key-sorted sequence shifts the
      later entries down by one and leaves it key-sorted. */
  lemma SortedRemove<V>(c: seq<Entry<V>>, p: nat)
    requires SortedKeys(c) && p < |c|
    ensures var r := c[..p] + c[p + 1..];
      && |r| == |c| - 1
      && (forall t :: 0 <= t < p ==> r[t] == c[t])
      && (forall t :: p <= t < |r| ==> r[t] == c[t + 1])
      && SortedKeys(r)
  {
    var r := c[..p] + c[p + 1..];
    assert forall t :: 0 <= t < p ==> r[t] == c[t];
    assert forall t :: p <= t < |r| ==> r[t] == c[t + 1];
    forall a, b | 0 <= a < b < |r| ensures r[a].0 <= r[b].0 {
      var a', b' := if a < p then a else a + 1, if b < p then b else b + 1;
      assert r[a] == c[a'] && r[b] == c[b'];
    }
  }

  /** When an entry is taken out, the others keep their order and stay sorted. */
  lemma EraseEntryShape<V>(c: seq<Entry<V>>, k: int)
    requires SortedKeys(c)
    ensures var (r, e), p := EraseEntry(c, k), LowerBound(c, k);
      e.Some? ==>
        && r == c[..p] + c[p + 1..] && |r| == |c| - 1
        && (forall t :: 0 <= t < p ==> r[t] == c[t])
        && (forall t :: p <= t < |r| ==> r[t] == c[t + 1])
        && SortedKeys(r)
  {
    var p := LowerBound(c, k);
    if p < |c| && c[p].0 == k {
      SortedRemove(c, p);
    }
  }

  /** Taking an entry out removes one entry of key k and none of another key. */
  lemma EraseEntryCounts<V>(c: seq<Entry<V>>, k: int)
    ensures var (r, e) := EraseEntry(c, k);
      && (e.Some? ==> KeyCount(r, k) == KeyCount(c, k) - 1)
      && (forall k' :: k' != k ==> KeyCount(r, k') == KeyCount(c, k'))
  {
    var p := LowerBound(c, k);
    if p < |c| && c[p].0 == k {
      var r := c[..p] + c[p + 1..];
      assert c == c[..p] + [c[p]] + c[p + 1..];
      forall k' ensures KeyCount(c, k') == KeyCount(r, k') + (if k' == k then 1 else 0) {
        KeyCountSplice(c[..p], c[p], c[p + 1..], k');
      }
    }
  }

  /** Round trip: erasing k right after inserting (k, v) takes out exactly the
      entry just inserted and restores the old contents. */
  lemma InsertThenErase<V>(c: seq<Entry<V>>, k: int, v: V)
    requires SortedKeys(c)
    ensures EraseEntry(InsertEntry(c, k, v), k) == (c, Some((k, v)))
    ensures LowerBound(InsertEntry(c, k, v), k) == LowerBound(c, k)
  {
    var r, p := InsertEntry(c, k, v), LowerBound(c, k);
    InsertEntryShape(c, k, v);
    InsertEntrySorted(c, k, v);
    var q := LowerBound(r, k);
    assert r[p].0 == k;
    assert q == p;
    assert r[..p] + r[p + 1..] == c[..p] + c[p..];
    assert c[..p] + c[p..] == c;
  }

  /** Right after inserting (k, v), k is found. */
  lemma InsertThenFound<V>(c: seq<Entry<V>>, k: int, v: V)
    ensures HasKey(InsertEntry(c, k, v), k)
  {
    InsertEntryCounts(c, k, v);
    KeyCountPositive(InsertEntry(c, k, v), k);
  }

  /** After an erasure k is gone exactly when it had at most one entry. */
  lemma EraseThenMissing<V>(c: seq<Entry<V>>, k: int)
    requires SortedKeys(c)
    ensures !HasKey(EraseEntry(c, k).0, k) <==> KeyCount(c, k) <= 1
  {
    EraseEntryFindsFirst(c, k);
    EraseEntryCounts(c, k);
    KeyCountPositive(c, k);
    KeyCountPositive(EraseEntry(c, k).0, k);
  }

  lemma NoKey<V>(c: seq<Entry<V>>, k: int)
    requires forall t :: 0 <= t < |c| ==> c[t].0 != k
    ensures !HasKey(c, k)
  {
  }

  /** The lower bound is the only index with its defining property. */
  lemma LowerBoundIs<V>(c: seq<Entry<V>>, k: int, p: nat)
    requires p <= |c| && (forall t :: 0 <= t < p ==> c[t].0 < k) && (p < |c| ==> c[p].0 >= k)
    ensures LowerBound(c, k) == p
  {
  }

  /** Inserting (k, v) where the lower bound of k is p puts it at p. */
  lemma InsertAt<V>(c: seq<Entry<V>>, k: int, v: V, p: nat)
    requires p <= |c| && (forall t :: 0 <= t < p ==> c[t].0 < k) && (p < |c| ==> c[p].0 >= k)
    ensures InsertEntry(c, k, v) == c[..p] + [(k, v)] + c[p..]
  {
    LowerBoundIs(c, k, p);
  }

  // The five insertions of the scenario below, one step at a time: keys 3,
  // 1, 4, 1 and 5, each with its key as value. A new entry goes before the
  // entries of its own key.

  lemma ScenarioInsert3()
    ensures InsertEntry([], 3, 3) == [(3, 3)]
  {
    var c: seq<Entry<int>> := [];
    InsertAt(c, 3, 3, 0);
    assert c[..0] + [(3, 3)] + c[0..] == [(3, 3)];
  }

  lemma ScenarioInsert1()
    ensures InsertEntry([(3, 3)], 1, 1) == [(1, 1), (3, 3)]
  {
    var c: seq<Entry<int>> := [(3, 3)];
    InsertAt(c, 1, 1, 0);
    assert c[..0] + [(1, 1)] + c[0..] == [(1, 1), (3, 3)];
  }

  lemma ScenarioInsert4()
    ensures InsertEntry([(1, 1), (3, 3)], 4, 4) == [(1, 1), (3, 3), (4, 4)]
  {
    var c: seq<Entry<int>> := [(1, 1), (3, 3)];
    InsertAt(c, 4, 4, 2);
    assert c[..2] + [(4, 4)] + c[2..] == [(1, 1), (3, 3), (4, 4)];
  }

  lemma ScenarioInsert1Again()
    ensures InsertEntry([(1, 1), (3, 3), (4, 4)], 1, 1) == [(1, 1), (1, 1), (3, 3), (4, 4)]
    ensures LowerBound([(1, 1), (3, 3), (4, 4)], 1) == 0
  {
    var c: seq<Entry<int>> := [(1, 1), (3, 3), (4, 4)];
    InsertAt(c, 1, 1, 0);
    assert c[..0] + [(1, 1)] + c[0..] == [(1, 1), (1, 1), (3, 3), (4, 4)];
  }

  lemma ScenarioInsert5()
    ensures InsertEntry([(1, 1), (1, 1), (3, 3), (4, 4)], 5, 5) == [(1, 1), (1, 1), (3, 3), (4, 4), (5, 5)]
  {
    var c: seq<Entry<int>> := [(1, 1), (1, 1), (3, 3), (4, 4)];
    InsertAt(c, 5, 5, 4);
    assert c[..4] + [(5, 5)] + c[4..] == [(1, 1), (1, 1), (3, 3), (4, 4), (5, 5)];
  }

  /** The two erasures of key 1 in the scenario below. */
  lemma ScenarioErases()
    ensures EraseEntry([(1, 1), (1, 1), (3, 3), (4, 4), (5, 5)], 1) == ([(1, 1), (3, 3), (4, 4), (5, 5)], Some((1, 1)))
    ensures EraseEntry([(1, 1), (3, 3), (4, 4), (5, 5)], 1) == ([(3, 3), (4, 4), (5, 5)], Some((1, 1)))
  {
    var c5 := [(1, 1), (1, 1), (3, 3), (4, 4), (5, 5)];
    var c6 := [(1, 1), (3, 3), (4, 4), (5, 5)];
    assert EraseEntry(c5, 1) == (c6, Some((1, 1))) by {
      assert LowerBound(c5, 1) == 0;
      assert c5[0] == (1, 1) && c5[..0] + c5[1..] == c6;
    }
    var c7 := [(3, 3), (4, 4), (5, 5)];
    assert EraseEntry(c6, 1) == (c7, Some((1, 1))) by {
      assert LowerBound(c6, 1) == 0;
      assert c6[0] == (1, 1) && c6[..0] + c6[1..] == c7;
    }
  }

  /** The lookups of the scenario with maximal level 4 (insert keys 3, 1, 4,
      1, 5 with value = key, then erase 1 twice): after the inserts there are
      five entries and 4 is found; after the first erase four entries remain
      and 1 is still found (its duplicate); after the second three remain and
      1 is gone. */
  lemma Scenario()
    ensures var c5 := [(1, 1), (1, 1), (3, 3), (4, 4), (5, 5)]; |c5| == 5 && HasKey(c5, 4)
    ensures var c6 := [(1, 1), (3, 3), (4, 4), (5, 5)]; |c6| == 4 && HasKey(c6, 1)
    ensures var c7: seq<Entry<int>> := [(3, 3), (4, 4), (5, 5)]; |c7| == 3 && !HasKey(c7, 1)
  {
    var c5 := [(1, 1), (1, 1), (3, 3), (4, 4), (5, 5)];
    var c6 := [(1, 1), (3, 3), (4, 4), (5, 5)];
    var c7 := [(3, 3), (4, 4), (5, 5)];
    assert c5[3].0 == 4;
    assert c6[0].0 == 1;
    NoKey(c7, 1);
  }
}
