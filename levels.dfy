/** The link structure of a skip list, stated over plain values: the arena's
    node records `nodes`, their forward vectors `fwd`, and the ghost level-0
    order `E` of the live nodes (the head excluded).

    The level-i chain is the subsequence of E made of the nodes whose level
    exceeds i. `LevelLinked` says that every forward slot on level i of the
    head and of the live nodes points at the next node of that chain, or is
    null at its end. The splice lemmas are the proof steps of one pass of the
    insert and erase loops. */
module Levels {
  import opened Nodes
  import opened EntryList

  /** Every handle of s is a node of the arena other than the head. */
  ghost predicate InArena<V>(nodes: seq<Node<V>>, s: seq<Handle>)
  {
    forall t :: 0 <= t < |s| ==> 0 < s[t] < |nodes|
  }

  ghost predicate Distinct(s: seq<Handle>)
  {
    forall a, b :: 0 <= a < b < |s| ==> s[a] != s[b]
  }

  /** The node at position q of the order with the head in front: the head
      for q = 0, otherwise E[q - 1]. */
  function HandleAt(E: seq<Handle>, q: nat): Handle
    requires q <= |E|
  {
    if q == 0 then Head else E[q - 1]
  }

  /** The first position at or after m whose node is on level i (|E| if none). */
  function NextPos<V>(nodes: seq<Node<V>>, E: seq<Handle>, i: nat, m: nat): (r: nat)
    requires InArena(nodes, E) && m <= |E|
    ensures m <= r <= |E|
    ensures r < |E| ==> i < nodes[E[r]].level
    ensures forall t :: m <= t < r ==> nodes[E[t]].level <= i
    decreases |E| - m
  {
    if m == |E| || i < nodes[E[m]].level then m else NextPos(nodes, E, i, m + 1)
  }

  /** The node a level-i slot must point at when the next level-i node is
      searched for from position m on: that node, or Null. */
  function NextAt<V>(nodes: seq<Node<V>>, E: seq<Handle>, i: nat, m: nat): Handle
    requires InArena(nodes, E) && m <= |E|
  {
    var r := NextPos(nodes, E, i, m);
    if r == |E| then Null else E[r]
  }

  /** The (key, value) pairs of the nodes of s, in order. */
  function EntriesOf<V>(nodes: seq<Node<V>>, s: seq<Handle>): (c: seq<Entry<V>>)
    requires InArena(nodes, s)
    ensures |c| == |s|
    ensures forall t :: 0 <= t < |s| ==> c[t] == (nodes[s[t]].key, nodes[s[t]].value)
  {
    seq(|s|, t requires 0 <= t < |s| => (nodes[s[t]].key, nodes[s[t]].value))
  }

  /** If the live node at position m is on level i, its slot i points at the
      next level-i node after it. */
  ghost predicate SlotLinked<V>(nodes: seq<Node<V>>, fwd: seq<seq<Handle>>, E: seq<Handle>, i: nat, m: nat)
    requires InArena(nodes, E) && m < |E|
  {
    i < nodes[E[m]].level ==>
      E[m] < |fwd| && i < |fwd[E[m]]| && fwd[E[m]][i] == NextAt(nodes, E, i, m + 1)
  }

  /** Level i is linked: the head's slot i and slot i of every live node of
      level greater than i point at the next node of the level-i chain. */
  ghost predicate LevelLinked<V>(nodes: seq<Node<V>>, fwd: seq<seq<Handle>>, E: seq<Handle>, i: nat)
    requires InArena(nodes, E)
  {
    && 0 < |fwd| && i < |fwd[Head]| && fwd[Head][i] == NextAt(nodes, E, i, 0)
    && forall m :: 0 <= m < |E| ==> SlotLinked(nodes, fwd, E, i, m)
  }

  /** Node layout: every node owns as many forward slots as its level, and
      the head owns maxLevel of them. */
  ghost predicate Shaped<V>(maxLevel: nat, nodes: seq<Node<V>>, fwd: seq<seq<Handle>>)
  {
    && 0 < |nodes| && |fwd| == |nodes| && nodes[Head].level == maxLevel
    && forall h :: 0 <= h < |nodes| ==> |fwd[h]| == nodes[h].level
  }

  /** The live order: distinct arena nodes of level 1 to maxLevel, sorted by
      key. */
  ghost predicate OrderOk<V>(maxLevel: nat, nodes: seq<Node<V>>, E: seq<Handle>)
  {
    && InArena(nodes, E) && Distinct(E)
    && (forall t :: 0 <= t < |E| ==> 1 <= nodes[E[t]].level <= maxLevel)
    && SortedKeys(EntriesOf(nodes, E))
  }

  /** The skip-list invariant: the live order is sound and every level below
      maxLevel is linked along it. */
  ghost predicate WellFormed<V>(maxLevel: nat, nodes: seq<Node<V>>, fwd: seq<seq<Handle>>, E: seq<Handle>)
  {
    && 0 < maxLevel
    && Shaped(maxLevel, nodes, fwd)
    && OrderOk(maxLevel, nodes, E)
    && (forall i :: 0 <= i < maxLevel ==> LevelLinked(nodes, fwd, E, i))
  }

  /** The node at position q is a level-i predecessor of key k: it lies at
      or before the lower bound of k, it is on level i (the head always is),
      and no level-i node lies between it and that lower bound. */
  ghost predicate IsPred<V>(nodes: seq<Node<V>>, E: seq<Handle>, i: nat, k: int, q: nat)
    requires InArena(nodes, E)
  {
    var P := LowerBound(EntriesOf(nodes, E), k);
    && q <= P
    && (0 < q ==> i < nodes[E[q - 1]].level)
    && P <= NextPos(nodes, E, i, q)
  }

  /** The two slot writes of one pass of the insert loop on level i: the new
      node h takes over pr's link, then pr points at h. */
  function Splice(fwd: seq<seq<Handle>>, pr: Handle, h: Handle, i: nat): (r: seq<seq<Handle>>)
    requires 0 <= pr < |fwd| && 0 <= h < |fwd| && i < |fwd[pr]| && i < |fwd[h]|
    ensures |r| == |fwd| && forall x :: 0 <= x < |fwd| ==> |r[x]| == |fwd[x]|
    ensures forall x :: 0 <= x < |fwd| && x != pr && x != h ==> r[x] == fwd[x]
    ensures r[pr][i] == h && (pr != h ==> r[h][i] == fwd[pr][i])
    ensures forall x, j :: 0 <= x < |fwd| && 0 <= j < |fwd[x]| && j != i ==> r[x][j] == fwd[x][j]
  {
    var f := fwd[h := fwd[h][i := fwd[pr][i]]];
    f[pr := f[pr][i := h]]
  }

  /** The slot write of one pass of the erase loop on level i: pr takes over
      the link of the erased node r. */
  function Unsplice(fwd: seq<seq<Handle>>, pr: Handle, r: Handle, i: nat): (u: seq<seq<Handle>>)
    requires 0 <= pr < |fwd| && 0 <= r < |fwd| && i < |fwd[pr]| && i < |fwd[r]|
    ensures |u| == |fwd| && forall x :: 0 <= x < |fwd| ==> |u[x]| == |fwd[x]|
    ensures forall x :: 0 <= x < |fwd| && x != pr ==> u[x] == fwd[x]
    ensures u[pr][i] == fwd[r][i]
    ensures forall x, j :: 0 <= x < |fwd| && 0 <= j < |fwd[x]| && j != i ==> u[x][j] == fwd[x][j]
  {
    fwd[pr := fwd[pr][i := fwd[r][i]]]
  }

  /** The node at position q occurs in E at that position only. */
  ghost predicate OnlyAt(E: seq<Handle>, q: nat)
    requires q <= |E|
  {
    forall t :: 0 <= t < |E| && t + 1 != q ==> E[t] != HandleAt(E, q)
  }

  lemma DistinctOnlyAt<V>(nodes: seq<Node<V>>, E: seq<Handle>, q: nat)
    requires InArena(nodes, E) && Distinct(E) && q <= |E|
    ensures OnlyAt(E, q)
  {
  }

  /** A level predecessor of k sits before the node at k's lower bound: it is
      the head or a live node other than that one. */
  lemma PredNotErased<V>(nodes: seq<Node<V>>, E: seq<Handle>, k: int, q: nat)
    requires InArena(nodes, E) && Distinct(E)
    requires q <= LowerBound(EntriesOf(nodes, E), k) < |E|
    ensures var x := HandleAt(E, q);
      x == Head || (x in E && x != E[LowerBound(EntriesOf(nodes, E), k)])
  {
    DistinctOnlyAt(nodes, E, q);
  }

  /** The order with h put at position p. */
  function Inserted(E: seq<Handle>, p: nat, h: Handle): (r: seq<Handle>)
    requires p <= |E|
    ensures |r| == |E| + 1 && r[p] == h
    ensures forall t :: 0 <= t < p ==> r[t] == E[t]
    ensures forall t :: p < t <= |E| ==> r[t] == E[t - 1]
  {
    seq(|E| + 1, t requires 0 <= t <= |E| => if t < p then E[t] else if t == p then h else E[t - 1])
  }

  /** The order with the node at position p taken out. */
  function Removed(E: seq<Handle>, p: nat): (r: seq<Handle>)
    requires p < |E|
    ensures |r| == |E| - 1
    ensures forall t :: 0 <= t < p ==> r[t] == E[t]
    ensures forall t :: p <= t < |E| - 1 ==> r[t] == E[t + 1]
  {
    seq(|E| - 1, t requires 0 <= t < |E| - 1 => if t < p then E[t] else E[t + 1])
  }

  /** Taking a node out of a duplicate-free order leaves it out entirely. */
  lemma RemovedLacks(E: seq<Handle>, p: nat)
    requires Distinct(E) && p < |E|
    ensures E[p] !in Removed(E, p)
  {
    var R := Removed(E, p);
    forall t | 0 <= t < |R| ensures R[t] != E[p] {
      assert R[t] == E[if t < p then t else t + 1];
    }
  }

  // ----- positions of the next node on a level -----

  lemma NextPosUnique<V>(nodes: seq<Node<V>>, E: seq<Handle>, i: nat, m: nat, r: nat)
    requires InArena(nodes, E) && m <= r <= |E|
    requires r < |E| ==> i < nodes[E[r]].level
    requires forall t :: m <= t < r ==> nodes[E[t]].level <= i
    ensures NextPos(nodes, E, i, m) == r
  {
  }

  /** How the next level-i position moves when h is put at position p. */
  lemma {:induction false} NextPosInsert<V>(nodes: seq<Node<V>>, E: seq<Handle>, p: nat, h: Handle, i: nat, m: nat)
    requires InArena(nodes, E) && p <= |E| && 0 < h < |nodes| && m <= |E| + 1
    ensures InArena(nodes, Inserted(E, p, h))
    ensures NextPos(nodes, Inserted(E, p, h), i, m) ==
      if p < m then NextPos(nodes, E, i, m - 1) + 1
      else if NextPos(nodes, E, i, m) < p then NextPos(nodes, E, i, m)
      else if i < nodes[h].level then p
      else NextPos(nodes, E, i, m) + 1
  {
    var E' := Inserted(E, p, h);
    if p < m {
      NextPosUnique(nodes, E', i, m, NextPos(nodes, E, i, m - 1) + 1);
    } else {
      var s := NextPos(nodes, E, i, m);
      if s < p {
        NextPosUnique(nodes, E', i, m, s);
      } else if i < nodes[h].level {
        NextPosUnique(nodes, E', i, m, p);
      } else {
        NextPosUnique(nodes, E', i, m, s + 1);
      }
    }
  }

  /** How the next level-i position moves when the node at position p leaves. */
  lemma {:induction false} NextPosRemove<V>(nodes: seq<Node<V>>, E: seq<Handle>, p: nat, i: nat, m: nat)
    requires InArena(nodes, E) && p < |E| && m < |E|
    ensures InArena(nodes, Removed(E, p))
    ensures NextPos(nodes, Removed(E, p), i, m) ==
      if m < p && NextPos(nodes, E, i, m) < p then NextPos(nodes, E, i, m)
      else NextPos(nodes, E, i, if m < p then p + 1 else m + 1) - 1
  {
    var E' := Removed(E, p);
    if m < p && NextPos(nodes, E, i, m) < p {
      NextPosUnique(nodes, E', i, m, NextPos(nodes, E, i, m));
    } else {
      NextPosUnique(nodes, E', i, m, NextPos(nodes, E, i, if m < p then p + 1 else m + 1) - 1);
    }
  }

  /** Putting h at position p leaves the next level-i node seen from any
      position unchanged, except that h itself is seen when the search starts
      at or before p, finds nothing before p and h is on level i. */
  lemma {:induction false} NextAtInsert<V>(nodes: seq<Node<V>>, E: seq<Handle>, p: nat, h: Handle, i: nat, m: nat)
    requires InArena(nodes, E) && p <= |E| && 0 < h < |nodes| && m <= |E| + 1
    ensures InArena(nodes, Inserted(E, p, h))
    ensures NextAt(nodes, Inserted(E, p, h), i, m) ==
      if p < m then NextAt(nodes, E, i, m - 1)
      else if NextPos(nodes, E, i, m) >= p && i < nodes[h].level then h
      else NextAt(nodes, E, i, m)
  {
    NextPosInsert(nodes, E, p, h, i, m);
  }

  /** Taking out the node at position p leaves the next level-i node seen
      from any position unchanged, except that a search that would find it
      finds the next level-i node after it. */
  lemma {:induction false} NextAtRemove<V>(nodes: seq<Node<V>>, E: seq<Handle>, p: nat, i: nat, m: nat)
    requires InArena(nodes, E) && p < |E| && m < |E|
    ensures InArena(nodes, Removed(E, p))
    ensures NextAt(nodes, Removed(E, p), i, m) ==
      if m < p && NextPos(nodes, E, i, m) < p then NextAt(nodes, E, i, m)
      else NextAt(nodes, E, i, if m < p then p + 1 else m + 1)
  {
    NextPosRemove(nodes, E, p, i, m);
  }

  /** The slot i of the node at position q holds the next level-i node. */
  lemma LinkAt<V>(nodes: seq<Node<V>>, fwd: seq<seq<Handle>>, E: seq<Handle>, i: nat, q: nat)
    requires InArena(nodes, E) && q <= |E| && LevelLinked(nodes, fwd, E, i)
    requires q == 0 || i < nodes[E[q - 1]].level
    ensures 0 <= HandleAt(E, q) < |fwd| && i < |fwd[HandleAt(E, q)]|
    ensures fwd[HandleAt(E, q)][i] == NextAt(nodes, E, i, q)
  {
    if q > 0 {
      assert SlotLinked(nodes, fwd, E, i, q - 1);
    }
  }

  // ----- one pass of the insert loop, and the levels it leaves alone -----

  /** The situation of one pass of the insert loop on level i: h is a fresh
      node of level greater than i to go at position p, and the node at
      position q is its level-i predecessor, the last node of level greater
      than i before position p. */
  ghost predicate SpliceReady<V>(nodes: seq<Node<V>>, A: seq<seq<Handle>>, E: seq<Handle>, p: nat, h: Handle, q: nat, i: nat)
  {
    && InArena(nodes, E) && 0 < h < |nodes| && h !in E
    && |A| == |nodes| && (forall x :: 0 <= x < |nodes| ==> |A[x]| == nodes[x].level)
    && p <= |E| && q <= p && i < nodes[HandleAt(E, q)].level && p <= NextPos(nodes, E, i, q)
    && OnlyAt(E, q) && i < nodes[h].level
    && LevelLinked(nodes, A, E, i)
  }

  /** A slot of a node left of the level-i predecessor keeps its target. */
  lemma {:induction false} SpliceSlotFar<V>(nodes: seq<Node<V>>, A: seq<seq<Handle>>, E: seq<Handle>, p: nat, h: Handle, q: nat, i: nat, m: nat)
    requires SpliceReady(nodes, A, E, p, h, q, i) && m + 1 < q && i < nodes[E[m]].level
    ensures SlotLinked(nodes, Splice(A, HandleAt(E, q), h, i), Inserted(E, p, h), i, m)
  {
    var pr := HandleAt(E, q);
    NextAtInsert(nodes, E, p, h, i, m + 1);
    assert Inserted(E, p, h)[m] == E[m];
    assert NextPos(nodes, E, i, m + 1) < q;
    assert E[m] != pr && E[m] != h;
    LinkAt(nodes, A, E, i, m + 1);
    assert Splice(A, pr, h, i)[E[m]] == A[E[m]];
  }

  /** The level-i predecessor's slot now points at h. */
  lemma {:induction false} SpliceSlotPred<V>(nodes: seq<Node<V>>, A: seq<seq<Handle>>, E: seq<Handle>, p: nat, h: Handle, q: nat, i: nat, m: nat)
    requires SpliceReady(nodes, A, E, p, h, q, i) && m < p && q <= m + 1 && i < nodes[E[m]].level
    ensures SlotLinked(nodes, Splice(A, HandleAt(E, q), h, i), Inserted(E, p, h), i, m)
  {
    assert m + 1 == q;
    NextAtInsert(nodes, E, p, h, i, m + 1);
    assert Inserted(E, p, h)[m] == E[m];
    assert NextAt(nodes, Inserted(E, p, h), i, m + 1) == h;
  }

  lemma {:induction false} SpliceSlotNew<V>(nodes: seq<Node<V>>, A: seq<seq<Handle>>, E: seq<Handle>, p: nat, h: Handle, q: nat, i: nat)
    requires SpliceReady(nodes, A, E, p, h, q, i)
    ensures SlotLinked(nodes, Splice(A, HandleAt(E, q), h, i), Inserted(E, p, h), i, p)
  {
    var E' := Inserted(E, p, h);
    LinkAt(nodes, A, E, i, q);
    NextAtInsert(nodes, E, p, h, i, p + 1);
    NextPosUnique(nodes, E, i, p, NextPos(nodes, E, i, q));
    assert NextAt(nodes, E', i, p + 1) == NextAt(nodes, E, i, q);
  }

  lemma {:induction false} SpliceSlotAfter<V>(nodes: seq<Node<V>>, A: seq<seq<Handle>>, E: seq<Handle>, p: nat, h: Handle, q: nat, i: nat, m: nat)
    requires SpliceReady(nodes, A, E, p, h, q, i) && p < m <= |E| && i < nodes[E[m - 1]].level
    ensures SlotLinked(nodes, Splice(A, HandleAt(E, q), h, i), Inserted(E, p, h), i, m)
  {
    var E' := Inserted(E, p, h);
    var pr := HandleAt(E, q);
    NextAtInsert(nodes, E, p, h, i, m + 1);
    assert E'[m] == E[m - 1];
    assert E[m - 1] != pr && E[m - 1] != h;
    LinkAt(nodes, A, E, i, m);
    assert Splice(A, pr, h, i)[E[m - 1]] == A[E[m - 1]];
  }

  /** Splicing h in on level i after its level-i predecessor links level i
      of the order with h at position p. */
  lemma {:induction false} SpliceLevel<V>(nodes: seq<Node<V>>, A: seq<seq<Handle>>, E: seq<Handle>, p: nat, h: Handle, q: nat, i: nat)
    requires SpliceReady(nodes, A, E, p, h, q, i)
    ensures InArena(nodes, Inserted(E, p, h))
    ensures LevelLinked(nodes, Splice(A, HandleAt(E, q), h, i), Inserted(E, p, h), i)
  {
    var E' := Inserted(E, p, h);
    var B := Splice(A, HandleAt(E, q), h, i);
    NextAtInsert(nodes, E, p, h, i, 0);
    if q > 0 {
      assert NextPos(nodes, E, i, 0) < q;
    }
    forall m | 0 <= m < |E'|
      ensures SlotLinked(nodes, B, E', i, m)
    {
      if m < p {
        if i < nodes[E[m]].level && m + 1 < q {
          SpliceSlotFar(nodes, A, E, p, h, q, i, m);
        } else if i < nodes[E[m]].level {
          SpliceSlotPred(nodes, A, E, p, h, q, i, m);
        }
      } else if m == p {
        SpliceSlotNew(nodes, A, E, p, h, q, i);
      } else if i < nodes[E[m - 1]].level {
        SpliceSlotAfter(nodes, A, E, p, h, q, i, m);
      }
    }
  }

  /** On a level at or above the new node's level, putting h into the order
      changes nothing: level j stays linked. */
  lemma {:induction false} InsertKeepsLevel<V>(nodes: seq<Node<V>>, A: seq<seq<Handle>>, E: seq<Handle>, p: nat, h: Handle, j: nat)
    requires InArena(nodes, E) && p <= |E| && 0 < h < |nodes| && nodes[h].level <= j
    requires LevelLinked(nodes, A, E, j)
    ensures InArena(nodes, Inserted(E, p, h))
    ensures LevelLinked(nodes, A, Inserted(E, p, h), j)
  {
    var E' := Inserted(E, p, h);
    NextAtInsert(nodes, E, p, h, j, 0);
    forall m | 0 <= m < |E'| && j < nodes[E'[m]].level
      ensures SlotLinked(nodes, A, E', j, m)
    {
      NextAtInsert(nodes, E, p, h, j, m + 1);
      if m < p {
        LinkAt(nodes, A, E, j, m + 1);
      } else if m > p {
        LinkAt(nodes, A, E, j, m);
      }
    }
  }

  // ----- one pass of the erase loop, and the levels it leaves alone -----

  /** The situation of one pass of the erase loop on level i: the node at
      position p is on level i, and the node at position q is its level-i
      predecessor. */
  ghost predicate UnspliceReady<V>(nodes: seq<Node<V>>, A: seq<seq<Handle>>, E: seq<Handle>, p: nat, q: nat, i: nat)
  {
    && InArena(nodes, E) && 0 < |nodes|
    && |A| == |nodes| && (forall x :: 0 <= x < |nodes| ==> |A[x]| == nodes[x].level)
    && p < |E| && q <= p && i < nodes[HandleAt(E, q)].level && p <= NextPos(nodes, E, i, q)
    && OnlyAt(E, q) && i < nodes[E[p]].level
    && LevelLinked(nodes, A, E, i)
  }

  /** A slot of a node left of the level-i predecessor keeps its target. */
  lemma {:induction false} UnspliceSlotFar<V>(nodes: seq<Node<V>>, A: seq<seq<Handle>>, E: seq<Handle>, p: nat, q: nat, i: nat, m: nat)
    requires UnspliceReady(nodes, A, E, p, q, i) && m + 1 < q && i < nodes[E[m]].level
    ensures SlotLinked(nodes, Unsplice(A, HandleAt(E, q), E[p], i), Removed(E, p), i, m)
  {
    var pr := HandleAt(E, q);
    NextAtRemove(nodes, E, p, i, m + 1);
    assert Removed(E, p)[m] == E[m];
    assert NextPos(nodes, E, i, m + 1) < q;
    assert E[m] != pr;
    LinkAt(nodes, A, E, i, m + 1);
    assert Unsplice(A, pr, E[p], i)[E[m]] == A[E[m]];
  }

  /** The level-i predecessor's slot now points past the erased node. */
  lemma {:induction false} UnspliceSlotPred<V>(nodes: seq<Node<V>>, A: seq<seq<Handle>>, E: seq<Handle>, p: nat, q: nat, i: nat, m: nat)
    requires UnspliceReady(nodes, A, E, p, q, i) && m < p && q <= m + 1 && i < nodes[E[m]].level
    ensures SlotLinked(nodes, Unsplice(A, HandleAt(E, q), E[p], i), Removed(E, p), i, m)
  {
    assert m + 1 == q;
    NextAtRemove(nodes, E, p, i, m + 1);
    assert Removed(E, p)[m] == E[m];
    NextPosUnique(nodes, E, i, q, p);
    LinkAt(nodes, A, E, i, p + 1);
    assert NextAt(nodes, Removed(E, p), i, m + 1) == NextAt(nodes, E, i, p + 1);
  }

  lemma {:induction false} UnspliceSlotAfter<V>(nodes: seq<Node<V>>, A: seq<seq<Handle>>, E: seq<Handle>, p: nat, q: nat, i: nat, m: nat)
    requires UnspliceReady(nodes, A, E, p, q, i) && p <= m < |E| - 1 && i < nodes[E[m + 1]].level
    ensures SlotLinked(nodes, Unsplice(A, HandleAt(E, q), E[p], i), Removed(E, p), i, m)
  {
    var E' := Removed(E, p);
    var pr := HandleAt(E, q);
    NextAtRemove(nodes, E, p, i, m + 1);
    assert E'[m] == E[m + 1];
    assert E[m + 1] != pr;
    LinkAt(nodes, A, E, i, m + 2);
    assert Unsplice(A, pr, E[p], i)[E[m + 1]] == A[E[m + 1]];
  }

  /** On a level below the erased node's level, its level-i predecessor (the
      node at position q) points at it, and relinking that slot links level i
      of the order without the node at position p. */
  lemma {:induction false} UnspliceLevel<V>(nodes: seq<Node<V>>, A: seq<seq<Handle>>, E: seq<Handle>, p: nat, q: nat, i: nat)
    requires UnspliceReady(nodes, A, E, p, q, i)
    ensures A[HandleAt(E, q)][i] == E[p]
    ensures InArena(nodes, Removed(E, p))
    ensures LevelLinked(nodes, Unsplice(A, HandleAt(E, q), E[p], i), Removed(E, p), i)
  {
    var E' := Removed(E, p);
    var pr := HandleAt(E, q);
    var B := Unsplice(A, pr, E[p], i);
    NextPosUnique(nodes, E, i, q, p);
    LinkAt(nodes, A, E, i, q);
    NextAtRemove(nodes, E, p, i, 0);
    if q > 0 {
      assert NextPos(nodes, E, i, 0) < q;
    } else {
      LinkAt(nodes, A, E, i, p + 1);
    }
    forall m | 0 <= m < |E'|
      ensures SlotLinked(nodes, B, E', i, m)
    {
      if m < p {
        if i < nodes[E[m]].level && m + 1 < q {
          UnspliceSlotFar(nodes, A, E, p, q, i, m);
        } else if i < nodes[E[m]].level {
          UnspliceSlotPred(nodes, A, E, p, q, i, m);
        }
      } else if i < nodes[E[m + 1]].level {
        UnspliceSlotAfter(nodes, A, E, p, q, i, m);
      }
    }
  }

  /** One slot before the erased position on a level at or above the erased
      node's level: it still points at its level-j successor. */
  lemma RemoveKeepsSlotBefore<V>(nodes: seq<Node<V>>, A: seq<seq<Handle>>, E: seq<Handle>, p: nat, j: nat, m: nat)
    requires InArena(nodes, E) && p < |E| && nodes[E[p]].level <= j
    requires LevelLinked(nodes, A, E, j) && InArena(nodes, Removed(E, p)) && m < p
    requires j < nodes[E[m]].level
    ensures SlotLinked(nodes, A, Removed(E, p), j, m)
  {
    var E' := Removed(E, p);
    assert E'[m] == E[m];
    NextAtRemove(nodes, E, p, j, m + 1);
    LinkAt(nodes, A, E, j, m + 1);
    var r := NextPos(nodes, E, j, m + 1);
    if r >= p {
      assert r != p;
      NextPosUnique(nodes, E, j, p + 1, r);
    }
  }

  /** One slot after the erased position on such a level: it still points
      at its level-j successor. */
  lemma RemoveKeepsSlotAfter<V>(nodes: seq<Node<V>>, A: seq<seq<Handle>>, E: seq<Handle>, p: nat, j: nat, m: nat)
    requires InArena(nodes, E) && p < |E|
    requires LevelLinked(nodes, A, E, j) && InArena(nodes, Removed(E, p)) && p <= m < |E| - 1
    requires j < nodes[E[m + 1]].level
    ensures SlotLinked(nodes, A, Removed(E, p), j, m)
  {
    assert Removed(E, p)[m] == E[m + 1];
    NextAtRemove(nodes, E, p, j, m + 1);
    LinkAt(nodes, A, E, j, m + 2);
  }

  /** On a level at or above the erased node's level, taking it out of the
      order changes nothing: level j stays linked. */
  lemma {:induction false} RemoveKeepsLevel<V>(nodes: seq<Node<V>>, A: seq<seq<Handle>>, E: seq<Handle>, p: nat, j: nat)
    requires InArena(nodes, E) && p < |E| && nodes[E[p]].level <= j
    requires LevelLinked(nodes, A, E, j)
    ensures InArena(nodes, Removed(E, p))
    ensures LevelLinked(nodes, A, Removed(E, p), j)
  {
    var E' := Removed(E, p);
    RemovedInArena(nodes, E, p);
    NextAtRemove(nodes, E, p, j, 0);
    if NextPos(nodes, E, j, 0) >= p {
      NextPosUnique(nodes, E, j, p + 1, NextPos(nodes, E, j, 0));
    }
    forall m | 0 <= m < |E'| ensures SlotLinked(nodes, A, E', j, m) {
      if m < p {
        assert E'[m] == E[m];
        if j < nodes[E[m]].level {
          RemoveKeepsSlotBefore(nodes, A, E, p, j, m);
        }
      } else {
        assert E'[m] == E[m + 1];
        if j < nodes[E[m + 1]].level {
          RemoveKeepsSlotAfter(nodes, A, E, p, j, m);
        }
      }
    }
  }

  /** A level stays linked when no slot on it of the head or of a live node
      changes. */
  lemma FrameLevel<V>(nodes: seq<Node<V>>, A: seq<seq<Handle>>, B: seq<seq<Handle>>, E: seq<Handle>, j: nat)
    requires InArena(nodes, E) && |A| == |B|
    requires forall x :: 0 <= x < |A| && (x == Head || x in E) ==>
               |B[x]| == |A[x]| && (j < |A[x]| ==> B[x][j] == A[x][j])
    requires LevelLinked(nodes, A, E, j)
    ensures LevelLinked(nodes, B, E, j)
  {
    forall m | 0 <= m < |E|
      ensures SlotLinked(nodes, B, E, j, m)
    {
      assert SlotLinked(nodes, A, E, j, m);
      assert E[m] in E;
    }
  }

  // ----- growing the arena, and the invariant around insert and erase -----

  lemma NextPosExtend<V>(nodes: seq<Node<V>>, n: Node<V>, E: seq<Handle>, i: nat, m: nat)
    requires InArena(nodes, E) && m <= |E|
    ensures InArena(nodes + [n], E)
    ensures NextPos(nodes + [n], E, i, m) == NextPos(nodes, E, i, m)
  {
    assert forall t :: 0 <= t < |E| ==> (nodes + [n])[E[t]] == nodes[E[t]];
    NextPosUnique(nodes + [n], E, i, m, NextPos(nodes, E, i, m));
  }

  /** A node added to the arena (create_node) is not yet linked: the order,
      its entries and the invariant are unaffected. */
  lemma ExtendArena<V>(maxLevel: nat, nodes: seq<Node<V>>, fwd: seq<seq<Handle>>, E: seq<Handle>, n: Node<V>)
    requires WellFormed(maxLevel, nodes, fwd, E)
    ensures WellFormed(maxLevel, nodes + [n], fwd + [Nulls(n.level)], E)
    ensures EntriesOf(nodes + [n], E) == EntriesOf(nodes, E)
  {
    var nodes', fwd' := nodes + [n], fwd + [Nulls(n.level)];
    assert forall t :: 0 <= t < |E| ==> nodes'[E[t]] == nodes[E[t]];
    assert EntriesOf(nodes', E) == EntriesOf(nodes, E);
    forall i | 0 <= i < maxLevel ensures LevelLinked(nodes', fwd', E, i) {
      assert LevelLinked(nodes, fwd, E, i);
      NextPosExtend(nodes, n, E, i, 0);
      forall m | 0 <= m < |E| ensures SlotLinked(nodes', fwd', E, i, m) {
        assert SlotLinked(nodes, fwd, E, i, m);
        NextPosExtend(nodes, n, E, i, m + 1);
      }
    }
  }

  /** The entries of the order with h put at the lower bound of its key are
      the entries with (key, value) of h inserted. */
  lemma EntriesInserted<V>(nodes: seq<Node<V>>, E: seq<Handle>, h: Handle)
    requires InArena(nodes, E) && 0 < h < |nodes|
    ensures var p := LowerBound(EntriesOf(nodes, E), nodes[h].key);
      && InArena(nodes, Inserted(E, p, h))
      && EntriesOf(nodes, Inserted(E, p, h)) == InsertEntry(EntriesOf(nodes, E), nodes[h].key, nodes[h].value)
  {
    var c := EntriesOf(nodes, E);
    var p := LowerBound(c, nodes[h].key);
    InsertEntryShape(c, nodes[h].key, nodes[h].value);
    var l, r := EntriesOf(nodes, Inserted(E, p, h)), InsertEntry(c, nodes[h].key, nodes[h].value);
    assert forall t :: 0 <= t < |l| ==> l[t] == r[t];
  }

  /** The entries of the order with the node at position p taken out are the
      entries with entry p taken out. */
  lemma EntriesRemoved<V>(nodes: seq<Node<V>>, E: seq<Handle>, p: nat)
    requires InArena(nodes, E) && p < |E|
    ensures InArena(nodes, Removed(E, p))
    ensures var c := EntriesOf(nodes, E); EntriesOf(nodes, Removed(E, p)) == c[..p] + c[p + 1..]
  {
    var c := EntriesOf(nodes, E);
    var l, r := EntriesOf(nodes, Removed(E, p)), c[..p] + c[p + 1..];
    assert forall t :: 0 <= t < |l| ==> l[t] == r[t];
  }

  /** After the insert loop has linked every level along the new order, the
      invariant holds for it and its entries are the old ones with the new
      node's entry inserted. */
  lemma InsertWellFormed<V>(maxLevel: nat, nodes: seq<Node<V>>, fwd: seq<seq<Handle>>, E: seq<Handle>, h: Handle)
    requires 0 < maxLevel && Shaped(maxLevel, nodes, fwd) && OrderOk(maxLevel, nodes, E)
    requires 0 < h < |nodes| && h !in E && 1 <= nodes[h].level <= maxLevel
    requires var p := LowerBound(EntriesOf(nodes, E), nodes[h].key);
      && InArena(nodes, Inserted(E, p, h))
      && forall j :: 0 <= j < maxLevel ==> LevelLinked(nodes, fwd, Inserted(E, p, h), j)
    ensures var p := LowerBound(EntriesOf(nodes, E), nodes[h].key);
      && WellFormed(maxLevel, nodes, fwd, Inserted(E, p, h))
      && EntriesOf(nodes, Inserted(E, p, h)) == InsertEntry(EntriesOf(nodes, E), nodes[h].key, nodes[h].value)
  {
    var c := EntriesOf(nodes, E);
    var p := LowerBound(c, nodes[h].key);
    var E' := Inserted(E, p, h);
    EntriesInserted(nodes, E, h);
    InsertEntrySorted(c, nodes[h].key, nodes[h].value);
    forall a, b | 0 <= a < b < |E'| ensures E'[a] != E'[b] {
      var a', b' := if a < p then a else a - 1, if b < p then b else b - 1;
      if a != p && b != p {
        assert E'[a] == E[a'] && E'[b] == E[b'];
      } else if a == p {
        assert E'[b] == E[b'];
      } else {
        assert E'[a] == E[a'];
      }
    }
    forall t | 0 <= t < |E'| ensures 1 <= nodes[E'[t]].level <= maxLevel {
      if t < p {
        assert E'[t] == E[t];
      } else if t > p {
        assert E'[t] == E[t - 1];
      }
    }
  }

  /** After the erase loop has relinked every level along the order without
      the node at position p, the invariant holds for it and its entries are
      the old ones with entry p taken out. */
  lemma RemoveWellFormed<V>(maxLevel: nat, nodes: seq<Node<V>>, fwd: seq<seq<Handle>>, E: seq<Handle>, p: nat)
    requires 0 < maxLevel && Shaped(maxLevel, nodes, fwd) && OrderOk(maxLevel, nodes, E) && p < |E|
    requires InArena(nodes, Removed(E, p))
    requires forall j :: 0 <= j < maxLevel ==> LevelLinked(nodes, fwd, Removed(E, p), j)
    ensures WellFormed(maxLevel, nodes, fwd, Removed(E, p))
    ensures var c := EntriesOf(nodes, E); EntriesOf(nodes, Removed(E, p)) == c[..p] + c[p + 1..]
  {
    var c := EntriesOf(nodes, E);
    var E' := Removed(E, p);
    EntriesRemoved(nodes, E, p);
    SortedRemove(c, p);
    forall a, b | 0 <= a < b < |E'| ensures E'[a] != E'[b] {
      var a', b' := if a < p then a else a + 1, if b < p then b else b + 1;
      assert E'[a] == E[a'] && E'[b] == E[b'];
    }
    forall t | 0 <= t < |E'| ensures 1 <= nodes[E'[t]].level <= maxLevel {
      assert E'[t] == E[if t < p then t else t + 1];
    }
  }

  /** Taking a position out of an order of arena nodes leaves arena nodes. */
  lemma RemovedInArena<V>(nodes: seq<Node<V>>, E: seq<Handle>, p: nat)
    requires InArena(nodes, E) && p < |E|
    ensures InArena(nodes, Removed(E, p))
  {
    forall t | 0 <= t < |E| - 1 ensures 0 < Removed(E, p)[t] < |nodes| {
      assert Removed(E, p)[t] == E[if t < p then t else t + 1];
    }
  }

  /** The state of the relink loop of erase before level i: the levels below
      i are linked without the node at position p, the levels from i up are
      still linked with it, and i has not passed that node's level. */
  ghost predicate Relinked<V>(maxLevel: nat, nodes: seq<Node<V>>, fwd: seq<seq<Handle>>, E: seq<Handle>, p: nat, i: nat)
  {
    && InArena(nodes, E) && p < |E| && InArena(nodes, Removed(E, p))
    && Shaped(maxLevel, nodes, fwd) && i <= nodes[E[p]].level
    && (forall j :: 0 <= j < i ==> LevelLinked(nodes, fwd, Removed(E, p), j))
    && (forall j :: i <= j < maxLevel ==> LevelLinked(nodes, fwd, E, j))
  }

  /** Before the relink loop nothing is relinked yet. */
  lemma RelinkStart<V>(maxLevel: nat, nodes: seq<Node<V>>, fwd: seq<seq<Handle>>, E: seq<Handle>, p: nat)
    requires WellFormed(maxLevel, nodes, fwd, E) && p < |E|
    ensures Relinked(maxLevel, nodes, fwd, E, p, 0)
  {
    RemovedInArena(nodes, E, p);
  }

  /** One pass of the relink loop: when the level-i predecessor (the node at
      position q) points at the node at the lower bound p of k, relinking its
      slot takes level i over to the order without that node. */
  lemma RelinkStep<V>(maxLevel: nat, nodes: seq<Node<V>>, A: seq<seq<Handle>>, E: seq<Handle>, k: int, q: nat, i: nat)
    requires OrderOk(maxLevel, nodes, E) && i < maxLevel && LowerBound(EntriesOf(nodes, E), k) < |E|
    requires Relinked(maxLevel, nodes, A, E, LowerBound(EntriesOf(nodes, E), k), i)
    requires q <= |E| && IsPred(nodes, E, i, k, q)
    requires 0 <= HandleAt(E, q) < |A| && i < |A[HandleAt(E, q)]|
    requires A[HandleAt(E, q)][i] == E[LowerBound(EntriesOf(nodes, E), k)]
    ensures var p := LowerBound(EntriesOf(nodes, E), k);
      && 0 <= E[p] < |A| && i < |A[E[p]]|
      && Relinked(maxLevel, nodes, Unsplice(A, HandleAt(E, q), E[p], i), E, p, i + 1)
  {
    assert LevelLinked(nodes, A, E, i);
    SlotIsErased(maxLevel, nodes, A, E, k, q, i);
    DistinctOnlyAt(nodes, E, q);
    UnsplicePass(maxLevel, nodes, A, E, k, q, i);
  }

  /** After the relink loop, which stops at the erased node's level: the
      levels from there up never held it, so the whole structure is well
      formed without it. */
  lemma RelinkDone<V>(maxLevel: nat, nodes: seq<Node<V>>, fwd: seq<seq<Handle>>, E: seq<Handle>, p: nat, i: nat)
    requires 0 < maxLevel && OrderOk(maxLevel, nodes, E)
    requires Relinked(maxLevel, nodes, fwd, E, p, i) && nodes[E[p]].level <= i
    ensures WellFormed(maxLevel, nodes, fwd, Removed(E, p))
  {
    forall j | i <= j < maxLevel ensures LevelLinked(nodes, fwd, Removed(E, p), j) {
      RemoveKeepsLevel(nodes, fwd, E, p, j);
    }
    RemoveWellFormed(maxLevel, nodes, fwd, E, p);
  }

  /** One step of the walk on level i: when the next level-i node after
      position q has a key below k, it lies before the lower bound of k. */
  lemma WalkStep<V>(maxLevel: nat, nodes: seq<Node<V>>, E: seq<Handle>, k: int, i: nat, q: nat)
    requires OrderOk(maxLevel, nodes, E) && q <= LowerBound(EntriesOf(nodes, E), k)
    requires NextAt(nodes, E, i, q) != Null && nodes[NextAt(nodes, E, i, q)].key < k
    ensures NextPos(nodes, E, i, q) < LowerBound(EntriesOf(nodes, E), k)
  {
    var c := EntriesOf(nodes, E);
    LowerBoundSorted(c, k);
    assert c[NextPos(nodes, E, i, q)].0 < k;
  }

  /** The end of the walk on level i: when the next level-i node after
      position q is missing or has a key of at least k, the node at q is a
      level-i predecessor of k. */
  lemma WalkStop<V>(maxLevel: nat, nodes: seq<Node<V>>, E: seq<Handle>, k: int, i: nat, q: nat)
    requires OrderOk(maxLevel, nodes, E) && q <= LowerBound(EntriesOf(nodes, E), k)
    requires 0 < q ==> i < nodes[E[q - 1]].level
    requires NextAt(nodes, E, i, q) == Null || nodes[NextAt(nodes, E, i, q)].key >= k
    ensures IsPred(nodes, E, i, k, q)
  {
    var c := EntriesOf(nodes, E);
    var s := NextPos(nodes, E, i, q);
    if s < |E| {
      assert c[s].0 >= k;
    }
  }

  /** The state of the walk on level i, started at position q0: the walk
      stands at position q, not past the lower bound of k, on a level-i node
      last whose slot i points at the next level-i node. */
  ghost predicate Walking<V>(maxLevel: nat, nodes: seq<Node<V>>, fwd: seq<seq<Handle>>, E: seq<Handle>, k: int, i: nat, q0: nat, q: nat, last: Handle)
  {
    && InArena(nodes, E) && i < maxLevel
    && q0 <= q <= LowerBound(EntriesOf(nodes, E), k)
    && last == HandleAt(E, q) && 0 <= last < |nodes| && i < nodes[last].level
    && 0 <= last < |fwd| && i < |fwd[last]| && fwd[last][i] == NextAt(nodes, E, i, q)
    && (fwd[last][i] == Null || 0 < fwd[last][i] < |nodes|)
  }

  /** The state of the descent of search_ptr above level i: it stands at
      position q, on a node x of level at least i, and on every level from i
      up it has found a predecessor whose next node does not have key k. */
  ghost predicate Descending<V>(maxLevel: nat, nodes: seq<Node<V>>, E: seq<Handle>, k: int, i: nat, q: nat, x: Handle)
  {
    && InArena(nodes, E) && i <= maxLevel
    && q <= LowerBound(EntriesOf(nodes, E), k) && x == HandleAt(E, q) && 0 <= x < |nodes| && i <= nodes[x].level
    && (i < maxLevel ==> IsPred(nodes, E, i, k, q))
    && (i < maxLevel ==> NextAt(nodes, E, i, q) == Null || nodes[NextAt(nodes, E, i, q)].key != k)
  }

  /** The walk on level i may start at any level-i node at or before the
      lower bound of k. */
  lemma WalkStart<V>(maxLevel: nat, nodes: seq<Node<V>>, fwd: seq<seq<Handle>>, E: seq<Handle>, k: int, i: nat, q: nat)
    requires OrderOk(maxLevel, nodes, E) && i < maxLevel && LevelLinked(nodes, fwd, E, i)
    requires 0 < |nodes| && q <= LowerBound(EntriesOf(nodes, E), k) && i < nodes[HandleAt(E, q)].level
    ensures Walking(maxLevel, nodes, fwd, E, k, i, q, q, HandleAt(E, q))
  {
    LinkAt(nodes, fwd, E, i, q);
  }

  /** One step of the walk: when the next level-i node has a key below k, the
      walk moves on to it and still stands before the lower bound. */
  lemma WalkAdvance<V>(maxLevel: nat, nodes: seq<Node<V>>, fwd: seq<seq<Handle>>, E: seq<Handle>, k: int, i: nat, q0: nat, q: nat, last: Handle)
    requires OrderOk(maxLevel, nodes, E) && LevelLinked(nodes, fwd, E, i)
    requires Walking(maxLevel, nodes, fwd, E, k, i, q0, q, last)
    requires fwd[last][i] != Null && nodes[fwd[last][i]].key < k
    ensures q < NextPos(nodes, E, i, q) + 1
    ensures Walking(maxLevel, nodes, fwd, E, k, i, q0, NextPos(nodes, E, i, q) + 1, fwd[last][i])
  {
    WalkStep(maxLevel, nodes, E, k, i, q);
    LinkAt(nodes, fwd, E, i, NextPos(nodes, E, i, q) + 1);
  }

  /** The end of the walk: when the next level-i node is missing or has a key
      of at least k, the walk stands at a level-i predecessor of k. */
  lemma WalkDone<V>(maxLevel: nat, nodes: seq<Node<V>>, fwd: seq<seq<Handle>>, E: seq<Handle>, k: int, i: nat, q0: nat, q: nat, last: Handle)
    requires OrderOk(maxLevel, nodes, E) && Walking(maxLevel, nodes, fwd, E, k, i, q0, q, last)
    requires fwd[last][i] == Null || nodes[fwd[last][i]].key >= k
    ensures IsPred(nodes, E, i, k, q)
  {
    WalkStop(maxLevel, nodes, E, k, i, q);
  }

  /** One pass of the insert loop on level i, with the levels below i still
      linked along the old order and those above already along the new one:
      afterwards level i joins the new order and nothing else moves. */
  lemma SplicePass<V>(maxLevel: nat, nodes: seq<Node<V>>, A: seq<seq<Handle>>, E: seq<Handle>, k: int, h: Handle, q: nat, i: nat)
    requires Shaped(maxLevel, nodes, A) && OrderOk(maxLevel, nodes, E)
    requires 0 < h < |nodes| && h !in E && i < nodes[h].level && i < maxLevel
    requires q <= |E| && IsPred(nodes, E, i, k, q) && OnlyAt(E, q)
    requires var p := LowerBound(EntriesOf(nodes, E), k);
      && InArena(nodes, Inserted(E, p, h))
      && (forall j :: 0 <= j <= i ==> LevelLinked(nodes, A, E, j))
      && (forall j :: i < j < maxLevel ==> LevelLinked(nodes, A, Inserted(E, p, h), j))
    ensures 0 <= HandleAt(E, q) < |A| && i < |A[HandleAt(E, q)]| && i < |A[h]|
    ensures var p, B := LowerBound(EntriesOf(nodes, E), k), Splice(A, HandleAt(E, q), h, i);
      && Shaped(maxLevel, nodes, B)
      && (forall j :: 0 <= j < i ==> LevelLinked(nodes, B, E, j))
      && (forall j :: i <= j < maxLevel ==> LevelLinked(nodes, B, Inserted(E, p, h), j))
  {
    var p := LowerBound(EntriesOf(nodes, E), k);
    var B := Splice(A, HandleAt(E, q), h, i);
    SpliceLevel(nodes, A, E, p, h, q, i);
    forall j | 0 <= j < i ensures LevelLinked(nodes, B, E, j) {
      FrameLevel(nodes, A, B, E, j);
    }
    forall j | i < j < maxLevel ensures LevelLinked(nodes, B, Inserted(E, p, h), j) {
      FrameLevel(nodes, A, B, Inserted(E, p, h), j);
    }
  }

  /** One pass of the erase loop on level i, below the erased node's level:
      the predecessor points at the node, and relinking it moves level i to
      the new order and nothing else. */
  lemma UnsplicePass<V>(maxLevel: nat, nodes: seq<Node<V>>, A: seq<seq<Handle>>, E: seq<Handle>, k: int, q: nat, i: nat)
    requires Shaped(maxLevel, nodes, A) && OrderOk(maxLevel, nodes, E) && i < maxLevel
    requires LowerBound(EntriesOf(nodes, E), k) < |E|
    requires i < nodes[E[LowerBound(EntriesOf(nodes, E), k)]].level
    requires q <= |E| && IsPred(nodes, E, i, k, q) && OnlyAt(E, q)
    requires var p := LowerBound(EntriesOf(nodes, E), k);
      && InArena(nodes, Removed(E, p))
      && (forall j :: 0 <= j < i ==> LevelLinked(nodes, A, Removed(E, p), j))
      && (forall j :: i <= j < maxLevel ==> LevelLinked(nodes, A, E, j))
    ensures var p := LowerBound(EntriesOf(nodes, E), k);
      && 0 <= HandleAt(E, q) < |A| && i < |A[HandleAt(E, q)]| && 0 <= E[p] < |A| && i < |A[E[p]]|
      && A[HandleAt(E, q)][i] == E[p]
    ensures var p := LowerBound(EntriesOf(nodes, E), k);
      var B := Unsplice(A, HandleAt(E, q), E[p], i);
      && Shaped(maxLevel, nodes, B)
      && (forall j :: 0 <= j <= i ==> LevelLinked(nodes, B, Removed(E, p), j))
      && (forall j :: i < j < maxLevel ==> LevelLinked(nodes, B, E, j))
  {
    var p := LowerBound(EntriesOf(nodes, E), k);
    var B := Unsplice(A, HandleAt(E, q), E[p], i);
    UnspliceLevel(nodes, A, E, p, q, i);
    forall j | 0 <= j < i ensures LevelLinked(nodes, B, Removed(E, p), j) {
      FrameLevel(nodes, A, B, Removed(E, p), j);
    }
    forall j | i < j < maxLevel ensures LevelLinked(nodes, B, E, j) {
      FrameLevel(nodes, A, B, E, j);
    }
  }

  /** On level 0 every live node is linked, so a level-0 predecessor sits
      right before the lower bound, and its slot 0 points at the entry there. */
  lemma PredAtZero<V>(maxLevel: nat, nodes: seq<Node<V>>, fwd: seq<seq<Handle>>, E: seq<Handle>, k: int, q: nat)
    requires WellFormed(maxLevel, nodes, fwd, E) && q <= |E| && IsPred(nodes, E, 0, k, q)
    ensures q == LowerBound(EntriesOf(nodes, E), k)
    ensures 0 <= HandleAt(E, q) < |fwd| && 0 < |fwd[HandleAt(E, q)]|
    ensures fwd[HandleAt(E, q)][0] == if q < |E| then E[q] else Null
  {
    if q < |E| {
      assert 0 < nodes[E[q]].level;
    }
    NextPosUnique(nodes, E, 0, q, q);
    assert LevelLinked(nodes, fwd, E, 0);
    LinkAt(nodes, fwd, E, 0, q);
  }

  /** A walk that stops on level i before a node of key k has found k. */
  lemma WalkHit<V>(maxLevel: nat, nodes: seq<Node<V>>, E: seq<Handle>, k: int, i: nat, q: nat)
    requires OrderOk(maxLevel, nodes, E) && q <= |E|
    requires NextAt(nodes, E, i, q) != Null && nodes[NextAt(nodes, E, i, q)].key == k
    ensures NextAt(nodes, E, i, q) in E && HasKey(EntriesOf(nodes, E), k)
  {
    assert EntriesOf(nodes, E)[NextPos(nodes, E, i, q)].0 == k;
  }

  /** The not-found test of erase: when slot 0 of the level-0 predecessor is
      null or holds another key, erasing k from the entries changes nothing. */
  lemma EraseMiss<V>(maxLevel: nat, nodes: seq<Node<V>>, fwd: seq<seq<Handle>>, E: seq<Handle>, k: int, q: nat)
    requires WellFormed(maxLevel, nodes, fwd, E) && q <= |E| && IsPred(nodes, E, 0, k, q)
    requires 0 <= HandleAt(E, q) < |fwd| && 0 < |fwd[HandleAt(E, q)]|
    requires var x := fwd[HandleAt(E, q)][0]; x == Null || (0 <= x < |nodes| && nodes[x].key != k)
    ensures EraseEntry(EntriesOf(nodes, E), k) == (EntriesOf(nodes, E), None)
  {
    PredAtZero(maxLevel, nodes, fwd, E, k, q);
  }

  /** The found case of erase: slot 0 of the level-0 predecessor holds the
      node at the lower bound of k, and erasing k from the entries takes out
      exactly that node's entry. */
  lemma EraseHit<V>(maxLevel: nat, nodes: seq<Node<V>>, fwd: seq<seq<Handle>>, E: seq<Handle>, k: int, q: nat)
    requires WellFormed(maxLevel, nodes, fwd, E) && q <= |E| && IsPred(nodes, E, 0, k, q)
    requires 0 <= HandleAt(E, q) < |fwd| && 0 < |fwd[HandleAt(E, q)]|
    requires var x := fwd[HandleAt(E, q)][0]; x != Null && 0 <= x < |nodes| && nodes[x].key == k
    ensures var p, c := LowerBound(EntriesOf(nodes, E), k), EntriesOf(nodes, E);
      && p < |E| && fwd[HandleAt(E, q)][0] == E[p]
      && EraseEntry(c, k) == (c[..p] + c[p + 1..], Some((nodes[E[p]].key, nodes[E[p]].value)))
  {
    PredAtZero(maxLevel, nodes, fwd, E, k, q);
  }

  /** What the walk of get_previous_ptr leaves at a level-i predecessor of
      k: the head or a node of key below k, whose slot i is null or points at
      a live node of key at least k. */
  lemma PredBounds<V>(maxLevel: nat, nodes: seq<Node<V>>, fwd: seq<seq<Handle>>, E: seq<Handle>, k: int, q: nat, i: nat)
    requires WellFormed(maxLevel, nodes, fwd, E) && i < maxLevel && IsPred(nodes, E, i, k, q)
    ensures 0 < q ==> nodes[E[q - 1]].key < k
    ensures 0 <= HandleAt(E, q) < |fwd| && i < |fwd[HandleAt(E, q)]|
    ensures var x := fwd[HandleAt(E, q)][i];
      x == Null || (x in E && nodes[x].key >= k)
  {
    var c := EntriesOf(nodes, E);
    LowerBoundSorted(c, k);
    assert LevelLinked(nodes, fwd, E, i);
    LinkAt(nodes, fwd, E, i, q);
    var s := NextPos(nodes, E, i, q);
    if s < |E| {
      assert c[s].0 >= k;
    }
    if 0 < q {
      assert c[q - 1].0 < k;
    }
  }

  /** The test that ends the erase loop: on level i the predecessor of k
      points at the erased node (the first one of key at least k) exactly
      when that node is on level i. */
  lemma SlotIsErased<V>(maxLevel: nat, nodes: seq<Node<V>>, fwd: seq<seq<Handle>>, E: seq<Handle>, k: int, q: nat, i: nat)
    requires Shaped(maxLevel, nodes, fwd) && OrderOk(maxLevel, nodes, E) && i < maxLevel
    requires LevelLinked(nodes, fwd, E, i) && IsPred(nodes, E, i, k, q)
    requires LowerBound(EntriesOf(nodes, E), k) < |E|
    ensures 0 <= HandleAt(E, q) < |fwd| && i < |fwd[HandleAt(E, q)]|
    ensures var P := LowerBound(EntriesOf(nodes, E), k);
      fwd[HandleAt(E, q)][i] == E[P] <==> i < nodes[E[P]].level
  {
    var P := LowerBound(EntriesOf(nodes, E), k);
    LinkAt(nodes, fwd, E, i, q);
    if i < nodes[E[P]].level {
      NextPosUnique(nodes, E, i, q, P);
    } else {
      var s := NextPos(nodes, E, i, q);
      assert s != P;
      if s < |E| {
        assert E[s] != E[P];
      }
    }
  }

  // ----- the level chains -----

  /** The level-i chain of s: the nodes of s whose level exceeds i, in the
      order of s. A node belongs to it exactly when its level exceeds i. */
  ghost function Chain<V>(nodes: seq<Node<V>>, s: seq<Handle>, i: nat): (c: seq<Handle>)
    requires InArena(nodes, s)
    ensures InArena(nodes, c) && |c| <= |s|
  {
    if s == [] then []
    else
      (if i < nodes[s[0]].level then [s[0]] else []) + Chain(nodes, s[1..], i)
  }

  /** A node is on the level-i chain of s exactly when it is in s and its
      level exceeds i. */
  lemma {:induction false} ChainMember<V>(nodes: seq<Node<V>>, s: seq<Handle>, i: nat, x: Handle)
    requires InArena(nodes, s)
    ensures x in Chain(nodes, s, i) <==> x in s && 0 <= x < |nodes| && i < nodes[x].level
  {
    if s != [] {
      ChainMember(nodes, s[1..], i, x);
      assert x in s <==> x == s[0] || x in s[1..];
    }
  }

  lemma {:induction false} ChainConcat<V>(nodes: seq<Node<V>>, a: seq<Handle>, b: seq<Handle>, i: nat)
    requires InArena(nodes, a) && InArena(nodes, b)
    ensures InArena(nodes, a + b)
    ensures Chain(nodes, a + b, i) == Chain(nodes, a, i) + Chain(nodes, b, i)
  {
    if a == [] {
      assert a + b == b;
    } else {
      var ab := a + b;
      assert ab[0] == a[0] && ab[1..] == a[1..] + b;
      assert InArena(nodes, a[1..]);
      ChainConcat(nodes, a[1..], b, i);
      var hd := if i < nodes[a[0]].level then [a[0]] else [];
      assert Chain(nodes, ab, i) == hd + Chain(nodes, a[1..] + b, i);
      assert Chain(nodes, a, i) == hd + Chain(nodes, a[1..], i);
      assert (hd + Chain(nodes, a[1..], i)) + Chain(nodes, b, i) == hd + (Chain(nodes, a[1..], i) + Chain(nodes, b, i));
    }
  }

  /** The level-i chain of a, then x, then b, and of a then b. */
  lemma ChainSplit<V>(nodes: seq<Node<V>>, a: seq<Handle>, x: Handle, b: seq<Handle>, i: nat)
    requires InArena(nodes, a) && InArena(nodes, b) && 0 < x < |nodes|
    ensures InArena(nodes, a + b) && InArena(nodes, a + ([x] + b))
    ensures Chain(nodes, a + b, i) == Chain(nodes, a, i) + Chain(nodes, b, i)
    ensures Chain(nodes, a + ([x] + b), i) ==
      Chain(nodes, a, i) + (if i < nodes[x].level then [x] else []) + Chain(nodes, b, i)
  {
    assert ([x] + b)[0] == x && ([x] + b)[1..] == b;
    ChainConcat(nodes, a, b, i);
    ChainConcat(nodes, a, [x] + b, i);
    var hd, ca, cb := (if i < nodes[x].level then [x] else []), Chain(nodes, a, i), Chain(nodes, b, i);
    assert Chain(nodes, [x] + b, i) == hd + cb;
    assert ca + (hd + cb) == ca + hd + cb;
  }

  /** Erase keeps the order of the other nodes on every level: the level-i
      chain without the erased node is the old chain with that node dropped. */
  lemma ChainRemoved<V>(nodes: seq<Node<V>>, E: seq<Handle>, p: nat, i: nat)
    requires InArena(nodes, E) && p < |E|
    ensures InArena(nodes, Removed(E, p))
    ensures Chain(nodes, E, i) ==
      Chain(nodes, E[..p], i) + (if i < nodes[E[p]].level then [E[p]] else []) + Chain(nodes, E[p + 1..], i)
    ensures Chain(nodes, Removed(E, p), i) == Chain(nodes, E[..p], i) + Chain(nodes, E[p + 1..], i)
  {
    var a, b := E[..p], E[p + 1..];
    assert Removed(E, p) == a + b;
    assert E == a + ([E[p]] + b);
    ChainSplit(nodes, a, E[p], b, i);
  }

  /** Insert keeps the order of the other nodes on every level: the new
      level-i chain is the old one with h put in at the split position when
      h is on level i. */
  lemma ChainInserted<V>(nodes: seq<Node<V>>, E: seq<Handle>, p: nat, h: Handle, i: nat)
    requires InArena(nodes, E) && p <= |E| && 0 < h < |nodes|
    ensures InArena(nodes, Inserted(E, p, h))
    ensures Chain(nodes, E, i) == Chain(nodes, E[..p], i) + Chain(nodes, E[p..], i)
    ensures Chain(nodes, Inserted(E, p, h), i) ==
      Chain(nodes, E[..p], i) + (if i < nodes[h].level then [h] else []) + Chain(nodes, E[p..], i)
  {
    var a, b := E[..p], E[p..];
    assert E == a + b;
    assert Inserted(E, p, h) == a + ([h] + b);
    ChainSplit(nodes, a, h, b, i);
  }

  /** The level-i chain of a suffix starts at the next level-i node. */
  lemma {:induction false} ChainSuffix<V>(nodes: seq<Node<V>>, E: seq<Handle>, i: nat, m: nat)
    requires InArena(nodes, E) && m <= |E|
    ensures InArena(nodes, E[m..])
    ensures NextPos(nodes, E, i, m) == |E| ==> Chain(nodes, E[m..], i) == []
    ensures NextPos(nodes, E, i, m) < |E| ==>
      Chain(nodes, E[m..], i) == [E[NextPos(nodes, E, i, m)]] + Chain(nodes, E[NextPos(nodes, E, i, m) + 1..], i)
    decreases |E| - m
  {
    if m == |E| {
      assert E[m..] == [];
    } else {
      assert E[m..][1..] == E[m + 1..];
      assert E[m..][0] == E[m];
      if i < nodes[E[m]].level {
        assert NextPos(nodes, E, i, m) == m;
      } else {
        assert NextPos(nodes, E, i, m) == NextPos(nodes, E, i, m + 1);
        assert Chain(nodes, E[m..], i) == Chain(nodes, E[m + 1..], i);
        ChainSuffix(nodes, E, i, m + 1);
      }
    }
  }

  /** Following forward slot i from x visits exactly the nodes of c, in order,
      and ends with a null slot. */
  ghost predicate LinkedFrom(fwd: seq<seq<Handle>>, i: nat, x: Handle, c: seq<Handle>)
    decreases |c|
  {
    && 0 <= x < |fwd| && i < |fwd[x]|
    && fwd[x][i] == (if c == [] then Null else c[0])
    && (c != [] ==> LinkedFrom(fwd, i, c[0], c[1..]))
  }

  lemma {:induction false} LinkedSuffix<V>(nodes: seq<Node<V>>, fwd: seq<seq<Handle>>, E: seq<Handle>, i: nat, m: nat, x: Handle)
    requires InArena(nodes, E) && m <= |E| && LevelLinked(nodes, fwd, E, i)
    requires 0 <= x < |fwd| && i < |fwd[x]| && fwd[x][i] == NextAt(nodes, E, i, m)
    ensures InArena(nodes, E[m..])
    ensures LinkedFrom(fwd, i, x, Chain(nodes, E[m..], i))
    decreases |E| - m
  {
    ChainSuffix(nodes, E, i, m);
    var r := NextPos(nodes, E, i, m);
    var c := Chain(nodes, E[m..], i);
    if r < |E| {
      var tl := Chain(nodes, E[r + 1..], i);
      assert c == [E[r]] + tl;
      assert c[1..] == tl;
      LinkAt(nodes, fwd, E, i, r + 1);
      LinkedSuffix(nodes, fwd, E, i, r + 1, E[r]);
    } else {
      assert c == [];
    }
  }

  /** Following slot i from the head visits exactly the level-i chain of the
      live nodes: the link structure spells out every level chain. */
  lemma ChainFromHead<V>(maxLevel: nat, nodes: seq<Node<V>>, fwd: seq<seq<Handle>>, E: seq<Handle>, i: nat)
    requires WellFormed(maxLevel, nodes, fwd, E) && i < maxLevel
    ensures LinkedFrom(fwd, i, Head, Chain(nodes, E, i))
  {
    assert LevelLinked(nodes, fwd, E, i);
    LinkedSuffix(nodes, fwd, E, i, 0, Head);
    assert E[0..] == E;
  }

  /** The level-(i+1) chain is the level-i chain with its nodes of level i+1
      dropped: each chain is a subsequence of the one below it. */
  lemma {:induction false} ChainNested<V>(nodes: seq<Node<V>>, s: seq<Handle>, i: nat)
    requires InArena(nodes, s)
    ensures Chain(nodes, Chain(nodes, s, i), i + 1) == Chain(nodes, s, i + 1)
  {
    if s != [] {
      ChainNested(nodes, s[1..], i);
      var rest := Chain(nodes, s[1..], i);
      if i < nodes[s[0]].level {
        var c := [s[0]] + rest;
        assert Chain(nodes, s, i) == c;
        assert c[0] == s[0] && c[1..] == rest;
      } else {
        assert Chain(nodes, s, i) == rest;
        assert Chain(nodes, s, i + 1) == Chain(nodes, s[1..], i + 1);
      }
    }
  }

  /** The tail of a key-sorted order is key-sorted. */
  lemma SortedTail<V>(nodes: seq<Node<V>>, s: seq<Handle>)
    requires InArena(nodes, s) && s != [] && SortedKeys(EntriesOf(nodes, s))
    ensures SortedKeys(EntriesOf(nodes, s[1..]))
  {
    var es := EntriesOf(nodes, s);
    forall a, b | 0 <= a < b < |s| - 1
      ensures EntriesOf(nodes, s[1..])[a].0 <= EntriesOf(nodes, s[1..])[b].0
    {
      assert es[a + 1].0 <= es[b + 1].0;
    }
  }

  /** In a key-sorted order, the first node's key is at most the key of every
      node on the chain of the rest. */
  lemma ChainHeadBelow<V>(nodes: seq<Node<V>>, s: seq<Handle>, i: nat, x: Handle)
    requires InArena(nodes, s) && s != [] && SortedKeys(EntriesOf(nodes, s))
    requires x in Chain(nodes, s[1..], i)
    ensures 0 <= x < |nodes| && nodes[s[0]].key <= nodes[x].key
  {
    var es := EntriesOf(nodes, s);
    ChainMember(nodes, s[1..], i, x);
    var t :| 0 <= t < |s| - 1 && s[1..][t] == x;
    assert es[0].0 <= es[t + 1].0;
  }

  /** Every level chain of a key-sorted order is key-sorted. */
  lemma {:induction false} ChainSorted<V>(nodes: seq<Node<V>>, s: seq<Handle>, i: nat)
    requires InArena(nodes, s) && SortedKeys(EntriesOf(nodes, s))
    ensures SortedKeys(EntriesOf(nodes, Chain(nodes, s, i)))
  {
    if s != [] {
      SortedTail(nodes, s);
      ChainSorted(nodes, s[1..], i);
      var rest := Chain(nodes, s[1..], i);
      var c := Chain(nodes, s, i);
      if i < nodes[s[0]].level {
        var er := EntriesOf(nodes, rest);
        var ec := EntriesOf(nodes, c);
        assert c == [s[0]] + rest;
        forall a, b | 0 <= a < b < |c| ensures ec[a].0 <= ec[b].0 {
          if a == 0 {
            assert c[b] == rest[b - 1];
            ChainHeadBelow(nodes, s, i, c[b]);
          } else {
            assert ec[a] == er[a - 1] && ec[b] == er[b - 1];
          }
        }
      }
    }
  }

  /** Clearing the slots of a node that is neither the head nor live keeps
      the invariant. */
  lemma UnlinkDetached<V>(maxLevel: nat, nodes: seq<Node<V>>, fwd: seq<seq<Handle>>, E: seq<Handle>, h: Handle)
    requires WellFormed(maxLevel, nodes, fwd, E) && 0 < h < |nodes| && h !in E
    ensures WellFormed(maxLevel, nodes, fwd[h := Nulls(|fwd[h]|)], E)
  {
    var B := fwd[h := Nulls(|fwd[h]|)];
    forall i | 0 <= i < maxLevel ensures LevelLinked(nodes, B, E, i) {
      assert LevelLinked(nodes, fwd, E, i);
      FrameLevel(nodes, fwd, B, E, i);
    }
  }
}
