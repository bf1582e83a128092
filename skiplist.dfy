/** The skip list itself: a head node of `maxLevel` forward slots, an
    element counter, and the nodes reachable along level 0. Each operation
    below follows one member function of the C++ class, with its loops, and
    is proved against the sorted sequence of (key, value) entries the list
    stands for. */
module SkipLists {
  import opened Nodes
  import opened EntryList
  import opened Levels

  /** The number of leading heads of a run of coin flips: the number of times
      `rand() % 2` is taken as true before the first false. */
  function LeadingHeads(coins: seq<bool>): (n: nat)
    ensures n <= |coins|
    ensures forall t :: 0 <= t < n ==> coins[t]
    ensures n < |coins| ==> !coins[n]
  {
    if coins == [] || !coins[0] then 0 else 1 + LeadingHeads(coins[1..])
  }

  /** The level a run of coin flips draws for a new node: one plus the
      leading heads, capped at maxLevel. */
  function DrawnLevel(coins: seq<bool>, maxLevel: int): int
  {
    var k := 1 + LeadingHeads(coins);
    if k < maxLevel then k else maxLevel
  }

  class SkipList<V(0)> {
    /** max_level_: the number of levels, the head's number of slots. */
    const maxLevel: int
    /** The arena: the key, value and level of every node ever created. */
    var nodes: seq<Node<V>>
    /** The forward_ vector of every node of the arena. */
    var forward: seq<seq<Handle>>
    /** element_count_. */
    var count: int
    /** The live nodes in level-0 order. */
    ghost var elems: seq<Handle>

    ghost predicate Valid()
      reads this
    {
      0 < maxLevel && WellFormed(maxLevel, nodes, forward, elems) && count == |elems|
    }

    /** The entries the list stands for, in level-0 order. */
    ghost function Contents(): seq<Entry<V>>
      reads this
      requires Valid()
    {
      EntriesOf(nodes, elems)
    }

    /** The constructor builds the head: a node of arbitrary key and value (the
        default-initialized `K k; V v;`) with `level` null slots; the list is
        empty. */
    constructor (level: int)
      requires 0 < level
      ensures Valid() && Contents() == [] && count == 0
      ensures maxLevel == level && |nodes| == 1 && nodes[Head].level == level
      ensures forward == [Nulls(level)]
    {
      var k: int := *;
      var v: V := *;
      maxLevel := level;
      nodes := [Node(k, v, level)];
      forward := [Nulls(level)];
      count := 0;
      elems := [];
      new;
      assert LevelLinked(nodes, forward, elems, 0);
    }

    /** get_max_level. */
    function GetMaxLevel(): (n: int)
      reads this
      requires Valid()
      ensures 0 < n && n == |forward[Head]|
    {
      maxLevel
    }

    /** size: the element counter is the number of entries. */
    function Size(): (n: int)
      reads this
      requires Valid()
      ensures n == |Contents()|
    {
      count
    }

    /** create_node: a fresh node with `level` null slots, not yet linked. */
    method CreateNode(k: int, v: V, level: nat) returns (h: Handle)
      requires Valid()
      modifies this
      ensures Valid()
      ensures h == |old(nodes)| && nodes == old(nodes) + [Node(k, v, level)]
      ensures forward == old(forward) + [Nulls(level)]
      ensures elems == old(elems) && count == old(count) && Contents() == old(Contents())
    {
      ExtendArena(maxLevel, nodes, forward, elems, Node(k, v, level));
      h := |nodes|;
      nodes := nodes + [Node(k, v, level)];
      forward := forward + [Nulls(level)];
    }

    /** Node::unlink: every slot of node h becomes null. Unlinking a node that
        is neither the head nor live keeps the invariant. */
    method Unlink(h: Handle)
      requires 0 <= h < |forward|
      modifies this
      ensures forward == old(forward)[h := Nulls(|old(forward)[h]|)]
      ensures nodes == old(nodes) && elems == old(elems) && count == old(count)
      ensures old(Valid()) && h != Head && h !in elems ==> Valid()
    {
      ghost var valid := Valid();
      if valid && h != Head && h !in elems {
        UnlinkDetached(maxLevel, nodes, forward, elems, h);
      }
      ghost var F := forward;
      assert F[h := Nulls(0) + F[h][0..]] == F by {
        assert Nulls(0) + F[h][0..] == F[h];
      }
      var j := 0;
      while j < |forward[h]|
        invariant |forward| == |F| && |forward[h]| == |F[h]| && 0 <= j <= |F[h]|
        invariant forward == F[h := Nulls(j) + F[h][j..]]
        invariant nodes == old(nodes) && elems == old(elems) && count == old(count)
      {
        forward := forward[h := forward[h][j := Null]];
        j := j + 1;
        assert forward[h] == Nulls(j) + F[h][j..];
      }
      assert F[h][j..] == [];
      assert Nulls(j) + [] == Nulls(|F[h]|);
    }

    /** get_random_level: count the heads before the first tail, starting
        from 1, and cap at maxLevel. The flips of `rand() % 2` are the
        sequence `coins`, which must hold a tail for the loop to end. */
    method RandomLevel(coins: seq<bool>) returns (level: int)
      requires false in coins
      ensures level == DrawnLevel(coins, maxLevel)
      ensures 0 < maxLevel ==> 1 <= level <= maxLevel
      ensures level <= 1 + LeadingHeads(coins)
    {
      var f :| 0 <= f < |coins| && !coins[f];
      assert LeadingHeads(coins) <= f;
      var k := 1;
      while coins[k - 1]
        invariant 1 <= k <= LeadingHeads(coins) + 1
        decreases |coins| - k
      {
        k := k + 1;
      }
      level := if k < maxLevel then k else maxLevel;
    }

    /** The inner loop of get_previous_ptr and search_ptr: on level i, move
        right from curr (the node at position q) while the next node's key is
        below k. It stops at a level-i predecessor of k. */
    method WalkLevel(curr: Handle, ghost q: nat, i: nat, k: int) returns (last: Handle, ghost q': nat)
      requires 0 < maxLevel && OrderOk(maxLevel, nodes, elems) && 0 < |nodes|
      requires i < maxLevel && LevelLinked(nodes, forward, elems, i)
      requires q <= LowerBound(EntriesOf(nodes, elems), k) && curr == HandleAt(elems, q) && i < nodes[curr].level
      ensures q <= q' <= |elems| && last == HandleAt(elems, q') && IsPred(nodes, elems, i, k, q')
      ensures 0 <= last < |forward| && i < |forward[last]| && forward[last][i] == NextAt(nodes, elems, i, q')
    {
      var N, F := nodes, forward;
      ghost var E := elems;
      WalkStart(maxLevel, N, F, E, k, i, q);
      last, q' := curr, q;
      while F[last][i] != Null && N[F[last][i]].key < k
        invariant Walking(maxLevel, N, F, E, k, i, q, q', last)
        decreases |E| - q'
      {
        WalkAdvance(maxLevel, N, F, E, k, i, q, q', last);
        q' := NextPos(N, E, i, q') + 1;
        last := F[last][i];
      }
      WalkDone(maxLevel, N, F, E, k, i, q, q', last);
    }

    /** get_previous_ptr: walk down from the top level, on each level moving
        right while the next key is below k, and record where each level
        stopped. prev[i] is the level-i predecessor of k: the last node of
        level i before the first entry of key at least k. */
    method GetPreviousPtr(k: int) returns (prev: seq<Handle>, ghost pos: seq<nat>)
      requires Valid()
      ensures |prev| == maxLevel && |pos| == maxLevel
      ensures forall i :: 0 <= i < maxLevel ==>
        pos[i] <= |elems| && prev[i] == HandleAt(elems, pos[i]) && IsPred(nodes, elems, i, k, pos[i])
      ensures forall i :: 0 <= i < maxLevel ==>
        && (prev[i] == Head || (prev[i] in elems && nodes[prev[i]].key < k))
        && 0 <= prev[i] < |forward| && i < |forward[prev[i]]|
        && (forward[prev[i]][i] == Null || (forward[prev[i]][i] in elems && nodes[forward[prev[i]][i]].key >= k))
    {
      prev := seq(maxLevel, _ => Head);
      pos := seq(maxLevel, _ => 0);
      ghost var N, E := nodes, elems;
      var curr := Head;
      ghost var q: nat := 0;
      var i := maxLevel;
      while i > 0
        invariant 0 <= i <= maxLevel && |prev| == maxLevel && |pos| == maxLevel
        invariant q <= LowerBound(EntriesOf(N, E), k) && curr == HandleAt(E, q) && i <= N[curr].level
        invariant forall j :: i <= j < maxLevel ==>
          pos[j] <= |E| && prev[j] == HandleAt(E, pos[j]) && IsPred(N, E, j, k, pos[j])
      {
        i := i - 1;
        assert LevelLinked(nodes, forward, elems, i);
        curr, q := WalkLevel(curr, q, i, k);
        prev := prev[i := curr];
        pos := pos[i := q];
      }
      forall i | 0 <= i < maxLevel
        ensures && (prev[i] == Head || (prev[i] in elems && nodes[prev[i]].key < k))
                && 0 <= prev[i] < |forward| && i < |forward[prev[i]]|
                && (forward[prev[i]][i] == Null || (forward[prev[i]][i] in elems && nodes[forward[prev[i]][i]].key >= k))
      {
        PredBounds(maxLevel, nodes, forward, elems, k, pos[i], i);
      }
    }

    /** search_ptr: the same walk, stopping at the first level where the next
        node has key k. It returns that node's predecessor on that level, or
        Null when no entry has key k. */
    method SearchPtr(k: int) returns (r: Handle, ghost lvl: int)
      requires Valid()
      ensures r == Null <==> !HasKey(Contents(), k)
      ensures r != Null ==> r == Head || (r in elems && nodes[r].key < k)
      ensures r != Null ==>
        && 0 <= lvl < maxLevel && 0 <= r < |forward| && lvl < |forward[r]|
        && forward[r][lvl] in elems && nodes[forward[r][lvl]].key == k
    {
      var N, F := nodes, forward;
      var prev := Head;
      ghost var q: nat := 0;
      var i := maxLevel;
      while i > 0
        invariant 0 <= i <= maxLevel && Descending(maxLevel, N, elems, k, i, q, prev)
      {
        i := i - 1;
        prev, q := WalkLevel(prev, q, i, k);
        if F[prev][i] != Null && N[F[prev][i]].key == k {
          PredBounds(maxLevel, nodes, forward, elems, k, q, i);
          WalkHit(maxLevel, nodes, elems, k, i, q);
          return prev, i;
        }
      }
      SearchMisses(k, q);
      r, lvl := Null, 0;
    }

    /** When the walk ends on level 0 at a predecessor whose next node does
        not have key k, no entry has key k. */
    lemma SearchMisses(k: int, q: nat)
      requires Valid() && q <= |elems| && IsPred(nodes, elems, 0, k, q)
      requires NextAt(nodes, elems, 0, q) == Null || nodes[NextAt(nodes, elems, 0, q)].key != k
      ensures !HasKey(Contents(), k)
    {
      LowerBoundSorted(Contents(), k);
      PredAtZero(maxLevel, nodes, forward, elems, k, q);
      LinkAt(nodes, forward, elems, 0, q);
    }

    /** search: whether some entry has key k. */
    method Search(k: int) returns (found: bool)
      requires Valid()
      ensures found <==> HasKey(Contents(), k)
    {
      var r;
      ghost var lvl;
      r, lvl := SearchPtr(k);
      found := r != Null;
    }

    /** insert: draw a level, create the node, find its predecessors, and on
        every level of the node splice it in after its predecessor. The node
        goes before every entry of key at least k, so an equal key is put in
        front of the entries that already have it. */
    method Insert(k: int, v: V, coins: seq<bool>)
      requires Valid() && false in coins
      modifies this
      ensures Valid()
      ensures nodes == old(nodes) + [Node(k, v, DrawnLevel(coins, maxLevel))]
      ensures elems == Inserted(old(elems), LowerBound(old(Contents()), k), |old(nodes)|)
      ensures Contents() == InsertEntry(old(Contents()), k, v)
      ensures count == old(count) + 1
      ensures forall x :: 0 < x < |old(forward)| && x !in old(elems) ==> forward[x] == old(forward)[x]
    {
      var level := RandomLevel(coins);
      var h := CreateNode(k, v, level);
      var prev;
      ghost var pos;
      prev, pos := GetPreviousPtr(k);
      ghost var E := elems;
      ghost var p := LowerBound(Contents(), k);
      EntriesInserted(nodes, E, h);
      LinkIn(prev, pos, k, h, p);
      elems := Inserted(E, p, h);
      count := count + 1;
    }

    /** The loop of insert: from the top level of the new node h down, h takes
        over the link of its level-i predecessor, which then points at h.
        Afterwards the links describe the live nodes with h put in at the
        lower bound p of its key. */
    method LinkIn(prev: seq<Handle>, ghost pos: seq<nat>, k: int, h: Handle, ghost p: nat)
      requires Valid() && |prev| == maxLevel && |pos| == maxLevel
      requires forall i :: 0 <= i < maxLevel ==>
        pos[i] <= |elems| && prev[i] == HandleAt(elems, pos[i]) && IsPred(nodes, elems, i, k, pos[i])
      requires 0 < h < |nodes| && h !in elems && nodes[h].key == k && 1 <= nodes[h].level <= maxLevel
      requires p == LowerBound(Contents(), k)
      modifies this
      ensures nodes == old(nodes) && elems == old(elems) && count == old(count)
      ensures WellFormed(maxLevel, nodes, forward, Inserted(elems, p, h))
      ensures |forward| == |old(forward)|
      ensures forall x :: 0 < x < |forward| && x != h && x !in elems ==> forward[x] == old(forward)[x]
    {
      ghost var N, E, F := nodes, elems, forward;
      ghost var E' := Inserted(E, p, h);
      var level := nodes[h].level;
      EntriesInserted(N, E, h);
      forall j | level <= j < maxLevel ensures LevelLinked(N, forward, E', j) {
        assert LevelLinked(N, forward, E, j);
        InsertKeepsLevel(N, forward, E, p, h, j);
      }
      var i := level;
      while i > 0
        invariant 0 <= i <= level
        invariant nodes == N && elems == E && count == old(count)
        invariant Shaped(maxLevel, N, forward) && |forward| == |F|
        invariant forall j :: 0 <= j < i ==> LevelLinked(N, forward, E, j)
        invariant forall j :: i <= j < maxLevel ==> LevelLinked(N, forward, E', j)
        invariant forall x :: 0 < x < |F| && x != h && x !in E ==> forward[x] == F[x]
      {
        i := i - 1;
        ghost var A := forward;
        var pr := prev[i];
        DistinctOnlyAt(N, E, pos[i]);
        SplicePass(maxLevel, N, A, E, k, h, pos[i], i);
        forward := forward[h := forward[h][i := forward[pr][i]]];
        forward := forward[pr := forward[pr][i := h]];
        assert forward == Splice(A, pr, h, i);
      }
      InsertWellFormed(maxLevel, N, forward, E, h);
    }

    /** The loop of erase: from level 0 up, every predecessor that points at
        r (the node at the lower bound of k) takes over r's link on that level;
        the first predecessor that points elsewhere ends the loop. Afterwards
        the links describe the live nodes without r. */
    method Relink(update: seq<Handle>, ghost pos: seq<nat>, k: int, r: Handle, ghost p: nat)
      requires Valid() && |update| == maxLevel && |pos| == maxLevel
      requires forall i :: 0 <= i < maxLevel ==>
        pos[i] <= |elems| && update[i] == HandleAt(elems, pos[i]) && IsPred(nodes, elems, i, k, pos[i])
      requires p == LowerBound(Contents(), k) && p < |elems| && r == elems[p]
      modifies this
      ensures nodes == old(nodes) && elems == old(elems) && count == old(count)
      ensures WellFormed(maxLevel, nodes, forward, Removed(elems, p))
      ensures |forward| == |old(forward)|
      ensures forall x :: 0 < x < |forward| && (x !in elems || x == r) ==> forward[x] == old(forward)[x]
    {
      ghost var N, E := nodes, elems;
      RelinkStart(maxLevel, N, forward, E, p);
      var i := 0;
      while i < |update|
        invariant nodes == N && elems == E && count == old(count)
        invariant i <= maxLevel && Relinked(maxLevel, N, forward, E, p, i)
        invariant |forward| == |old(forward)|
        invariant forall x :: 0 < x < |forward| && (x !in E || x == r) ==> forward[x] == old(forward)[x]
      {
        SlotIsErased(maxLevel, N, forward, E, k, pos[i], i);
        if forward[update[i]][i] != r {
          break;
        }
        ghost var A := forward;
        var pr := update[i];
        PredNotErased(N, E, k, pos[i]);
        RelinkStep(maxLevel, N, A, E, k, pos[i], i);
        forward := forward[pr := forward[pr][i := forward[r][i]]];
        assert forward == Unsplice(A, pr, r, i);
        i := i + 1;
      }
      RelinkDone(maxLevel, N, forward, E, p, i);
    }

    /** erase: find the predecessors of k; if the next node on level 0 does
        not have key k, nothing changes and Null is returned. Otherwise, from
        level 0 up, each predecessor that points at the node takes over its
        link; the first one that does not ends the loop, which happens exactly
        at the node's level. The node, the first entry of key k, is returned. */
    method Erase(k: int) returns (r: Handle)
      requires Valid()
      modifies this
      ensures Valid()
      ensures nodes == old(nodes)
      ensures Contents() == EraseEntry(old(Contents()), k).0
      ensures r == Null <==> EraseEntry(old(Contents()), k).1.None?
      ensures r == Null ==> forward == old(forward) && elems == old(elems) && count == old(count)
      ensures r != Null ==>
        && 0 < r < |nodes| && EraseEntry(old(Contents()), k).1 == Some((nodes[r].key, nodes[r].value))
        && r == old(elems)[LowerBound(old(Contents()), k)] && r !in elems
        && elems == Removed(old(elems), LowerBound(old(Contents()), k))
        && count == old(count) - 1
      ensures |forward| == |old(forward)|
      ensures forall x :: 0 < x < |forward| && (x !in old(elems) || x == r) ==> forward[x] == old(forward)[x]
    {
      var update;
      ghost var pos;
      update, pos := GetPreviousPtr(k);
      ghost var E := elems;
      ghost var c := Contents();
      ghost var p := LowerBound(c, k);
      if forward[update[0]][0] == Null || nodes[forward[update[0]][0]].key != k {
        EraseMiss(maxLevel, nodes, forward, E, k, pos[0]);
        return Null;
      }
      r := forward[update[0]][0];
      EraseHit(maxLevel, nodes, forward, E, k, pos[0]);
      EntriesRemoved(nodes, E, p);
      RemovedLacks(E, p);
      Relink(update, pos, k, r, p);
      count := count - 1;
      elems := Removed(E, p);
    }
  }
}
