/** Where each chunk of a buffer is placed: the node sequences of the three allocation policies. */
module Placement {
  import opened Arithmetic
  import opened ChunkPool
  import opened MemoryNodes

  datatype Policy =
    | Preferred(first: ddr)
    | LeastLoaded(threshold: nat)
    | Balanced(threshold: nat, clusterSize: nat)

  /** Chunks on both free lists. */
  function TotalFree(p: Pool): nat
    requires p.Shape()
  {
    |p.free[0]| + |p.free[1]|
  }

  lemma {:induction false} CountTotal(nodes: seq<ddr>)
    ensures Count(nodes, 0) + Count(nodes, 1) == |nodes|
  {
    if |nodes| != 0 { CountTotal(nodes[..|nodes| - 1]); }
  }

  // ----- preferred: the first node as long as it lasts, then the other

  function PreferredNodes(p: Pool, first: ddr, n: nat): (nodes: seq<ddr>)
    requires p.Shape()
    ensures |nodes| == n
  {
    seq(n, i requires 0 <= i < n => if i < |p.free[first]| then first else 1 - first)
  }

  lemma {:induction false} PreferredCounts(p: Pool, first: ddr, n: nat)
    requires p.Shape()
    ensures var nodes := PreferredNodes(p, first, n);
            && Count(nodes, first) == (if n < |p.free[first]| then n else |p.free[first]|)
            && Count(nodes, 1 - first) == (if n < |p.free[first]| then 0 else n - |p.free[first]|)
  {
    if n != 0 {
      PreferredCounts(p, first, n - 1);
      PreferredSnoc(p, first, n - 1);
      CountSnoc(PreferredNodes(p, first, n - 1), PreferredNodes(p, first, n)[n - 1]);
    }
  }

  lemma PreferredNone(p: Pool, first: ddr)
    requires p.Shape()
    ensures PreferredNodes(p, first, 0) == []
  {
  }

  lemma PreferredSnoc(p: Pool, first: ddr, n: nat)
    requires p.Shape()
    ensures PreferredNodes(p, first, n + 1) ==
            PreferredNodes(p, first, n) + [if n < |p.free[first]| then first else 1 - first]
  {
  }

  /** Turn i of the preferred policy finds a chunk where the placement says, without coming back to its start. */
  lemma PreferredTurn(p: Pool, first: ddr, i: nat, capacity: seq<nat>, size: nat)
    requires p.Shape() && Accounted(p, capacity, size) && i < TotalFree(p)
    ensures var nodes := PreferredNodes(p, first, i);
            && Feasible(p, nodes)
            && var q, d := After(p, nodes, size), if i == 0 then first else nodes[i - 1];
            && Accounted(q, capacity, size)
            && NextNode(q, d) == (if i < |p.free[first]| then first else 1 - first)
            && |q.free[NextNode(q, d)]| > 0 && Count(nodes, NextNode(q, d)) < |p.free[NextNode(q, d)]|
            && (|q.free[d]| == 0 ==> 1 - d != first)
  {
    hide Accounted, Count;
    var nodes := PreferredNodes(p, first, i);
    PreferredCounts(p, first, i);
    PreferredIsFeasible(p, first, i);
    AfterAccounted(p, capacity, size, nodes);
    var q := After(p, nodes, size);
    assert |q.free[first]| == |p.free[first]| - Count(nodes, first);
    assert |q.free[1 - first]| == |p.free[1 - first]| - Count(nodes, 1 - first);
    assert i > 0 && nodes[i - 1] != first ==> |q.free[first]| == 0;
  }

  /** The preferred placement works whenever the two nodes together hold enough. */
  lemma PreferredIsFeasible(p: Pool, first: ddr, n: nat)
    requires p.Shape() && n <= TotalFree(p)
    ensures Feasible(p, PreferredNodes(p, first, n))
  {
    PreferredCounts(p, first, n);
  }

  // ----- least loaded: all chunks on one node

  /** The node the search settles on, in the arithmetic of the source. */
  function LeastLoadedNode(p: Pool, capacity: seq<nat>, size: nat, n: nat, threshold: nat): ddr
    requires p.Shape() && |capacity| == 2
  {
    var tba, th := n * size, threshold * size;
    var fits1 := p.used[1] <= capacity[1] && capacity[1] - p.used[1] >= tba;
    var least := if fits1 then p.used[1] else capacity[1];
    if p.used[0] + th < least && capacity[0] - p.used[0] >= tba then 0 else if fits1 then 1 else 0
  }

  /**
   Node 0 is chosen exactly when node 1 has no room, or when node 0 has room and is less loaded than node 1
   by more than the penalty.
   */
  lemma LeastLoadedChoice(p: Pool, capacity: seq<nat>, size: nat, n: nat, threshold: nat)
    requires Accounted(p, capacity, size) && size > 0
    ensures LeastLoadedNode(p, capacity, size, n, threshold) == 0 <==>
            |p.free[1]| < n || (|p.free[0]| >= n && p.used[0] + threshold * size < p.used[1])
  {
    RoomIsChunks(p, capacity, size, 0, n);
    RoomIsChunks(p, capacity, size, 1, n);
  }

  /** Whenever some node has room for n chunks, the chosen one does. */
  lemma LeastLoadedHasRoom(p: Pool, capacity: seq<nat>, size: nat, n: nat, threshold: nat)
    requires Accounted(p, capacity, size) && size > 0
    requires n <= |p.free[0]| || n <= |p.free[1]|
    ensures n <= |p.free[LeastLoadedNode(p, capacity, size, n, threshold)]|
  {
    RoomIsChunks(p, capacity, size, 0, n);
    RoomIsChunks(p, capacity, size, 1, n);
  }

  function Constant(d: ddr, n: nat): (nodes: seq<ddr>)
    ensures |nodes| == n
  {
    seq(n, i => d)
  }

  lemma ConstantNone(d: ddr)
    ensures Constant(d, 0) == []
  {
  }

  lemma ConstantSnoc(d: ddr, n: nat)
    ensures Constant(d, n + 1) == Constant(d, n) + [d]
  {
  }

  lemma {:induction false} ConstantCounts(d: ddr, n: nat)
    ensures Count(Constant(d, n), d) == n && Count(Constant(d, n), 1 - d) == 0
  {
    hide Constant, Count;
    if n == 0 {
      ConstantNone(d);
      CountEmpty([]);
    } else {
      ConstantCounts(d, n - 1);
      ConstantSnoc(d, n - 1);
      CountSnoc(Constant(d, n - 1), d);
    }
  }

  // ----- balanced: clusters of chunks on alternating nodes

  /** The node of the last chunk, and how many chunks its current cluster holds. */
  datatype Cursor = Cursor(node: ddr, cluster: nat)

  /** The first node with a free chunk, starting the search at d. */
  function NextNode(p: Pool, d: ddr): ddr
    requires p.Shape()
  {
    if |p.free[d]| > 0 then d else 1 - d
  }

  /** Moves on when the cluster is full, and away from an empty node. */
  function Advance(p: Pool, c: Cursor, clusterSize: nat): Cursor
    requires p.Shape()
  {
    var next := NextNode(p, if c.cluster == clusterSize then 1 - c.node else c.node);
    Cursor(next, if next != c.node then 1 else c.cluster + 1)
  }

  /** The first n nodes and the cursor behind them. */
  function Walk(p: Pool, size: nat, start: ddr, clusterSize: nat, n: nat): (r: (seq<ddr>, Cursor))
    requires p.Shape() && n <= TotalFree(p)
    ensures |r.0| == n && Feasible(p, r.0)
  {
    if n == 0 then ([], Cursor(start, 0))
    else
      var (nodes, c) := Walk(p, size, start, clusterSize, n - 1);
      var c' := Advance(After(p, nodes, size), c, clusterSize);
      WalkStep(p, nodes, size, c, clusterSize);
      (nodes + [c'.node], c')
  }

  /** As long as chunks remain, the search finds one. */
  lemma WalkStep(p: Pool, nodes: seq<ddr>, size: nat, c: Cursor, clusterSize: nat)
    requires Feasible(p, nodes) && |nodes| < TotalFree(p)
    ensures var d := Advance(After(p, nodes, size), c, clusterSize).node;
            Count(nodes, d) < |p.free[d]| && Feasible(p, nodes + [d])
  {
    CountTotal(nodes);
    var d := Advance(After(p, nodes, size), c, clusterSize).node;
    CountSnoc(nodes, d);
  }

  lemma WalkNone(p: Pool, size: nat, start: ddr, clusterSize: nat)
    requires p.Shape()
    ensures Walk(p, size, start, clusterSize, 0) == ([], Cursor(start, 0))
  {
  }

  lemma WalkSnoc(p: Pool, size: nat, start: ddr, clusterSize: nat, n: nat)
    requires p.Shape() && n < TotalFree(p)
    ensures var (nodes, c) := Walk(p, size, start, clusterSize, n);
            var c' := Advance(After(p, nodes, size), c, clusterSize);
            Walk(p, size, start, clusterSize, n + 1) == (nodes + [c'.node], c')
  {
  }

  /** A turn of the balanced policy: the search started anywhere finds a chunk on one of the two nodes. */
  lemma BalancedTurn(p: Pool, nodes: seq<ddr>, size: nat, capacity: seq<nat>, c: Cursor, clusterSize: nat)
    requires Accounted(p, capacity, size) && Feasible(p, nodes) && |nodes| < TotalFree(p)
    ensures var q := After(p, nodes, size);
            && Accounted(q, capacity, size)
            && (forall d: ddr :: |q.free[NextNode(q, d)]| > 0)
            && Count(nodes, Advance(q, c, clusterSize).node) < |p.free[Advance(q, c, clusterSize).node]|
            && Feasible(p, nodes + [Advance(q, c, clusterSize).node])
  {
    hide Count;
    AfterAccounted(p, capacity, size, nodes);
    CountTotal(nodes);
    WalkStep(p, nodes, size, c, clusterSize);
  }

  // ----- the balanced placement in closed form

  function RoundRobin(start: ddr, clusterSize: nat, n: nat): (nodes: seq<ddr>)
    requires clusterSize > 0
    ensures |nodes| == n
  {
    seq(n, i requires 0 <= i < n => (start + i / clusterSize) % DDR_NODES)
  }

  lemma RoundRobinSnoc(start: ddr, clusterSize: nat, n: nat)
    requires clusterSize > 0
    ensures RoundRobin(start, clusterSize, n + 1) ==
            RoundRobin(start, clusterSize, n) + [(start + n / clusterSize) % DDR_NODES]
  {
  }

  /** The cursor behind the first n chunks of the round robin. */
  function RoundRobinCursor(start: ddr, clusterSize: nat, n: nat): Cursor
    requires clusterSize > 0
  {
    if n == 0 then Cursor(start, 0)
    else Cursor((start + (n - 1) / clusterSize) % DDR_NODES, (n - 1) % clusterSize + 1)
  }

  /** Moving on from one chunk of the round robin to the next, as long as the wanted node is not empty. */
  lemma RoundRobinAdvances(q: Pool, start: ddr, clusterSize: nat, n: nat)
    requires q.Shape() && clusterSize > 0
    requires |q.free[(start + n / clusterSize) % DDR_NODES]| > 0
    ensures Advance(q, RoundRobinCursor(start, clusterSize, n), clusterSize)
         == RoundRobinCursor(start, clusterSize, n + 1)
  {
    if n == 0 {
      ZeroDivMod(clusterSize);
    } else {
      DivModNext(n - 1, clusterSize);
    }
  }

  /**
   Chunk i comes from node (start + i / clusterSize) mod 2, exactly when the free lists can serve that
   sequence, that is, when no node fills up on the way.
   */
  lemma {:induction false} WalkIsRoundRobin(p: Pool, size: nat, start: ddr, clusterSize: nat, n: nat)
    requires p.Shape() && n <= TotalFree(p) && clusterSize > 0
    ensures Walk(p, size, start, clusterSize, n).0 == RoundRobin(start, clusterSize, n)
            <==> Feasible(p, RoundRobin(start, clusterSize, n))
    ensures Feasible(p, RoundRobin(start, clusterSize, n)) ==>
              Walk(p, size, start, clusterSize, n).1 == RoundRobinCursor(start, clusterSize, n)
  {
    hide Advance, RoundRobinCursor, RoundRobin, Feasible, After, Count;
    if n == 0 {
      EmptyRoundRobin(start, clusterSize);
    } else if Feasible(p, RoundRobin(start, clusterSize, n)) {
      var ns, d := RoundRobin(start, clusterSize, n - 1), (start + (n - 1) / clusterSize) % DDR_NODES;
      RoundRobinSnoc(start, clusterSize, n - 1);
      FeasiblePrefix(p, ns + [d]);
      assert (ns + [d])[..n - 1] == ns;
      WalkIsRoundRobin(p, size, start, clusterSize, n - 1);
      AfterSnoc(p, ns, d, size);
      RoundRobinAdvances(After(p, ns, size), start, clusterSize, n - 1);
      CursorNode(start, clusterSize, n);
    }
  }

  lemma EmptyRoundRobin(start: ddr, clusterSize: nat)
    requires clusterSize > 0
    ensures RoundRobin(start, clusterSize, 0) == [] && RoundRobinCursor(start, clusterSize, 0) == Cursor(start, 0)
  {
  }

  lemma CursorNode(start: ddr, clusterSize: nat, n: nat)
    requires clusterSize > 0 && n > 0
    ensures RoundRobinCursor(start, clusterSize, n).node == (start + (n - 1) / clusterSize) % DDR_NODES
  {
  }

  /** By how much the starting node is ahead after a full clusters and b chunks of the next. */
  function Lead(clusterSize: nat, a: nat, b: nat): int {
    if a % 2 == 0 then b else clusterSize - b
  }

  lemma LeadStep(start: ddr, clusterSize: nat, a: nat, b: nat, d: ddr)
    requires b < clusterSize && d == (start + a) % DDR_NODES
    ensures Lead(clusterSize, if b + 1 == clusterSize then a + 1 else a, if b + 1 == clusterSize then 0 else b + 1)
         == Lead(clusterSize, a, b) + if d == start then 1 else -1
  {
  }

  lemma LeadNone(clusterSize: nat)
    ensures Lead(clusterSize, 0, 0) == 0
  {
  }

  lemma LeadBounds(clusterSize: nat, a: nat, b: nat)
    requires b < clusterSize
    ensures 0 <= Lead(clusterSize, a, b) <= clusterSize
  {
  }

  /** The starting node is ahead of the other by at most one cluster, and never behind. */
  lemma {:induction false} RoundRobinIsBalanced(start: ddr, clusterSize: nat, n: nat)
    requires clusterSize > 0
    ensures var nodes := RoundRobin(start, clusterSize, n);
            Count(nodes, start) - Count(nodes, 1 - start) == Lead(clusterSize, n / clusterSize, n % clusterSize)
    ensures 0 <= Lead(clusterSize, n / clusterSize, n % clusterSize) <= clusterSize
  {
    hide RoundRobin, Count, Lead;
    LeadBounds(clusterSize, n / clusterSize, n % clusterSize);
    if n == 0 {
      EmptyRoundRobin(start, clusterSize);
      CountEmpty([]);
      LeadNone(clusterSize);
      ZeroDivMod(clusterSize);
    } else {
      var a, b := (n - 1) / clusterSize, (n - 1) % clusterSize;
      var d := (start + a) % DDR_NODES;
      RoundRobinIsBalanced(start, clusterSize, n - 1);
      RoundRobinSnoc(start, clusterSize, n - 1);
      CountSnoc(RoundRobin(start, clusterSize, n - 1), d);
      DivModNext(n - 1, clusterSize);
      LeadStep(start, clusterSize, a, b, d);
    }
  }

  // ----- where most of the buffer is

  /** The first node with the largest count. */
  function MostUsed(nodes: seq<ddr>): (m: ddr)
    ensures forall d: ddr :: if d < m then Count(nodes, d) < Count(nodes, m) else Count(nodes, d) <= Count(nodes, m)
  {
    if Count(nodes, 1) > Count(nodes, 0) then 1 else 0
  }

  /** The nodes the policy assigns to the n chunks of a buffer. */
  function PlacementOf(p: Pool, capacity: seq<nat>, size: nat, policy: Policy, n: nat): (nodes: seq<ddr>)
    requires Accounted(p, capacity, size) && size > 0 && n <= TotalFree(p)
    ensures |nodes| == n
  {
    match policy
    case Preferred(first) => PreferredNodes(p, first, n)
    case LeastLoaded(threshold) => Constant(LeastLoadedNode(p, capacity, size, n, threshold), n)
    case Balanced(threshold, clusterSize) =>
      Walk(p, size, LeastLoadedNode(p, capacity, size, 1, threshold), clusterSize, n).0
  }

  // ----- what the policies promise

  /**
   Node 0 is less loaded: node 1 has no room for n chunks, or node 0 has, and is ahead by more than the penalty in
   bytes.
   */
  predicate ZeroIsLessLoaded(p: Pool, n: nat, penalty: nat)
    requires p.Shape()
  {
    |p.free[1]| < n || (n <= |p.free[0]| && p.used[0] + penalty < p.used[1])
  }

  /**
   The nodes of a buffer's chunks, in order.  Preferred: the first node as long as it has chunks.  Least loaded: one
   node for all.  Balanced: clusters in turn from the less loaded node on, up to where a node runs out of chunks; with
   clusters of size zero the other node as long as it has chunks.
   */
  ghost predicate IsPlaced(p: Pool, policy: Policy, size: nat, nodes: seq<ddr>)
    requires p.Shape()
  {
    match policy
    case Preferred(first) =>
      forall i | 0 <= i < |nodes| :: nodes[i] == first <==> i < |p.free[first]|
    case LeastLoaded(threshold) =>
      forall i | 0 <= i < |nodes| :: nodes[i] == 0 <==> ZeroIsLessLoaded(p, |nodes|, threshold * size)
    case Balanced(threshold, clusterSize) =>
      var start := if ZeroIsLessLoaded(p, 1, threshold * size) then 0 else 1;
      if clusterSize == 0 then
        forall i | 0 <= i < |nodes| :: nodes[i] == 1 - start <==> i < |p.free[1 - start]|
      else
        forall n: nat | n <= |nodes| && Feasible(p, RoundRobin(start, clusterSize, n)) ::
          nodes[..n] == RoundRobin(start, clusterSize, n)
  }

  lemma {:induction false} WalkPrefix(p: Pool, size: nat, start: ddr, clusterSize: nat, n: nat, k: nat)
    requires p.Shape() && k <= n <= TotalFree(p)
    ensures Walk(p, size, start, clusterSize, n).0[..k] == Walk(p, size, start, clusterSize, k).0
    decreases n
  {
    hide Walk;
    if k < n {
      WalkPrefix(p, size, start, clusterSize, n - 1, k);
      WalkSnoc(p, size, start, clusterSize, n - 1);
    }
  }

  /** Clusters of size zero are full before they begin, and never again. */
  lemma {:induction false} WalkWithoutClusters(p: Pool, size: nat, start: ddr, n: nat)
    requires p.Shape() && n <= TotalFree(p)
    ensures var (nodes, c) := Walk(p, size, start, 0, n);
            && nodes == PreferredNodes(p, 1 - start, n)
            && c.node == (if n == 0 then start else nodes[n - 1]) && (c.cluster == 0 <==> n == 0)
  {
    hide Walk, PreferredNodes, Count;
    if n == 0 {
      WalkNone(p, size, start, 0);
      PreferredNone(p, 1 - start);
    } else {
      WalkWithoutClusters(p, size, start, n - 1);
      WalkSnoc(p, size, start, 0, n - 1);
      PreferredSnoc(p, 1 - start, n - 1);
      PreferredCounts(p, 1 - start, n - 1);
      var (nodes, c) := Walk(p, size, start, 0, n - 1);
      CountTotal(nodes);
      if n > 1 { PreferredLast(p, 1 - start, n - 1); }
    }
  }

  lemma PreferredLast(p: Pool, first: ddr, n: nat)
    requires p.Shape() && n > 0
    ensures PreferredNodes(p, first, n)[n - 1] == if n - 1 < |p.free[first]| then first else 1 - first
  {
  }

  lemma PlacementIsPlaced(p: Pool, capacity: seq<nat>, size: nat, policy: Policy, n: nat)
    requires Accounted(p, capacity, size) && size > 0 && n <= TotalFree(p)
    ensures IsPlaced(p, policy, size, PlacementOf(p, capacity, size, policy, n))
  {
    hide LeastLoadedNode, Walk, RoundRobin, Feasible;
    match policy
    case Preferred(first) =>
    case LeastLoaded(threshold) =>
      LeastLoadedChoice(p, capacity, size, n, threshold);
    case Balanced(threshold, clusterSize) =>
      LeastLoadedChoice(p, capacity, size, 1, threshold);
      var start := LeastLoadedNode(p, capacity, size, 1, threshold);
      if clusterSize == 0 {
        WalkWithoutClusters(p, size, start, n);
      } else {
        forall k: nat | k <= n && Feasible(p, RoundRobin(start, clusterSize, k))
          ensures Walk(p, size, start, clusterSize, n).0[..k] == RoundRobin(start, clusterSize, k)
        {
          WalkPrefix(p, size, start, clusterSize, n, k);
          WalkIsRoundRobin(p, size, start, clusterSize, k);
        }
      }
  }

  /** A buffer that is small enough can be placed, except by the policy that wants it on one node. */
  predicate Placeable(p: Pool, policy: Policy, n: nat)
    requires p.Shape()
  {
    n <= TotalFree(p) && (policy.LeastLoaded? ==> n <= |p.free[0]| || n <= |p.free[1]|)
  }

  lemma PlacementIsFeasible(p: Pool, capacity: seq<nat>, size: nat, policy: Policy, n: nat)
    requires Accounted(p, capacity, size) && size > 0 && Placeable(p, policy, n)
    ensures Feasible(p, PlacementOf(p, capacity, size, policy, n))
  {
    match policy
    case Preferred(first) => PreferredIsFeasible(p, first, n);
    case LeastLoaded(threshold) =>
      LeastLoadedHasRoom(p, capacity, size, n, threshold);
      ConstantCounts(LeastLoadedNode(p, capacity, size, n, threshold), n);
    case Balanced(_, _) =>
  }

  // ----- nested use

  /** Buffers held in a properly nested way: one is freed before the one around it. */
  datatype Session =
    | Idle
    | Hold(policy: Policy, n: nat, during: Session)
    | Then(first: Session, second: Session)

  /** Runs a session: a request that cannot be placed leaves the pool alone, any other is freed at the end. */
  function AfterSession(p: Pool, capacity: seq<nat>, size: nat, s: Session): (q: Pool)
    requires Accounted(p, capacity, size) && size > 0
    ensures q == p
    decreases s
  {
    match s
    case Idle => p
    case Then(first, second) => AfterSession(AfterSession(p, capacity, size, first), capacity, size, second)
    case Hold(policy, n, during) =>
      if !Placeable(p, policy, n) then AfterSession(p, capacity, size, during)
      else
        var nodes := PlacementOf(p, capacity, size, policy, n);
        PlacementIsFeasible(p, capacity, size, policy, n);
        AfterAccounted(p, capacity, size, nodes);
        PutBackUndoesAfter(p, nodes, size);
        PutBack(AfterSession(After(p, nodes, size), capacity, size, during), Reversed(Taken(p, nodes)), size)
  }
}
