/** The contiguous-memory allocator: free lists, live descriptors, three placement policies. */
module ContigAlloc {
  import opened Arithmetic
  import opened Bits
  import opened ChunkPool
  import opened MemoryNodes
  import opened Placement

  const PAGE_SIZE := 4096

  datatype Error = ENOMEM | EINVAL | EFAULT

  datatype Result<T> = Ok(value: T) | Err(error: Error)

  /** The least number of chunks that hold size bytes. */
  function DivRoundUp(size: nat, chunk: nat): (n: nat)
    requires chunk > 0
    ensures (n - 1) * chunk < size <= n * chunk
  {
    RoundedUp(size, chunk);
    (size + chunk - 1) / chunk
  }

  lemma RoundedUp(size: nat, chunk: nat)
    requires chunk > 0
    ensures var n := (size + chunk - 1) / chunk; (n - 1) * chunk < size <= n * chunk
  {
    var n := (size + chunk - 1) / chunk;
    assert size + chunk - 1 == n * chunk + (size + chunk - 1) % chunk;
    assert (n - 1) * chunk == n * chunk - chunk;
  }

  lemma ChunksFit(size: nat, chunk: nat, f: nat)
    requires chunk > 0
    ensures DivRoundUp(size, chunk) <= f <==> size <= f * chunk
  {
    var n := DivRoundUp(size, chunk);
    hide DivRoundUp;
    if n <= f {
      MultiplesGrow(n, f, chunk);
    } else {
      MultiplesGrow(f, n - 1, chunk);
    }
  }

  /** An allocation: chunk addresses by index, and the list of chunks, last taken first. */
  class ContigDesc {
    const n: nat
    const arr: array<int>
    var mostAllocated: ddr
    var allocList: seq<Chunk>

    constructor (n: nat)
      ensures this.n == n && fresh(arr) && arr.Length == n && allocList == []
    {
      this.n := n;
      arr := new int[n];
      mostAllocated := 0;
      allocList := [];
    }

    /** The address array is the list read backwards. */
    ghost predicate Complete()
      reads this, arr
    {
      arr.Length == n == |allocList| && forall i | 0 <= i < n :: arr[i] == allocList[n - 1 - i].paddr
    }
  }

  /** All elements of the given lists, with multiplicity. */
  ghost function Union<T>(lists: seq<seq<T>>): multiset<T> {
    if |lists| == 0 then multiset{} else multiset(lists[0]) + Union(lists[1..])
  }

  lemma UnionCons<T>(list: seq<T>, lists: seq<seq<T>>)
    ensures Union([list] + lists) == multiset(list) + Union(lists)
  {
    assert ([list] + lists)[1..] == lists;
  }

  lemma {:induction false} UnionWithout<T>(lists: seq<seq<T>>, k: nat)
    requires k < |lists|
    ensures Union(lists) == multiset(lists[k]) + Union(lists[..k] + lists[k + 1..])
  {
    if k == 0 {
      assert lists[..0] + lists[1..] == lists[1..];
    } else {
      UnionWithout(lists[1..], k - 1);
      var rest := lists[..k] + lists[k + 1..];
      assert rest[1..] == lists[1..][..k - 1] + lists[1..][k..];
      assert lists[1..][k - 1] == lists[k];
    }
  }

  lemma {:induction false} MultisetReversed<T>(s: seq<T>)
    ensures multiset(Reversed(s)) == multiset(s)
  {
    if |s| != 0 {
      var n := |s| - 1;
      MultisetReversed(s[..n]);
      assert s == s[..n] + [s[n]];
    }
  }

  class Allocator {
    const chunkSize: nat
    const memStart: seq<nat>
    const memSize: seq<nat>
    const inactiveChunks: array<seq<Chunk>>
    const memAllocated: array<int>
    var descList: seq<ContigDesc>
    ghost var live: seq<seq<Chunk>>  // the chunk lists of the live descriptors

    /** What the module parameters must satisfy for the module to load. */
    static predicate ConfigOk(start: seq<nat>, size: seq<nat>, chunkLog: nat)
      requires |start| == |size| == 2
    {
      chunkLog < 32 && start[0] != 0 && PAGE_SIZE <= Pow2(chunkLog) <= size[0] && Pow2(chunkLog) <= size[1]
    }

    /** Loads the module with every chunk free; memory beyond the last whole chunk of a region is not used. */
    constructor (start: seq<nat>, size: seq<nat>, chunkLog: nat)
      requires |start| == |size| == 2 && ConfigOk(start, size, chunkLog)
      requires size[0] / Pow2(chunkLog) + size[1] / Pow2(chunkLog) < WORD
      ensures Valid() && fresh(inactiveChunks) && fresh(memAllocated)
      ensures chunkSize == Pow2(chunkLog) && memStart == start && descList == []
      ensures memSize == [size[0] - size[0] % chunkSize, size[1] - size[1] % chunkSize]
      ensures forall d: ddr ::
                && |inactiveChunks[d]| == size[d] / chunkSize && memAllocated[d] == 0
                && forall k | 0 <= k < |inactiveChunks[d]| :: inactiveChunks[d][k] == Chunk(start[d] + chunkSize * k, d)
      ensures ThePool() == Pool([NodeChunks(start, memSize, chunkSize, 0), NodeChunks(start, memSize, chunkSize, 1)],
                                [0, 0])
    {
      hide NodeChunks, Pow2, Accounted;
      chunkSize := Pow2(chunkLog);
      memStart := start;
      memSize := [size[0] - size[0] % Pow2(chunkLog), size[1] - size[1] % Pow2(chunkLog)];
      inactiveChunks := new seq<Chunk>[2](_ => []);
      memAllocated := new int[2](_ => 0);
      descList := [];
      live := [];
      new;
      WholeChunks(size[0], chunkSize);
      WholeChunks(size[1], chunkSize);
      Pow2Below(chunkLog);
      for d: int := 0 to DDR_NODES
        invariant forall e: ddr | e < d :: inactiveChunks[e] == NodeChunks(memStart, memSize, chunkSize, e)
        invariant forall e: ddr | d <= e :: inactiveChunks[e] == []
        invariant memAllocated[0] == 0 == memAllocated[1] && descList == [] && live == []
      {
        ChunksCreate(d, memSize[d] / chunkSize);
      }
      InitiallyConserved();
      ChunkAddresses(memStart, memSize, chunkSize);
    }

    /** Appends the chunks of one node to its free list. */
    method ChunksCreate(ddrNode: ddr, nChunks: nat)
      requires Shape() && nChunks == memSize[ddrNode] / chunkSize && inactiveChunks[ddrNode] == []
      modifies inactiveChunks
      ensures inactiveChunks[ddrNode] == NodeChunks(memStart, memSize, chunkSize, ddrNode)
      ensures inactiveChunks[1 - ddrNode] == old(inactiveChunks[1 - ddrNode])
    {
      for i := 0 to nChunks
        invariant inactiveChunks[ddrNode] == NodeChunks(memStart, memSize, chunkSize, ddrNode)[..i]
        invariant inactiveChunks[1 - ddrNode] == old(inactiveChunks[1 - ddrNode])
      {
        var ch := Chunk(memStart[ddrNode] + chunkSize * i, ddrNode);
        inactiveChunks[ddrNode] := inactiveChunks[ddrNode] + [ch];
      }
    }

    lemma InitiallyConserved()
      requires Shape() && memSize[0] % chunkSize == 0 == memSize[1] % chunkSize
      requires forall e: ddr :: inactiveChunks[e] == NodeChunks(memStart, memSize, chunkSize, e)
      requires memAllocated[0] == 0 == memAllocated[1] && descList == [] && live == []
      ensures Valid()
    {
      var p := ThePool();
      assert p.free[0] == inactiveChunks[0] && p.free[1] == inactiveChunks[1];
      assert memSize[0] == memSize[0] / chunkSize * chunkSize && memSize[1] == memSize[1] / chunkSize * chunkSize;
    }

    ghost predicate Shape() {
      && 0 < chunkSize < WORD && |memStart| == |memSize| == 2
      && inactiveChunks.Length == memAllocated.Length == 2
      && memSize[0] / chunkSize + memSize[1] / chunkSize < WORD
    }

    ghost function ThePool(): (p: Pool)
      requires Shape()
      reads inactiveChunks, memAllocated
      ensures p.Shape()
    {
      Pool(inactiveChunks[..], memAllocated[..])
    }

    /** The descriptor holds what taking the nodes' chunks from pool p yields, and the pool is what is left. */
    ghost predicate Filled(desc: ContigDesc, p: Pool, nodes: seq<ddr>)
      requires Shape()
      reads inactiveChunks, memAllocated, desc`allocList, desc.arr
    {
      && Feasible(p, nodes) && desc.arr.Length == desc.n >= |nodes| && desc.arr != memAllocated
      && ThePool() == After(p, nodes, chunkSize)
      && desc.allocList == Reversed(Taken(p, nodes))
      && forall i | 0 <= i < |nodes| :: desc.arr[i] == Taken(p, nodes)[i].paddr
    }

    /** Takes the first chunk of a node's list; the list is never empty here. */
    method AllocateChunk(desc: ContigDesc, node: ddr, i: nat, ghost p: Pool, ghost nodes: seq<ddr>)
      requires Shape() && Filled(desc, p, nodes) && i == |nodes| < desc.n
      requires Count(nodes, node) < |p.free[node]|
      modifies inactiveChunks, memAllocated, desc`allocList, desc.arr
      ensures Filled(desc, p, nodes + [node])
    {
      AfterSnoc(p, nodes, node, chunkSize);
      assert ThePool().free[node] == inactiveChunks[node];
      assert inactiveChunks[node] != [];  // asserted in the source: the list of the node is not empty
      var ch := inactiveChunks[node][0];
      ReversedSnoc(Taken(p, nodes), ch);
      inactiveChunks[node] := inactiveChunks[node][1..];
      desc.allocList := [ch] + desc.allocList;
      desc.arr[i] := ch.paddr;
      memAllocated[node] := memAllocated[node] + chunkSize;
      assert ThePool() == After(p, nodes + [node], chunkSize);
    }

    /** The first node with a free chunk from ddrNode on; the search does not come back to its start. */
    method GetNextDdrNode(ddrNode: ddr, first: ddr) returns (d: ddr)
      requires Shape() && Accounted(ThePool(), memSize, chunkSize)
      requires |ThePool().free[NextNode(ThePool(), ddrNode)]| > 0
      requires |ThePool().free[ddrNode]| == 0 ==> 1 - ddrNode != first
      ensures d == NextNode(ThePool(), ddrNode)
    {
      ghost var p := ThePool();
      RoomIsChunks(p, memSize, chunkSize, 0, 0);
      RoomIsChunks(p, memSize, chunkSize, 1, 0);
      d := ddrNode;
      assert memAllocated[d] == p.used[d];
      assert memAllocated[d] <= memSize[d];  // asserted in the source: no node is overcommitted
      while memAllocated[d] == memSize[d]
        invariant memAllocated[d] == p.used[d]
        invariant NextNode(p, d) == NextNode(p, ddrNode)
        invariant d == ddrNode || |p.free[ddrNode]| == 0
        decreases if d == ddrNode then 1 else 0
      {
        d := (d + 1) % DDR_NODES;
        assert memAllocated[d] == p.used[d];
        assert d != first;  // asserted in the source: the search never comes round
      }
    }

    ghost predicate Tallied(nPerNode: array<nat>, nodes: seq<ddr>)
      reads nPerNode
    {
      nPerNode.Length == 2 && nPerNode[0] == Count(nodes, 0) && nPerNode[1] == Count(nodes, 1)
    }

    /** Takes a chunk and counts it for its node. */
    method PlaceChunk(desc: ContigDesc, node: ddr, i: nat, nPerNode: array<nat>, ghost p: Pool, ghost nodes: seq<ddr>)
      requires Shape() && Filled(desc, p, nodes) && i == |nodes| < desc.n
      requires Count(nodes, node) < |p.free[node]|
      requires Tallied(nPerNode, nodes)
      modifies inactiveChunks, memAllocated, desc`allocList, desc.arr, nPerNode
      ensures Filled(desc, p, nodes + [node]) && ThePool() == After(p, nodes + [node], chunkSize)
      ensures Tallied(nPerNode, nodes + [node])
    {
      CountSnoc(nodes, node);
      AllocateChunk(desc, node, i, p, nodes);
      nPerNode[node] := nPerNode[node] + 1;
    }

    /** The node with most chunks; the first of them on a tie. */
    method FindMostAllocated(nPerNode: array<nat>, ghost nodes: seq<ddr>) returns (d: ddr)
      requires Tallied(nPerNode, nodes)
      ensures d == MostUsed(nodes)
      ensures forall e: ddr :: if e < d then nPerNode[e] < nPerNode[d] else nPerNode[e] <= nPerNode[d]
    {
      d := 0;
      var max := nPerNode[0];
      for i: int := 1 to DDR_NODES
        invariant i == 1 ==> d == 0 && max == nPerNode[0]
        invariant i == 2 ==> d == MostUsed(nodes)
      {
        if nPerNode[i] > max {
          d := i;
          max := nPerNode[i];
        }
      }
    }

    lemma TalliedNone(nPerNode: array<nat>)
      requires nPerNode.Length == 2 && nPerNode[0] == 0 == nPerNode[1]
      ensures Tallied(nPerNode, [])
    {
    }

    lemma NothingPlaced(desc: ContigDesc, p: Pool)
      requires Shape() && p == ThePool() && desc.allocList == []
      requires desc.arr.Length == desc.n && desc.arr != memAllocated
      ensures Feasible(p, []) && Filled(desc, p, []) && p == After(p, [], chunkSize)
    {
      AfterNone(p, [], chunkSize);
    }

    /** Turn i of the preferred policy: search on from node d, take a chunk there. */
    method PreferredStep(desc: ContigDesc, first: ddr, d: ddr, i: nat, nPerNode: array<nat>, ghost p: Pool)
      returns (next: ddr)
      requires Shape() && p.Shape() && Accounted(p, memSize, chunkSize) && i < desc.n <= TotalFree(p)
      requires Filled(desc, p, PreferredNodes(p, first, i)) && Tallied(nPerNode, PreferredNodes(p, first, i))
      requires d == if i == 0 then first else PreferredNodes(p, first, i)[i - 1]
      modifies inactiveChunks, memAllocated, desc`allocList, desc.arr, nPerNode
      ensures Filled(desc, p, PreferredNodes(p, first, i + 1)) && Tallied(nPerNode, PreferredNodes(p, first, i + 1))
      ensures next == PreferredNodes(p, first, i + 1)[i]
    {
      hide Tallied, After, Taken, NextNode, PreferredNodes, Count, Accounted, Feasible;
      PreferredTurn(p, first, i, memSize, chunkSize);
      next := GetNextDdrNode(d, first);
      PlaceChunk(desc, next, i, nPerNode, p, PreferredNodes(p, first, i));
      PreferredSnoc(p, first, i);
    }

    method AllocPreferred(desc: ContigDesc, first: ddr)
      requires Shape() && Accounted(ThePool(), memSize, chunkSize)
      requires desc.allocList == [] && desc.arr.Length == desc.n && desc.arr != memAllocated
      requires desc.n <= TotalFree(ThePool())
      modifies inactiveChunks, memAllocated, desc, desc.arr
      ensures Filled(desc, old(ThePool()), PreferredNodes(old(ThePool()), first, desc.n))
      ensures desc.mostAllocated == MostUsed(PreferredNodes(old(ThePool()), first, desc.n))
    {
      hide Filled, Tallied, PreferredNodes, Count, Accounted, MostUsed, TotalFree;
      ghost var p := ThePool();
      NothingPlaced(desc, p);
      PreferredNone(p, first);
      CountEmpty([]);
      var bytes := 0;
      var nPerNode := new nat[2](_ => 0);
      TalliedNone(nPerNode);
      var d := first;
      for i := 0 to desc.n
        invariant Filled(desc, p, PreferredNodes(p, first, i)) && Tallied(nPerNode, PreferredNodes(p, first, i))
        invariant d == if i == 0 then first else PreferredNodes(p, first, i)[i - 1]
        invariant bytes == i * chunkSize
      {
        d := PreferredStep(desc, first, d, i, nPerNode, p);
        bytes := bytes + chunkSize;
      }
      assert bytes == desc.n * chunkSize;  // asserted in the source: all bytes are placed
      d := FindMostAllocated(nPerNode, PreferredNodes(p, first, desc.n));
      desc.mostAllocated := d;
    }

    /** One of the nodes has room for all n chunks. */
    method LeastLoadedAllocOk(n: nat) returns (ok: bool)
      requires Shape() && Accounted(ThePool(), memSize, chunkSize)
      ensures ok <==> n <= |ThePool().free[0]| || n <= |ThePool().free[1]|
    {
      ghost var p := ThePool();
      RoomIsChunks(p, memSize, chunkSize, 0, n);
      RoomIsChunks(p, memSize, chunkSize, 1, n);
      for i: int := 0 to DDR_NODES
        invariant forall j: ddr | j < i :: !(n <= |p.free[j]|)
      {
        assert memAllocated[i] == p.used[i];
        if memSize[i] - memAllocated[i] >= n * chunkSize {
          return true;
        }
      }
      return false;
    }

    method GetLeastLoadedDdrNode(n: nat, threshold: nat) returns (d: ddr)
      requires Shape() && Accounted(ThePool(), memSize, chunkSize)
      ensures d == LeastLoadedNode(ThePool(), memSize, chunkSize, n, threshold)
    {
      assert memAllocated[0] == ThePool().used[0] && memAllocated[1] == ThePool().used[1];
      var minAllocated: int := memSize[1];
      var leastLoaded := 0;
      var tba, th := n * chunkSize, threshold * chunkSize;
      for i: int := 1 to DDR_NODES
        invariant i == 1 ==> minAllocated == memSize[1] && leastLoaded == 0
        invariant i == 2 ==>
                    var fits := memAllocated[1] <= memSize[1] && memSize[1] - memAllocated[1] >= tba;
                    leastLoaded == (if fits then 1 else 0) &&
                    minAllocated == (if fits then memAllocated[1] else memSize[1])
      {
        if memAllocated[i] <= minAllocated && memSize[i] - memAllocated[i] >= tba {
          minAllocated := memAllocated[i];
          leastLoaded := i;
        }
      }
      d := if memAllocated[0] + th < minAllocated && memSize[0] - memAllocated[0] >= tba then 0 else leastLoaded;
    }

    /** Fails, changing nothing, when no single node has room for all chunks. */
    method AllocLeastLoaded(desc: ContigDesc, threshold: nat) returns (ok: bool)
      requires Shape() && Accounted(ThePool(), memSize, chunkSize)
      requires desc.allocList == [] && desc.arr.Length == desc.n && desc.arr != memAllocated && 0 < desc.n
      modifies inactiveChunks, memAllocated, desc, desc.arr
      ensures ok <==> desc.n <= |old(ThePool()).free[0]| || desc.n <= |old(ThePool()).free[1]|
      ensures !ok ==> ThePool() == old(ThePool())
      ensures ok ==>
                var nodes := Constant(LeastLoadedNode(old(ThePool()), memSize, chunkSize, desc.n, threshold), desc.n);
                     Filled(desc, old(ThePool()), nodes) && desc.mostAllocated == MostUsed(nodes)
    {
      hide Filled, After, Taken, Constant, Count, Accounted, Feasible, LeastLoadedNode;
      ghost var p := ThePool();
      ok := LeastLoadedAllocOk(desc.n);
      if !ok {
        return;
      }
      var d := GetLeastLoadedDdrNode(desc.n, threshold);
      LeastLoadedHasRoom(p, memSize, chunkSize, desc.n, threshold);
      ghost var nodes: seq<ddr> := [];
      NothingPlaced(desc, p);
      ConstantNone(d);
      var bytes := 0;
      for i := 0 to desc.n
        invariant nodes == Constant(d, i) && Filled(desc, p, nodes)
        invariant bytes == i * chunkSize
      {
        ConstantCounts(d, i);
        ConstantSnoc(d, i);
        AllocateChunk(desc, d, i, p, nodes);
        nodes := nodes + [d];
        bytes := bytes + chunkSize;
      }
      assert bytes == desc.n * chunkSize;  // asserted in the source: all bytes are placed
      ConstantCounts(d, desc.n);
      desc.mostAllocated := d;
    }

    /** Turn i of the balanced policy, from the cursor (d, clusterChunk). */
    method BalancedStep(desc: ContigDesc, d: ddr, clusterChunk: nat, clusterSize: nat, i: nat, nPerNode: array<nat>,
                        ghost p: Pool, ghost nodes: seq<ddr>)
      returns (next: ddr, cluster: nat)
      requires Shape() && Accounted(p, memSize, chunkSize) && i == |nodes| < desc.n <= TotalFree(p)
      requires Filled(desc, p, nodes) && Tallied(nPerNode, nodes)
      modifies inactiveChunks, memAllocated, desc`allocList, desc.arr, nPerNode
      ensures Cursor(next, cluster) == Advance(After(p, nodes, chunkSize), Cursor(d, clusterChunk), clusterSize)
      ensures Filled(desc, p, nodes + [next]) && Tallied(nPerNode, nodes + [next])
    {
      hide Tallied, After, Taken, NextNode, Count, Accounted, Feasible;
      BalancedTurn(p, nodes, chunkSize, memSize, Cursor(d, clusterChunk), clusterSize);
      if clusterChunk == clusterSize {
        next := (d + 1) % DDR_NODES;
        next := GetNextDdrNode(next, next);
      } else {
        next := GetNextDdrNode(d, d);
      }
      if d != next {
        cluster := 1;
      } else {
        cluster := clusterChunk + 1;
      }
      PlaceChunk(desc, next, i, nPerNode, p, nodes);
    }

    method AllocBalanced(desc: ContigDesc, threshold: nat, clusterSize: nat)
      requires Shape() && Accounted(ThePool(), memSize, chunkSize)
      requires desc.allocList == [] && desc.arr.Length == desc.n && desc.arr != memAllocated
      requires desc.n <= TotalFree(ThePool())
      modifies inactiveChunks, memAllocated, desc, desc.arr
      ensures var p := old(ThePool());
              var start := LeastLoadedNode(p, memSize, chunkSize, 1, threshold);
              var nodes := Walk(p, chunkSize, start, clusterSize, desc.n).0;
              Filled(desc, p, nodes) && desc.mostAllocated == MostUsed(nodes)
    {
      hide Filled, Tallied, Walk, Count, Accounted, LeastLoadedNode, Advance, MostUsed;
      ghost var p := ThePool();
      ghost var nodes: seq<ddr> := [];
      NothingPlaced(desc, p);
      var bytes := 0;
      var nPerNode := new nat[2](_ => 0);
      TalliedNone(nPerNode);
      var d: ddr := GetLeastLoadedDdrNode(1, threshold);
      ghost var start := d;
      WalkNone(p, chunkSize, start, clusterSize);
      var clusterChunk: nat := 0;
      for i := 0 to desc.n
        invariant Walk(p, chunkSize, start, clusterSize, i) == (nodes, Cursor(d, clusterChunk))
        invariant Filled(desc, p, nodes) && Tallied(nPerNode, nodes)
        invariant bytes == i * chunkSize
      {
        WalkSnoc(p, chunkSize, start, clusterSize, i);
        d, clusterChunk := BalancedStep(desc, d, clusterChunk, clusterSize, i, nPerNode, p, nodes);
        bytes := bytes + chunkSize;
        nodes := nodes + [d];
      }
      assert bytes == desc.n * chunkSize;  // asserted in the source: all bytes are placed
      d := FindMostAllocated(nPerNode, nodes);
      desc.mostAllocated := d;
    }

    // ----- the whole allocator

    ghost function Descs(): set<object>
      reads this
    {
      set d | d in descList :: d
    }

    ghost function Arrays(): set<object>
      reads this
    {
      set d | d in descList :: d.arr
    }

    /** The chunks made at start-up. */
    function Created(): multiset<Chunk>
      requires Shape()
    {
      multiset(NodeChunks(memStart, memSize, chunkSize, 0)) + multiset(NodeChunks(memStart, memSize, chunkSize, 1))
    }

    /** Each counter accounts for exactly the chunks of its node that are not free. */
    ghost predicate CountersValid()
      requires Shape()
      reads inactiveChunks, memAllocated
    {
      Accounted(ThePool(), memSize, chunkSize)
    }

    /** The descriptors are distinct and complete, and these are their chunk lists. */
    ghost predicate AreDescs(ds: seq<ContigDesc>, lists: seq<seq<Chunk>>)
      reads set d | d in ds :: d, set d | d in ds :: d.arr
    {
      && (forall i, j | 0 <= i < j < |ds| :: ds[i] != ds[j])
      && (forall d | d in ds :: d.Complete() && d.n > 0 && d.arr != memAllocated)
      && |lists| == |ds| && (forall i | 0 <= i < |lists| :: ds[i] in ds && lists[i] == ds[i].allocList)
    }

    lemma DescsWith(desc: ContigDesc, ds: seq<ContigDesc>, lists: seq<seq<Chunk>>)
      requires AreDescs(ds, lists) && desc !in ds && desc.Complete() && desc.n > 0 && desc.arr != memAllocated
      ensures AreDescs([desc] + ds, [desc.allocList] + lists)
    {
    }

    lemma DescsWithout(ds: seq<ContigDesc>, lists: seq<seq<Chunk>>, k: nat)
      requires k < |ds| && AreDescs(ds, lists)
      ensures |lists| == |ds| && lists[k] == ds[k].allocList && |lists[k]| == ds[k].n
      ensures AreDescs(ds[..k] + ds[k + 1..], lists[..k] + lists[k + 1..])
      ensures ds[k] !in ds[..k] + ds[k + 1..]
      ensures forall d | d in ds :: d.arr != memAllocated
    {
      var ds', lists' := ds[..k] + ds[k + 1..], lists[..k] + lists[k + 1..];
      forall i | 0 <= i < |ds'|
        ensures var j := if i < k then i else i + 1; ds'[i] == ds[j] && lists'[i] == lists[j]
      {
      }
    }

    /**
     Safety: the chunks made at start-up are spread, each once, over the free lists and the live descriptors.
     */
    ghost predicate Valid()
      reads this, inactiveChunks, memAllocated, Descs(), Arrays()
    {
      && Shape() && CountersValid() && AreDescs(descList, live)
      && FreeChunks(ThePool()) + Union(live) == Created()
    }

    /** Bytes not handed out. */
    ghost function Free(): int
      requires Shape()
      reads memAllocated
    {
      memSize[0] - memAllocated[0] + memSize[1] - memAllocated[1]
    }

    /** When a request of this size must fail: the free chunks, or under least-loaded those of one node, are too few. */
    ghost predicate Refused(size: nat, policy: Policy)
      requires Shape()
      reads inactiveChunks
    {
      var room, room' := |inactiveChunks[0]| * chunkSize, |inactiveChunks[1]| * chunkSize;
      size == 0 || size > room + room' || (policy.LeastLoaded? && size > room && size > room')
    }

    /** What a request for size bytes yields: as many chunks as they need and no more, taken as they should be. */
    ghost predicate IsAllocated(desc: ContigDesc, before: Pool, policy: Policy, size: nat)
      requires Shape() && before.Shape()
      reads inactiveChunks, memAllocated, desc
    {
      (desc.n - 1) * chunkSize < size <= desc.n * chunkSize && IsTaken(desc, before, policy)
    }

    /**
     From each node the first chunks of the list it had before, in the order in which the buffer addresses them, and
     counted for that node; from which node, as the policy promises; and the first of the nodes that hold most.
     */
    ghost predicate IsTaken(desc: ContigDesc, before: Pool, policy: Policy)
      requires Shape() && before.Shape()
      reads inactiveChunks, memAllocated, desc
    {
      && (forall d: ddr ::
            && before.free[d] == Reversed(OfNode(desc.allocList, d)) + inactiveChunks[d]
            && memAllocated[d] == before.used[d] + chunkSize * |OfNode(desc.allocList, d)|)
      && IsPlaced(before, policy, chunkSize, NodesOf(Reversed(desc.allocList)))
      && IsMost(desc.allocList, desc.mostAllocated)
    }

    /** No node has more of the chunks, and no lower one as many. */
    static ghost predicate IsMost(cs: seq<Chunk>, m: ddr) {
      forall d: ddr :: if d < m then |OfNode(cs, d)| < |OfNode(cs, m)| else |OfNode(cs, d)| <= |OfNode(cs, m)|
    }

    /** Fills the descriptor by the given policy. */
    method AllocChunks(desc: ContigDesc, policy: Policy) returns (ok: bool)
      requires Shape() && Accounted(ThePool(), memSize, chunkSize)
      requires desc.allocList == [] && desc.arr.Length == desc.n && desc.arr != memAllocated
      requires 0 < desc.n <= TotalFree(ThePool())
      modifies inactiveChunks, memAllocated, desc, desc.arr
      ensures ok <==> Placeable(old(ThePool()), policy, desc.n)
      ensures !ok ==> ThePool() == old(ThePool())
      ensures ok ==> var nodes := PlacementOf(old(ThePool()), memSize, chunkSize, policy, desc.n);
                     Filled(desc, old(ThePool()), nodes) && desc.mostAllocated == MostUsed(nodes)
    {
      hide Filled, Accounted, PreferredNodes, Constant, Walk, LeastLoadedNode, MostUsed;
      match policy {
        case Preferred(first) =>
          AllocPreferred(desc, first);
          ok := true;
        case LeastLoaded(threshold) =>
          ok := AllocLeastLoaded(desc, threshold);
        case Balanced(threshold, clusterSize) =>
          AllocBalanced(desc, threshold, clusterSize);
          ok := true;
      }
    }

    /** Sums up the bytes not handed out. */
    method FreeBytes() returns (memFree: int)
      requires Shape()
      ensures memFree == Free()
    {
      memFree := 0;
      for i: int := 0 to DDR_NODES
        invariant memFree == (if i > 0 then memSize[0] - memAllocated[0] else 0)
                             + (if i > 1 then memSize[1] - memAllocated[1] else 0)
      {
        memFree := memFree + (memSize[i] - memAllocated[i]);
      }
    }

    /**
     Allocates a buffer.  noMemory says whether the kernel is out of memory for the descriptor.  The request
     fails, changing nothing, exactly when it is refused or the descriptor cannot be had; otherwise the chunks
     come from the nodes the policy assigns.
     */
    method Alloc(policy: Policy, size: nat, noMemory: bool) returns (r: Result<ContigDesc>)
      requires Valid()
      modifies this, inactiveChunks, memAllocated
      ensures Valid()
      ensures r.Err? <==> old(Refused(size, policy)) || noMemory
      ensures r.Err? ==> descList == old(descList) && ThePool() == old(ThePool())
      ensures r.Err? ==> r.error == if size == 0 then EINVAL else ENOMEM
      ensures r.Ok? ==> fresh(r.value) && fresh(r.value.arr) && descList == [r.value] + old(descList)
      ensures r.Ok? ==>
                var d, p, n := r.value, old(ThePool()), DivRoundUp(size, chunkSize);
                && d.n == n && Placeable(p, policy, n)
                && var nodes := PlacementOf(p, memSize, chunkSize, policy, n);
                && Filled(d, p, nodes) && d.mostAllocated == MostUsed(nodes)
      ensures r.Ok? ==> IsAllocated(r.value, old(ThePool()), policy, size)
    {
      hide DivRoundUp, IsTaken;
      hide Accounted, Placeable, CountersValid, AreDescs, FreeChunks, Filled, PlacementOf, Created, Union, MostUsed;
      RefusedInBytes(size, policy);
      hide Refused;
      if size == 0 {
        return Err(EINVAL);
      }
      var memFree := FreeBytes();
      if size > memFree {
        return Err(ENOMEM);
      }
      RequestIsSmall(size);
      var nChunks := DivRoundUp(size, chunkSize) % WORD;
      assert nChunks <= memFree / chunkSize;  // asserted in the source: the free memory covers the chunks
      if noMemory {
        return Err(ENOMEM);
      }
      r := AllocDesc(policy, nChunks);
    }

    lemma FilledIsTaken(desc: ContigDesc, p: Pool, policy: Policy)
      requires Shape() && Accounted(p, memSize, chunkSize) && desc.n <= TotalFree(p)
      requires var nodes := PlacementOf(p, memSize, chunkSize, policy, desc.n);
               Filled(desc, p, nodes) && desc.mostAllocated == MostUsed(nodes)
      ensures IsTaken(desc, p, policy)
    {
      assert Homed(p);
      hide Accounted, PlacementOf, Count, Filled, OfNode, Reversed, IsPlaced, MostUsed, IsMost;
      var nodes := PlacementOf(p, memSize, chunkSize, policy, desc.n);
      TakenFromLists(desc, p, nodes);
      MostByNode(desc.allocList, nodes);
      PlacementIsPlaced(p, memSize, chunkSize, policy, desc.n);
    }

    lemma MostByNode(cs: seq<Chunk>, nodes: seq<ddr>)
      requires forall d: ddr :: |OfNode(cs, d)| == Count(nodes, d)
      ensures IsMost(cs, MostUsed(nodes))
    {
      hide OfNode, Count, MostUsed;
    }

    lemma TakenFromLists(desc: ContigDesc, p: Pool, nodes: seq<ddr>)
      requires Shape() && Homed(p) && Filled(desc, p, nodes)
      ensures forall d: ddr ::
                && p.free[d] == Reversed(OfNode(desc.allocList, d)) + inactiveChunks[d]
                && memAllocated[d] == p.used[d] + chunkSize * |OfNode(desc.allocList, d)|
                && |OfNode(desc.allocList, d)| == Count(nodes, d)
      ensures NodesOf(Reversed(desc.allocList)) == nodes
    {
      hide Taken, Count, Feasible, OfNode, Reversed, NodesOf, Homed, After;
      AfterByNode(p, nodes, chunkSize, desc.allocList, 0);
      AfterByNode(p, nodes, chunkSize, desc.allocList, 1);
      assert ThePool().free[0] == inactiveChunks[0] && ThePool().free[1] == inactiveChunks[1];
      assert ThePool().used[0] == memAllocated[0] && ThePool().used[1] == memAllocated[1];
    }

    /** The test of the source, in bytes that are not handed out. */
    lemma RefusedInBytes(size: nat, policy: Policy)
      requires Shape() && CountersValid()
      ensures Refused(size, policy) <==>
              || size == 0 || size > Free()
              || (policy.LeastLoaded? && !Placeable(ThePool(), policy, DivRoundUp(size, chunkSize)))
    {
      hide DivRoundUp;
      var f, g := |inactiveChunks[0]|, |inactiveChunks[1]|;
      assert ThePool().free[0] == inactiveChunks[0] && ThePool().free[1] == inactiveChunks[1];
      assert Free() == (f + g) * chunkSize;
      ChunksFit(size, chunkSize, f);
      ChunksFit(size, chunkSize, g);
      ChunksFit(size, chunkSize, f + g);
    }

    lemma RequestIsSmall(size: nat)
      requires Shape() && CountersValid() && 0 < size <= Free()
      requires FreeChunks(ThePool()) + Union(live) == Created()
      ensures 0 < DivRoundUp(size, chunkSize) <= TotalFree(ThePool()) < WORD
      ensures Free() / chunkSize == TotalFree(ThePool())
      ensures forall policy: Policy ::
                Placeable(ThePool(), policy, DivRoundUp(size, chunkSize)) || policy.LeastLoaded?
    {
      CountersAreNatural(Union(live));
      RequestFits(ThePool(), memSize, chunkSize, size);
    }

    /** The descriptor for n chunks, filled and registered, or nothing at all. */
    method AllocDesc(policy: Policy, n: nat) returns (r: Result<ContigDesc>)
      requires Valid() && 0 < n <= TotalFree(ThePool())
      modifies this, inactiveChunks, memAllocated
      ensures Valid()
      ensures r.Err? <==> !Placeable(old(ThePool()), policy, n)
      ensures r.Err? ==> r.error == ENOMEM && descList == old(descList) && ThePool() == old(ThePool())
      ensures r.Ok? ==> fresh(r.value) && fresh(r.value.arr) && descList == [r.value] + old(descList)
      ensures r.Ok? ==>
                var nodes := PlacementOf(old(ThePool()), memSize, chunkSize, policy, n);
                r.value.n == n && Filled(r.value, old(ThePool()), nodes) && r.value.mostAllocated == MostUsed(nodes)
      ensures r.Ok? ==> IsTaken(r.value, old(ThePool()), policy)
    {
      hide IsTaken;
      hide Accounted, FreeChunks, Filled, Created, Union, PlacementOf, MostUsed, Placeable, AreDescs;
      ghost var p := ThePool();
      ListsMatch();
      var desc := new ContigDesc(n);
      var ok := AllocChunks(desc, policy);
      if !ok {
        return Err(ENOMEM);
      }
      ghost var nodes := PlacementOf(p, memSize, chunkSize, policy, n);
      FilledIsComplete(desc, p, nodes);
      FilledIsTaken(desc, p, policy);
      DescsWith(desc, descList, live);
      descList := [desc] + descList;
      live := [desc.allocList] + live;
      UnionCons(desc.allocList, old(live));
      return Ok(desc);
    }

    /** Moves the first chunk of the descriptor to the front of its node's list. */
    method GiveFirst(desc: ContigDesc, ghost rest: multiset<Chunk>)
      requires Shape() && CountersValid() && desc.allocList != []
      requires FreeChunks(ThePool()) + multiset(desc.allocList) + rest == Created()
      modifies inactiveChunks, memAllocated, desc`allocList
      ensures CountersValid() && desc.allocList == old(desc.allocList)[1..]
      ensures ThePool() == Give(old(ThePool()), old(desc.allocList)[0], chunkSize)
      ensures FreeChunks(ThePool()) + multiset(desc.allocList) + rest == Created()
    {
      hide Accounted, FreeChunks, Created, PutBack;
      var ch := desc.allocList[0];
      ghost var q := Give(ThePool(), ch, chunkSize);
      GiveStep(ThePool(), desc.allocList);
      desc.allocList := desc.allocList[1..];
      inactiveChunks[ch.node] := [ch] + inactiveChunks[ch.node];
      memAllocated[ch.node] := memAllocated[ch.node] - chunkSize;
      assert ThePool() == q;
      assert FreeChunks(ThePool()) + (multiset(desc.allocList) + rest) == Created();
      CountersAreNatural(multiset(desc.allocList) + rest);
      assert memAllocated[ch.node] >= 0;  // the unsigned counter does not wrap
    }

    /** Moves every chunk of the descriptor back to the front of its node's list; counts bytes in 32 bits. */
    method ReturnChunks(desc: ContigDesc, ghost rest: multiset<Chunk>) returns (deallocated: nat)
      requires Shape() && CountersValid()
      requires FreeChunks(ThePool()) + multiset(desc.allocList) + rest == Created()
      modifies inactiveChunks, memAllocated, desc`allocList
      ensures CountersValid() && FreeChunks(ThePool()) + rest == Created()
      ensures ThePool() == PutBack(old(ThePool()), old(desc.allocList), chunkSize)
      ensures forall d: ddr ::
                && inactiveChunks[d] == Reversed(OfNode(old(desc.allocList), d)) + old(inactiveChunks[d])
                && memAllocated[d] == old(memAllocated[d]) - chunkSize * |OfNode(old(desc.allocList), d)|
      ensures deallocated == |old(desc.allocList)| * chunkSize % WORD
    {
      hide Accounted, FreeChunks, Created, PutBack, Give, OfNode, Reversed;
      ghost var p, cs := ThePool(), desc.allocList;
      deallocated := 0;
      ghost var i := 0;
      while desc.allocList != []
        invariant CountersValid() && 0 <= i <= |cs| && desc.allocList == cs[i..]
        invariant PutBack(ThePool(), desc.allocList, chunkSize) == PutBack(p, cs, chunkSize)
        invariant FreeChunks(ThePool()) + multiset(desc.allocList) + rest == Created()
        invariant deallocated == i * chunkSize % WORD
        decreases |cs| - i
      {
        GiveStep(ThePool(), desc.allocList);
        GiveFirst(desc, rest);
        CountedBytes(i, chunkSize);
        deallocated := (deallocated + chunkSize) % WORD;
        i := i + 1;
      }
      PutBackNone(ThePool(), chunkSize);
      PutBackByNode(p, cs, chunkSize, 0);
      PutBackByNode(p, cs, chunkSize, 1);
    }

    /**
     Frees a live descriptor.  The 32-bit count of freed bytes makes the final assertion of the source fire exactly
     for buffers of 4 GiB and more; otherwise the descriptor is gone.  Its chunks are back either way.
     */
    method FreeDesc(desc: ContigDesc) returns (bug: bool, ghost at: nat)
      requires Valid() && desc in descList
      modifies this, inactiveChunks, memAllocated, desc
      ensures bug <==> desc.n * chunkSize >= WORD
      ensures ThePool() == PutBack(old(ThePool()), old(desc.allocList), chunkSize)
      ensures forall d: ddr ::
                && inactiveChunks[d] == Reversed(OfNode(old(desc.allocList), d)) + old(inactiveChunks[d])
                && memAllocated[d] == old(memAllocated[d]) - chunkSize * |OfNode(old(desc.allocList), d)|
      ensures at < |old(descList)| && old(descList)[at] == desc
      ensures !bug ==> Valid() && descList == old(descList)[..at] + old(descList)[at + 1..]
      ensures bug ==> descList == old(descList)
    {
      hide Accounted, FreeChunks, Union, Created, PutBack, AreDescs, CountersValid, ContigDesc.Complete, NodeChunks;
      hide OfNode, Reversed;
      var k :| 0 <= k < |descList| && descList[k] == desc;
      at := k;
      DescsWithout(descList, live, k);
      ghost var rest := live[..k] + live[k + 1..];
      UnionWithout(live, k);
      var deallocated := ReturnChunks(desc, Union(rest));
      if deallocated != desc.n * chunkSize {  // the assertion on the bytes given back fires
        return true, at;
      }
      descList := descList[..k] + descList[k + 1..];
      live := rest;
      return false, at;
    }

    /** The first chunk of a list goes back to its node. */
    lemma GiveStep(p: Pool, cs: seq<Chunk>)
      requires Shape() && Accounted(p, memSize, chunkSize) && |cs| > 0
      ensures PutBack(p, cs, chunkSize) == PutBack(Give(p, cs[0], chunkSize), cs[1..], chunkSize)
      ensures Accounted(Give(p, cs[0], chunkSize), memSize, chunkSize)
      ensures FreeChunks(Give(p, cs[0], chunkSize)) + multiset(cs[1..]) == FreeChunks(p) + multiset(cs)
    {
      PutBackAccounted(p, memSize, chunkSize, [cs[0]]);
      PutBackConserves(p, [cs[0]], chunkSize);
      assert PutBack(p, [cs[0]], chunkSize) == Give(p, cs[0], chunkSize) by {
        PutBackCons(p, cs[0], [], chunkSize);
      }
      assert cs == [cs[0]] + cs[1..];
    }

    /** While the chunks are conserved no counter can go below zero. */
    lemma CountersAreNatural(elsewhere: multiset<Chunk>)
      requires Shape() && CountersValid()
      requires FreeChunks(ThePool()) + elsewhere == Created()
      ensures memAllocated[0] >= 0 && memAllocated[1] >= 0
    {
      CounterIsNatural(ThePool(), memStart, memSize, chunkSize, elsewhere, 0);
      CounterIsNatural(ThePool(), memStart, memSize, chunkSize, elsewhere, 1);
    }

    /** Without live buffers every chunk is free on its own node, and the counters are down to the unused rest. */
    lemma EverythingReturned(d: ddr)
      requires Valid() && descList == []
      ensures multiset(inactiveChunks[d]) == multiset(NodeChunks(memStart, memSize, chunkSize, d))
      ensures memAllocated[d] == memSize[d] % chunkSize
    {
      hide FreeChunks, Accounted;
      assert Union(live) == multiset{};
      AllHome(ThePool(), memStart, memSize, chunkSize, d);
    }

    /** Any two chunks of live buffers, of one or of two, occupy disjoint addresses. */
    lemma LiveBuffersDisjoint(i: nat, a: nat, j: nat, b: nat)
      requires Valid() && RegionsDisjoint(memStart, memSize)
      requires i <= j < |descList| && a < descList[i].n && b < descList[j].n && (i != j || a != b)
      ensures Apart(descList[i].arr[a], descList[j].arr[b], chunkSize)
    {
      hide FreeChunks, Union, NodeChunks, Accounted;
      var a', b' := descList[i].n - 1 - a, descList[j].n - 1 - b;
      assert descList[i].arr[a] == descList[i].allocList[a'].paddr;
      assert descList[j].arr[b] == descList[j].allocList[b'].paddr;
      var x, y := live[i][a'], live[j][b'];
      if x == y {
        TwiceInUnion(live, i, a', j, b');
        CreatedOnce(memStart, memSize, chunkSize, x);
        assert false;
      }
      IsCreated(i, x);
      IsCreated(j, y);
      CreatedApart(memStart, memSize, chunkSize, x, y);
    }

    lemma ListsMatch()
      requires AreDescs(descList, live)
      ensures |live| == |descList| && forall d | d in descList :: d.arr != memAllocated
    {
    }

    lemma IsCreated(i: nat, x: Chunk)
      requires Valid() && i < |descList| && x in live[i]
      ensures x in NodeChunks(memStart, memSize, chunkSize, x.node)
    {
      hide FreeChunks, Union, AreDescs, CountersValid, NodeChunks;
      ListsMatch();
      InUnion(live, i, x);
      MadeOnOwnNode(memStart, memSize, chunkSize, FreeChunks(ThePool()) + Union(live), x);
    }

    /**
     The allocation request of a process.  A buffer with more chunks than the process has room to list, or whose
     list cannot be copied to it, is given back; a request that fails for any reason leaves the allocator as it
     was, every list in its order.
     */
    method AllocRequest(policy: Policy, size: nat, nMax: nat, noMemory: bool, copyFails: bool)
      returns (r: Result<ContigDesc>, bug: bool)
      requires Valid()
      modifies this, inactiveChunks, memAllocated
      ensures bug <==> !old(Refused(size, policy)) && !noMemory && (DivRoundUp(size, chunkSize) > nMax || copyFails)
                       && DivRoundUp(size, chunkSize) * chunkSize >= WORD
      ensures !bug ==> Valid()
      ensures !bug ==> (r.Err? <==> old(Refused(size, policy)) || noMemory || copyFails
                                    || DivRoundUp(size, chunkSize) > nMax)
      ensures !bug && r.Err? ==> ThePool() == old(ThePool()) && descList == old(descList)
      ensures !bug && r.Err? ==>
                r.error == if size != 0 && (old(Refused(size, policy)) || noMemory) then ENOMEM
                           else if size == 0 || DivRoundUp(size, chunkSize) > nMax then EINVAL else EFAULT
      ensures !bug && r.Ok? ==> fresh(r.value) && fresh(r.value.arr) && descList == [r.value] + old(descList)
      ensures !bug && r.Ok? ==> IsAllocated(r.value, old(ThePool()), policy, size)
    {
      assert size == 0 ==> Refused(size, policy);
      hide Refused, MostUsed, FreeChunks, Union, Created, AreDescs, Accounted, PlacementOf, Filled, DivRoundUp;
      hide TotalFree, IsAllocated;
      ghost var p, ds := ThePool(), descList;
      r := Alloc(policy, size, noMemory);
      bug := false;
      if r.Ok? && (r.value.n > nMax || copyFails) {
        var error := if r.value.n > nMax then EINVAL else EFAULT;
        bug := GiveUp(r.value, p, PlacementOf(p, memSize, chunkSize, policy, r.value.n), ds);
        r := Err(error);
      }
    }

    /** Frees the buffer allocated last: the pool and the descriptor list are again what they were before it. */
    method GiveUp(desc: ContigDesc, ghost p: Pool, ghost nodes: seq<ddr>, ghost ds: seq<ContigDesc>) returns (bug: bool)
      requires Valid() && descList == [desc] + ds && desc !in ds
      requires Accounted(p, memSize, chunkSize) && Filled(desc, p, nodes)
      modifies this, inactiveChunks, memAllocated, desc
      ensures bug <==> desc.n * chunkSize >= WORD
      ensures ThePool() == p
      ensures !bug ==> Valid() && descList == ds
    {
      hide FreeChunks, Union, Created, AreDescs, Feasible;
      PutBackUndoesAfter(p, nodes, chunkSize);
      ghost var at;
      bug, at := FreeDesc(desc);
      assert at == 0;
    }

    /** A filled descriptor is complete, and together with the remaining pool it has all the chunks there were. */
    lemma FilledIsComplete(desc: ContigDesc, p: Pool, nodes: seq<ddr>)
      requires Shape() && Filled(desc, p, nodes) && desc.n == |nodes|
      requires Accounted(p, memSize, chunkSize)
      ensures desc.Complete() && Accounted(ThePool(), memSize, chunkSize)
      ensures FreeChunks(ThePool()) + multiset(desc.allocList) == FreeChunks(p)
    {
      hide Accounted, FreeChunks, Feasible, Taken, Count, Reversed;
      AfterConserves(p, nodes, chunkSize);
      AfterAccounted(p, memSize, chunkSize, nodes);
      MultisetReversed(Taken(p, nodes));
    }
  }

  /** The assertion of the source at work: a buffer of 4 GiB, taken from two regions of 8 GiB, cannot be freed. */
  method FreeOfFourGigabytes() returns (bug: bool)
    ensures bug
  {
    assert Pow2(20) == 0x10_0000 by { MebiByte(); }
    var allocator := new Allocator([0x1000, 0x4_0000_0000], [0x2_0000_0000, 0x2_0000_0000], 20);
    var r := allocator.Alloc(Preferred(0), 0x1_0000_0000, false);
    assert r.Ok? && r.value.n == 4096;
    ghost var at;
    bug, at := allocator.FreeDesc(r.value);
  }

  lemma MebiByte()
    ensures Pow2(20) == 0x10_0000
  {
    assert Pow2(4) == 16;
    assert Pow2(8) == 256;
    assert Pow2(12) == 4096;
    assert Pow2(16) == 0x1_0000;
  }

  lemma OwnChunksOnly(p: Pool, memStart: seq<nat>, memSize: seq<nat>, size: nat, elsewhere: multiset<Chunk>, d: ddr)
    requires Homed(p) && size > 0 && |memStart| == |memSize| == 2
    requires FreeChunks(p) + elsewhere ==
             multiset(NodeChunks(memStart, memSize, size, 0)) + multiset(NodeChunks(memStart, memSize, size, 1))
    ensures multiset(p.free[d]) <= multiset(NodeChunks(memStart, memSize, size, d))
  {
    var free, made := multiset(p.free[d]), multiset(NodeChunks(memStart, memSize, size, d));
    var other := NodeChunks(memStart, memSize, size, 1 - d);
    forall c | c in free
      ensures free[c] <= made[c]
    {
      assert c in p.free[d];
      assert c !in other;
      assert (FreeChunks(p) + elsewhere)[c] == made[c] + multiset(other)[c];
    }
  }

  /** When all chunks are free, each node has its own; its counter is the part of its memory that is no whole chunk. */
  lemma AllHome(p: Pool, memStart: seq<nat>, memSize: seq<nat>, size: nat, d: ddr)
    requires Accounted(p, memSize, size) && size > 0 && |memStart| == |memSize| == 2
    requires FreeChunks(p) ==
             multiset(NodeChunks(memStart, memSize, size, 0)) + multiset(NodeChunks(memStart, memSize, size, 1))
    ensures multiset(p.free[d]) == multiset(NodeChunks(memStart, memSize, size, d))
    ensures p.used[d] == memSize[d] % size
  {
    NoneMissing(p, memStart, memSize, size, d);
    hide NodeChunks, FreeChunks;
    var made := NodeChunks(memStart, memSize, size, d);
    assert |p.free[d]| == |multiset(p.free[d])| == |multiset(made)| == |made|;
    CountOfNode(memStart, memSize, size, d);
    UsedRest(p.used[d], |p.free[d]|, memSize[d], size);
  }

  lemma NoneMissing(p: Pool, memStart: seq<nat>, memSize: seq<nat>, size: nat, d: ddr)
    requires Homed(p) && size > 0 && |memStart| == |memSize| == 2
    requires FreeChunks(p) ==
             multiset(NodeChunks(memStart, memSize, size, 0)) + multiset(NodeChunks(memStart, memSize, size, 1))
    ensures multiset(p.free[d]) == multiset(NodeChunks(memStart, memSize, size, d))
  {
    hide NodeChunks;
    OwnChunksOnly(p, memStart, memSize, size, multiset{}, 0);
    OwnChunksOnly(p, memStart, memSize, size, multiset{}, 1);
    var free, free' := multiset(p.free[d]), multiset(p.free[1 - d]);
    var made := multiset(NodeChunks(memStart, memSize, size, d));
    var made' := multiset(NodeChunks(memStart, memSize, size, 1 - d));
    assert d == 0 || d == 1;
    assert free + free' == FreeChunks(p) == made + made';
    SubsetsThatAddUp(free, free', made, made');
  }

  lemma UsedRest(used: int, f: nat, mem: nat, size: nat)
    requires size > 0 && used + size * f == mem && f == mem / size
    ensures used == mem % size
  {
    assert mem == mem / size * size + mem % size;
    assert size * f == f * size;
  }

  lemma SubsetsThatAddUp<T>(a: multiset<T>, b: multiset<T>, a': multiset<T>, b': multiset<T>)
    requires a <= a' && b <= b' && a + b == a' + b'
    ensures a == a'
  {
    forall x | x in a'
      ensures a[x] == a'[x]
    {
      assert (a + b)[x] == (a' + b')[x];
    }
  }

  lemma CountOfNode(memStart: seq<nat>, memSize: seq<nat>, size: nat, d: ddr)
    requires size > 0 && |memStart| == |memSize| == 2
    ensures |NodeChunks(memStart, memSize, size, d)| == memSize[d] / size
  {
  }

  /** No more chunks are free on a node than were made there, so its counter is not negative. */
  lemma CounterIsNatural(p: Pool, memStart: seq<nat>, memSize: seq<nat>, size: nat, elsewhere: multiset<Chunk>, d: ddr)
    requires Accounted(p, memSize, size) && size > 0 && |memStart| == |memSize| == 2
    requires FreeChunks(p) + elsewhere ==
             multiset(NodeChunks(memStart, memSize, size, 0)) + multiset(NodeChunks(memStart, memSize, size, 1))
    ensures p.used[d] >= 0
  {
    hide FreeChunks;
    OwnChunksOnly(p, memStart, memSize, size, elsewhere, d);
    var free, made := multiset(p.free[d]), multiset(NodeChunks(memStart, memSize, size, d));
    assert made == free + (made - free);
    assert |p.free[d]| == |free| <= |made| == memSize[d] / size;
    UsedIsNatural(p.used[d], |p.free[d]|, memSize[d], size);
  }

  lemma UsedIsNatural(used: int, f: nat, mem: nat, size: nat)
    requires size > 0 && used + size * f == mem && f <= mem / size
    ensures used >= 0
  {
    var n := mem / size;
    MultiplesGrow(f, n, size);
    assert mem == n * size + mem % size;
    assert size * f == f * size;
  }

  lemma CountedBytes(i: nat, d: nat)
    ensures (i * d % WORD + d) % WORD == (i + 1) * d % WORD
  {
    WrapStep(i * d, d);
    assert i * d + d == (i + 1) * d;
  }

  // ----- live buffers do not overlap

  /** Two chunks at these addresses have no byte in common. */
  predicate Apart(a: int, b: int, size: nat) {
    a + size <= b || b + size <= a
  }

  ghost predicate RegionsDisjoint(memStart: seq<nat>, memSize: seq<nat>)
    requires |memStart| == |memSize| == 2
  {
    memStart[0] + memSize[0] <= memStart[1] || memStart[1] + memSize[1] <= memStart[0]
  }

  lemma {:induction false} AtMostOnce(s: seq<Chunk>, x: Chunk)
    requires forall i, j | 0 <= i < j < |s| :: s[i] != s[j]
    ensures multiset(s)[x] <= 1
  {
    if |s| != 0 {
      var n := |s| - 1;
      AtMostOnce(s[..n], x);
      assert s == s[..n] + [s[n]];
      assert forall i | 0 <= i < n :: s[..n][i] == s[i] != s[n];
      assert s[n] !in s[..n];
    }
  }

  lemma TwoPositions(s: seq<Chunk>, a: nat, b: nat)
    requires a < b < |s| && s[a] == s[b]
    ensures multiset(s)[s[a]] >= 2
  {
    assert s == s[..b] + ([s[b]] + s[b + 1..]);
    assert s[..b][a] == s[a];
    assert s[a] in multiset(s[..b]);
  }

  lemma NodeChunksDiffer(memStart: seq<nat>, memSize: seq<nat>, size: nat, d: ddr, i: nat, j: nat)
    requires size > 0 && |memStart| == |memSize| == 2 && i < j < |NodeChunks(memStart, memSize, size, d)|
    ensures var cs := NodeChunks(memStart, memSize, size, d);
            cs[i].paddr + size <= cs[j].paddr && cs[i] != cs[j]
  {
    RoomFor(i, j, size);
    assert size * i == i * size && size * j == j * size;
  }

  /** Distinct chunks made at start-up occupy disjoint addresses when the regions do. */
  lemma CreatedApart(memStart: seq<nat>, memSize: seq<nat>, size: nat, x: Chunk, y: Chunk)
    requires size > 0 && |memStart| == |memSize| == 2 && RegionsDisjoint(memStart, memSize)
    requires x in NodeChunks(memStart, memSize, size, x.node) && y in NodeChunks(memStart, memSize, size, y.node)
    requires x != y
    ensures Apart(x.paddr, y.paddr, size)
  {
    var xs, ys := NodeChunks(memStart, memSize, size, x.node), NodeChunks(memStart, memSize, size, y.node);
    var i :| 0 <= i < |xs| && xs[i] == x;
    var j :| 0 <= j < |ys| && ys[j] == y;
    if x.node == y.node {
      if i < j {
        NodeChunksDiffer(memStart, memSize, size, x.node, i, j);
      } else {
        NodeChunksDiffer(memStart, memSize, size, x.node, j, i);
      }
    } else {
      WithinRegion(memStart, memSize, size, x.node, i);
      WithinRegion(memStart, memSize, size, y.node, j);
    }
  }

  lemma WithinRegion(memStart: seq<nat>, memSize: seq<nat>, size: nat, d: ddr, i: nat)
    requires size > 0 && |memStart| == |memSize| == 2 && i < |NodeChunks(memStart, memSize, size, d)|
    ensures var c := NodeChunks(memStart, memSize, size, d)[i];
            memStart[d] <= c.paddr && c.paddr + size <= memStart[d] + memSize[d]
  {
    var n := memSize[d] / size;
    RoomFor(i, n, size);
    assert memSize[d] == n * size + memSize[d] % size;
    assert size * i == i * size;
  }

  lemma MadeOnOwnNode(memStart: seq<nat>, memSize: seq<nat>, size: nat, made: multiset<Chunk>, x: Chunk)
    requires size > 0 && |memStart| == |memSize| == 2
    requires made == multiset(NodeChunks(memStart, memSize, size, 0)) + multiset(NodeChunks(memStart, memSize, size, 1))
    requires x in made
    ensures x in NodeChunks(memStart, memSize, size, x.node)
  {
    var other := NodeChunks(memStart, memSize, size, 1 - x.node);
    assert x !in other;
    assert multiset(other)[x] == 0;
  }

  /** No chunk was made twice. */
  lemma CreatedOnce(memStart: seq<nat>, memSize: seq<nat>, size: nat, x: Chunk)
    requires size > 0 && |memStart| == |memSize| == 2
    ensures var a, b := NodeChunks(memStart, memSize, size, 0), NodeChunks(memStart, memSize, size, 1);
            (multiset(a) + multiset(b))[x] <= 1
  {
    var own, other := NodeChunks(memStart, memSize, size, x.node), NodeChunks(memStart, memSize, size, 1 - x.node);
    forall i, j | 0 <= i < j < |own|
      ensures own[i] != own[j]
    {
      NodeChunksDiffer(memStart, memSize, size, x.node, i, j);
    }
    AtMostOnce(own, x);
    assert x !in other;
    assert multiset(other)[x] == 0;
  }

  lemma {:induction false} InUnion(lists: seq<seq<Chunk>>, j: nat, x: Chunk)
    requires j < |lists| && x in lists[j]
    ensures Union(lists)[x] >= 1
  {
    UnionWithout(lists, j);
    assert x in multiset(lists[j]);
  }

  /** A chunk found at two places of the live lists is there twice. */
  lemma TwiceInUnion(lists: seq<seq<Chunk>>, i: nat, a: nat, j: nat, b: nat)
    requires i <= j < |lists| && a < |lists[i]| && b < |lists[j]| && (i != j || a != b)
    requires lists[i][a] == lists[j][b]
    ensures Union(lists)[lists[i][a]] >= 2
  {
    hide Union;
    UnionWithout(lists, i);
    if i == j {
      TwoPositions(lists[i], if a < b then a else b, if a < b then b else a);
    } else {
      var rest := lists[..i] + lists[i + 1..];
      assert rest[j - 1] == lists[j];
      InUnion(rest, j - 1, lists[j][b]);
      assert lists[i][a] in multiset(lists[i]);
    }
  }

  /** Adding in 32 bits is adding, then reducing. */
  lemma WrapStep(x: nat, d: nat)
    ensures (x % WORD + d) % WORD == (x + d) % WORD
  {
    var q, r := x / WORD, x % WORD;
    var q', r' := (r + d) / WORD, (r + d) % WORD;
    DivModUnique(x + d, WORD, q + q', r');
  }

  lemma WholeChunks(size: nat, chunk: nat)
    requires chunk > 0
    ensures (size - size % chunk) / chunk == size / chunk && (size - size % chunk) % chunk == 0
  {
    var q := size / chunk;
    assert size - size % chunk == q * chunk + 0;
    DivModUnique(size - size % chunk, chunk, q, 0);
  }

  lemma Pow2Below(n: nat)
    requires n < 32
    ensures Pow2(n) < WORD
  {
    WordSize();
    Pow2Grows(n, 31);
  }

  /** The chunks of one node, by address. */
  function NodeChunks(memStart: seq<nat>, memSize: seq<nat>, chunkSize: nat, node: ddr): seq<Chunk>
    requires chunkSize > 0 && |memStart| == |memSize| == 2
  {
    seq(memSize[node] / chunkSize, k requires 0 <= k => Chunk(memStart[node] + chunkSize * k, node))
  }

  lemma ChunkAddresses(memStart: seq<nat>, memSize: seq<nat>, chunkSize: nat)
    requires chunkSize > 0 && |memStart| == |memSize| == 2
    ensures forall d: ddr :: var cs := NodeChunks(memStart, memSize, chunkSize, d);
              && |cs| == memSize[d] / chunkSize
              && forall k | 0 <= k < |cs| :: cs[k] == Chunk(memStart[d] + chunkSize * k, d)
  {
  }

  /** A request within the free memory needs no more chunks than are free, and fewer than 2^32. */
  lemma RequestFits(p: Pool, capacity: seq<nat>, size: nat, request: nat)
    requires Accounted(p, capacity, size) && size > 0
    requires capacity[0] / size + capacity[1] / size < WORD
    requires 0 < request <= capacity[0] - p.used[0] + capacity[1] - p.used[1]
    ensures 0 < DivRoundUp(request, size) <= TotalFree(p)
    ensures (DivRoundUp(request, size) - 1) * size < request <= DivRoundUp(request, size) * size
    ensures p.used[0] >= 0 && p.used[1] >= 0 ==> TotalFree(p) < WORD
    ensures (capacity[0] - p.used[0] + capacity[1] - p.used[1]) / size == TotalFree(p)
  {
    var f, g := |p.free[0]|, |p.free[1]|;
    assert (f + g) * size == size * f + size * g;
    DivModUnique((f + g) * size, size, f + g, 0);
    var x := request + size - 1;
    QuotientAtMost(x, size, f + g);
    QuotientAtLeast(x, size, 1);
    if p.used[0] >= 0 && p.used[1] >= 0 {
      QuotientAtLeast(capacity[0], size, f);
      QuotientAtLeast(capacity[1], size, g);
    }
  }
}