/** The free lists and counters of the contiguous-memory allocator, as values. */
module ChunkPool {
  import opened Arithmetic
  import opened MemoryNodes

  /** A chunk of physical memory and the DDR node it came from. */
  datatype Chunk = Chunk(paddr: nat, node: ddr)

  /** One free list and one allocation counter per node. */
  datatype Pool = Pool(free: seq<seq<Chunk>>, used: seq<int>) {
    predicate Shape() {
      |free| == |used| == 2
    }
  }

  /** How often node d occurs in nodes. */
  function Count(nodes: seq<ddr>, d: ddr): (c: nat)
    ensures c <= |nodes|
  {
    if |nodes| == 0 then 0
    else Count(nodes[..|nodes| - 1], d) + if nodes[|nodes| - 1] == d then 1 else 0
  }

  /** The free lists can serve the nodes in this order. */
  predicate Feasible(p: Pool, nodes: seq<ddr>) {
    p.Shape() && Count(nodes, 0) <= |p.free[0]| && Count(nodes, 1) <= |p.free[1]|
  }

  /** The pool after taking one chunk from the front of each named node's list in turn. */
  function After(p: Pool, nodes: seq<ddr>, size: nat): (q: Pool)
    requires Feasible(p, nodes)
    ensures q.Shape()
  {
    Pool([p.free[0][Count(nodes, 0)..], p.free[1][Count(nodes, 1)..]],
         [p.used[0] + size * Count(nodes, 0), p.used[1] + size * Count(nodes, 1)])
  }

  /** The chunks taken, in order. */
  function Taken(p: Pool, nodes: seq<ddr>): (t: seq<Chunk>)
    requires Feasible(p, nodes)
    ensures |t| == |nodes|
  {
    if |nodes| == 0 then []
    else
      var n := |nodes| - 1;
      Taken(p, nodes[..n]) + [p.free[nodes[n]][Count(nodes[..n], nodes[n])]]
  }

  function Reversed<T>(s: seq<T>): (r: seq<T>)
    ensures |r| == |s|
    ensures forall i | 0 <= i < |s| :: r[i] == s[|s| - 1 - i]
  {
    if |s| == 0 then [] else [s[|s| - 1]] + Reversed(s[..|s| - 1])
  }

  /** Puts a chunk back at the front of its own node's list. */
  function Give(p: Pool, c: Chunk, size: nat): (q: Pool)
    requires p.Shape()
    ensures q.Shape()
  {
    Pool(p.free[c.node := [c] + p.free[c.node]], p.used[c.node := p.used[c.node] - size])
  }

  /** Puts back the chunks of a list, first to last. */
  function PutBack(p: Pool, cs: seq<Chunk>, size: nat): (q: Pool)
    requires p.Shape()
    ensures q.Shape()
    decreases |cs|
  {
    if |cs| == 0 then p else PutBack(Give(p, cs[0], size), cs[1..], size)
  }

  /** Every listed chunk is on its own node's list. */
  predicate Homed(p: Pool) {
    p.Shape() && forall d: ddr, i | 0 <= i < |p.free[d]| :: p.free[d][i].node == d
  }

  /** Taking one more chunk. */
  lemma AfterSnoc(p: Pool, nodes: seq<ddr>, d: ddr, size: nat)
    requires Feasible(p, nodes) && Count(nodes, d) < |p.free[d]|
    ensures Feasible(p, nodes + [d])
    ensures var q, q' := After(p, nodes, size), After(p, nodes + [d], size);
            && |q.free[d]| > 0
            && q' == Pool(q.free[d := q.free[d][1..]], q.used[d := q.used[d] + size])
            && Taken(p, nodes + [d]) == Taken(p, nodes) + [q.free[d][0]]
  {
    hide Count;
    CountSnoc(nodes, d);
    var c := Count(nodes, d);
    assert size * (c + 1) == size * c + size;
    assert p.free[d][c..][1..] == p.free[d][c + 1..];
    TakenSnoc(p, nodes, d);
  }

  lemma CountEmpty(nodes: seq<ddr>)
    requires |nodes| == 0
    ensures Count(nodes, 0) == 0 == Count(nodes, 1)
  {
  }

  lemma CountSnoc(nodes: seq<ddr>, d: ddr)
    ensures Count(nodes + [d], d) == Count(nodes, d) + 1 && Count(nodes + [d], 1 - d) == Count(nodes, 1 - d)
  {
    assert (nodes + [d])[..|nodes|] == nodes;
  }

  lemma TakenSnoc(p: Pool, nodes: seq<ddr>, d: ddr)
    requires Feasible(p, nodes) && Feasible(p, nodes + [d]) && Count(nodes, d) < |p.free[d]|
    ensures Taken(p, nodes + [d]) == Taken(p, nodes) + [p.free[d][Count(nodes, d)]]
  {
    assert (nodes + [d])[..|nodes|] == nodes;
  }

  lemma {:induction false} FeasiblePrefix(p: Pool, nodes: seq<ddr>)
    requires |nodes| > 0 && Feasible(p, nodes)
    ensures var n, d := |nodes| - 1, nodes[|nodes| - 1];
            Feasible(p, nodes[..n]) && Count(nodes[..n], d) < |p.free[d]| && nodes == nodes[..n] + [d]
  {
  }

  /** Giving back the last chunk taken undoes taking it. */
  lemma GiveUndoesTake(q: Pool, d: ddr, size: nat)
    requires Homed(q) && |q.free[d]| > 0
    ensures Give(Pool(q.free[d := q.free[d][1..]], q.used[d := q.used[d] + size]), q.free[d][0], size) == q
  {
    assert [q.free[d][0]] + q.free[d][1..] == q.free[d];
  }

  lemma HomedAfter(p: Pool, nodes: seq<ddr>, size: nat)
    requires Homed(p) && Feasible(p, nodes)
    ensures Homed(After(p, nodes, size))
  {
  }

  lemma ReversedSnoc<T>(s: seq<T>, x: T)
    ensures Reversed(s + [x]) == [x] + Reversed(s)
  {
    assert (s + [x])[..|s|] == s;
  }

  lemma AfterNone(p: Pool, nodes: seq<ddr>, size: nat)
    requires Feasible(p, nodes) && |nodes| == 0
    ensures After(p, nodes, size) == p && Taken(p, nodes) == []
  {
    assert After(p, nodes, size).free == p.free;
    assert After(p, nodes, size).used == p.used;
  }

  /** Freeing what was allocated, last chunk first, restores every list in order and every counter. */
  lemma {:induction false} PutBackUndoesAfter(p: Pool, nodes: seq<ddr>, size: nat)
    requires Homed(p) && Feasible(p, nodes)
    ensures PutBack(After(p, nodes, size), Reversed(Taken(p, nodes)), size) == p
  {
    if |nodes| == 0 {
      AfterNone(p, nodes, size);
    } else {
      hide Count, After, Taken, Give, PutBack, Homed, Feasible, Reversed;
      var n, d := |nodes| - 1, nodes[|nodes| - 1];
      FeasiblePrefix(p, nodes);
      AfterSnoc(p, nodes[..n], d, size);
      HomedAfter(p, nodes[..n], size);
      var q, t := After(p, nodes[..n], size), Taken(p, nodes[..n]);
      GiveUndoesTake(q, d, size);
      ReversedSnoc(t, q.free[d][0]);
      PutBackCons(After(p, nodes, size), q.free[d][0], Reversed(t), size);
      PutBackUndoesAfter(p, nodes[..n], size);
    }
  }

  lemma PutBackNone(p: Pool, size: nat)
    requires p.Shape()
    ensures PutBack(p, [], size) == p
  {
  }

  lemma PutBackCons(p: Pool, c: Chunk, cs: seq<Chunk>, size: nat)
    requires p.Shape()
    ensures PutBack(p, [c] + cs, size) == PutBack(Give(p, c, size), cs, size)
  {
    assert ([c] + cs)[1..] == cs;
  }

  // ----- node by node

  /** The chunks of a list whose home is node d, in the order of the list. */
  function OfNode(cs: seq<Chunk>, d: ddr): seq<Chunk> {
    if |cs| == 0 then [] else (if cs[0].node == d then [cs[0]] else []) + OfNode(cs[1..], d)
  }

  function NodesOf(cs: seq<Chunk>): (nodes: seq<ddr>)
    ensures |nodes| == |cs|
  {
    seq(|cs|, i requires 0 <= i < |cs| => cs[i].node)
  }

  lemma {:induction false} OfNodeSnoc(cs: seq<Chunk>, c: Chunk, d: ddr)
    ensures OfNode(cs + [c], d) == OfNode(cs, d) + if c.node == d then [c] else []
    decreases |cs|
  {
    hide OfNode;
    if |cs| == 0 {
      assert cs + [c] == [c] + [];
      OfNodeNone(d);
      OfNodeCons(c, [], d);
    } else {
      OfNodeSnoc(cs[1..], c, d);
      assert cs == [cs[0]] + cs[1..] && cs + [c] == [cs[0]] + (cs[1..] + [c]);
      OfNodeCons(cs[0], cs[1..], d);
      OfNodeCons(cs[0], cs[1..] + [c], d);
    }
  }

  lemma {:induction false} ReversedTwice<T>(s: seq<T>)
    ensures Reversed(Reversed(s)) == s
  {
  }

  lemma {:induction false} OfNodeReversed(cs: seq<Chunk>, d: ddr)
    ensures OfNode(Reversed(cs), d) == Reversed(OfNode(cs, d))
    decreases |cs|
  {
    hide OfNode;
    if |cs| == 0 {
      OfNodeNone(d);
    } else {
      var n := |cs| - 1;
      var c := cs[n];
      assert cs == cs[..n] + [c];
      OfNodeReversed(cs[..n], d);
      OfNodeSnoc(cs[..n], c, d);
      ReversedSnoc(cs[..n], c);
      ReversedSnoc(OfNode(cs[..n], d), c);
      OfNodeCons(c, Reversed(cs[..n]), d);
    }
  }

  lemma OfNodeNone(d: ddr)
    ensures OfNode([], d) == []
  {
  }

  lemma OfNodeCons(c: Chunk, cs: seq<Chunk>, d: ddr)
    ensures OfNode([c] + cs, d) == (if c.node == d then [c] else []) + OfNode(cs, d)
  {
    assert ([c] + cs)[1..] == cs;
  }

  /** The chunks taken from a node are the first ones of its list, in order. */
  lemma {:induction false} TakenOfNode(p: Pool, nodes: seq<ddr>, d: ddr)
    requires Homed(p) && Feasible(p, nodes)
    ensures OfNode(Taken(p, nodes), d) == p.free[d][..Count(nodes, d)] && NodesOf(Taken(p, nodes)) == nodes
  {
    hide OfNode, Taken, Count;
    if |nodes| == 0 {
      AfterNone(p, nodes, 0);
      OfNodeNone(d);
      CountEmpty(nodes);
    } else {
      var n, e := |nodes| - 1, nodes[|nodes| - 1];
      FeasiblePrefix(p, nodes);
      TakenOfNode(p, nodes[..n], d);
      CountSnoc(nodes[..n], e);
      TakenSnoc(p, nodes[..n], e);
      OfNodeSnoc(Taken(p, nodes[..n]), p.free[e][Count(nodes[..n], e)], d);
    }
  }

  /** Each list was the chunks taken from it, in the order they were taken, followed by what is left. */
  lemma AfterByNode(p: Pool, nodes: seq<ddr>, size: nat, cs: seq<Chunk>, d: ddr)
    requires Homed(p) && Feasible(p, nodes) && cs == Reversed(Taken(p, nodes))
    ensures p.free[d] == Reversed(OfNode(cs, d)) + After(p, nodes, size).free[d]
    ensures After(p, nodes, size).used[d] == p.used[d] + size * |OfNode(cs, d)|
    ensures |OfNode(cs, d)| == Count(nodes, d) && NodesOf(Reversed(cs)) == nodes
  {
    hide OfNode, Taken, Count, Reversed;
    TakenOfNode(p, nodes, d);
    OfNodeReversed(Taken(p, nodes), d);
    ReversedTwice(OfNode(Taken(p, nodes), d));
    ReversedTwice(Taken(p, nodes));
  }

  /** Putting a list back puts each node's part, turned round, in front of what is there. */
  lemma {:induction false} PutBackByNode(p: Pool, cs: seq<Chunk>, size: nat, d: ddr)
    requires p.Shape()
    ensures PutBack(p, cs, size).free[d] == Reversed(OfNode(cs, d)) + p.free[d]
    ensures PutBack(p, cs, size).used[d] == p.used[d] - size * |OfNode(cs, d)|
    decreases |cs|
  {
    hide Reversed;
    if |cs| != 0 {
      var q, rest := Give(p, cs[0], size), OfNode(cs[1..], d);
      PutBackByNode(q, cs[1..], size, d);
      if cs[0].node == d {
        ReversedCons(cs[0], rest);
        assert size * (|rest| + 1) == size * |rest| + size;
      }
    }
  }

  lemma ReversedCons<T>(x: T, s: seq<T>)
    ensures Reversed([x] + s) == Reversed(s) + [x]
  {
  }

  // ----- conservation

  /** All chunks on the free lists, with multiplicity. */
  function FreeChunks(p: Pool): multiset<Chunk>
    requires p.Shape()
  {
    multiset(p.free[0]) + multiset(p.free[1])
  }

  /** Allocation only moves chunks: those taken and those left are those there were. */
  lemma {:induction false} AfterConserves(p: Pool, nodes: seq<ddr>, size: nat)
    requires Feasible(p, nodes)
    ensures FreeChunks(After(p, nodes, size)) + multiset(Taken(p, nodes)) == FreeChunks(p)
  {
    hide Count, After, Taken, FreeChunks;
    if |nodes| == 0 {
      AfterNone(p, nodes, size);
    } else {
      var n, d := |nodes| - 1, nodes[|nodes| - 1];
      FeasiblePrefix(p, nodes);
      AfterConserves(p, nodes[..n], size);
      AfterSnoc(p, nodes[..n], d, size);
      TakeConserves(After(p, nodes[..n], size), After(p, nodes, size), d);
    }
  }

  lemma TakeConserves(q: Pool, q': Pool, d: ddr)
    requires q.Shape() && |q.free[d]| > 0 && q'.free == q.free[d := q.free[d][1..]] && q'.Shape()
    ensures FreeChunks(q') + multiset{q.free[d][0]} == FreeChunks(q)
  {
    assert q.free[d] == [q.free[d][0]] + q.free[d][1..];
    assert multiset(q.free[d]) == multiset{q.free[d][0]} + multiset(q.free[d][1..]);
  }

  /** Freeing only moves chunks, too. */
  lemma {:induction false} PutBackConserves(p: Pool, cs: seq<Chunk>, size: nat)
    requires p.Shape()
    ensures FreeChunks(PutBack(p, cs, size)) == FreeChunks(p) + multiset(cs)
    decreases |cs|
  {
    if |cs| != 0 {
      var q := Give(p, cs[0], size);
      assert multiset(q.free[cs[0].node]) == multiset{cs[0]} + multiset(p.free[cs[0].node]);
      assert FreeChunks(q) == FreeChunks(p) + multiset{cs[0]};
      PutBackConserves(q, cs[1..], size);
      assert cs == [cs[0]] + cs[1..];
    }
  }

  /** The counter of each node accounts for exactly the chunks that are not free. */
  predicate Accounted(p: Pool, capacity: seq<nat>, size: nat) {
    && Homed(p) && |capacity| == 2
    && p.used[0] + size * |p.free[0]| == capacity[0] && p.used[1] + size * |p.free[1]| == capacity[1]
  }

  lemma AfterAccounted(p: Pool, capacity: seq<nat>, size: nat, nodes: seq<ddr>)
    requires Accounted(p, capacity, size) && Feasible(p, nodes)
    ensures Accounted(After(p, nodes, size), capacity, size)
  {
    var a, b := Count(nodes, 0), Count(nodes, 1);
    var f, g := |p.free[0]|, |p.free[1]|;
    assert size * a + size * (f - a) == size * f;
    assert size * b + size * (g - b) == size * g;
  }

  lemma {:induction false} PutBackAccounted(p: Pool, capacity: seq<nat>, size: nat, cs: seq<Chunk>)
    requires Accounted(p, capacity, size)
    ensures Accounted(PutBack(p, cs, size), capacity, size)
    decreases |cs|
  {
    if |cs| != 0 {
      var f := |p.free[cs[0].node]|;
      assert size * (f + 1) == size * f + size;
      PutBackAccounted(Give(p, cs[0], size), capacity, size, cs[1..]);
    }
  }

  /** Room on a node, in bytes and in chunks. */
  lemma RoomIsChunks(p: Pool, capacity: seq<nat>, size: nat, d: ddr, n: nat)
    requires Accounted(p, capacity, size) && size > 0
    ensures capacity[d] - p.used[d] >= n * size <==> n <= |p.free[d]|
    ensures p.used[d] == capacity[d] <==> |p.free[d]| == 0
    ensures p.used[d] <= capacity[d]
  {
    var f := |p.free[d]|;
    if n <= f {
      MultiplesGrow(n, f, size);
    } else {
      RoomFor(f, n, size);
    }
    if f > 0 {
      MultiplesGrow(1, f, size);
    }
    assert f * size == size * f;
  }
}
