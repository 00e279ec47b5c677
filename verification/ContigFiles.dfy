/** The allocator's character device: every open file keeps the list of the buffers it holds. */
module ContigFiles {
  import opened Bits
  import opened ChunkPool
  import opened ContigAlloc
  import opened MemoryNodes
  import opened Placement

  /** The list without its element at position k. */
  function Dropped<T>(s: seq<T>, k: nat): seq<T>
    requires k < |s|
  {
    s[..k] + s[k + 1..]
  }

  /** Replacing one list exchanges its elements for the new ones. */
  lemma UnionExchange<T>(lists: seq<seq<T>>, k: nat, s: seq<T>)
    requires k < |lists|
    ensures Union(lists[k := s]) + multiset(lists[k]) == Union(lists) + multiset(s)
  {
    hide Union;
    UnionWithout(lists, k);
    UnionWithout(lists[k := s], k);
    assert lists[k := s][..k] == lists[..k] && lists[k := s][k + 1..] == lists[k + 1..];
  }

  lemma Cancel<T>(a: multiset<T>, b: multiset<T>, c: multiset<T>)
    requires a + b == c + b
    ensures a == c
  {
    forall x | x in a + c
      ensures a[x] == c[x]
    {
      assert (a + b)[x] == (c + b)[x];
    }
    assert forall x :: a[x] == c[x];
  }

  lemma UnionPush<T>(lists: seq<seq<T>>, k: nat, x: T)
    requires k < |lists|
    ensures Union(lists[k := [x] + lists[k]]) == Union(lists) + multiset{x}
  {
    hide Union;
    UnionExchange(lists, k, [x] + lists[k]);
    assert multiset([x] + lists[k]) == multiset{x} + multiset(lists[k]);
    Cancel(Union(lists[k := [x] + lists[k]]), multiset(lists[k]), Union(lists) + multiset{x});
  }

  lemma UnionDrop<T>(lists: seq<seq<T>>, k: nat, j: nat)
    requires k < |lists| && j < |lists[k]|
    ensures Union(lists[k := Dropped(lists[k], j)]) == Union(lists) - multiset{lists[k][j]}
    ensures lists[k][j] in Union(lists)
  {
    hide Union, Dropped;
    var a, rest := Union(lists[k := Dropped(lists[k], j)]), multiset(Dropped(lists[k], j));
    UnionExchange(lists, k, Dropped(lists[k], j));
    MultisetDropped(lists[k], j);
    assert (a + multiset{lists[k][j]}) + rest == Union(lists) + rest;
    Cancel(a + multiset{lists[k][j]}, rest, Union(lists));
    MemberOfUnion(lists, k, lists[k][j]);
  }

  lemma {:induction false} UnionOfEmpty<T>(lists: seq<seq<T>>)
    requires forall i | 0 <= i < |lists| :: lists[i] == []
    ensures Union(lists) == multiset{}
  {
    if |lists| != 0 {
      UnionOfEmpty(lists[1..]);
    }
  }

  lemma {:induction false} UnionSnoc<T>(lists: seq<seq<T>>, s: seq<T>)
    ensures Union(lists + [s]) == Union(lists) + multiset(s)
  {
    if |lists| == 0 {
      assert (lists + [s])[1..] == [];
    } else {
      UnionSnoc(lists[1..], s);
      assert (lists + [s])[1..] == lists[1..] + [s];
    }
  }

  lemma MultisetDropped<T>(s: seq<T>, k: nat)
    requires k < |s|
    ensures multiset(s) == multiset(Dropped(s, k)) + multiset{s[k]}
  {
    assert s == s[..k] + [s[k]] + s[k + 1..];
  }

  lemma MemberOfUnion<T>(lists: seq<seq<T>>, k: nat, x: T)
    requires k < |lists| && x in lists[k]
    ensures x in Union(lists)
  {
    UnionWithout(lists, k);
    assert x in multiset(lists[k]);
  }

  class Driver {
    const alloc: Allocator

    /** The descriptors each file holds, newest first; a closed file holds none. */
    var files: seq<seq<ContigDesc>>

    constructor (alloc: Allocator)
      requires alloc.Valid() && alloc.descList == []
      ensures Valid() && this.alloc == alloc && files == []
    {
      this.alloc := alloc;
      files := [];
    }

    /** Every live buffer belongs to exactly one file, once. */
    ghost predicate Valid()
      reads this, alloc, alloc.inactiveChunks, alloc.memAllocated, alloc.Descs(), alloc.Arrays()
    {
      alloc.Valid() && Union(files) == multiset(alloc.descList)
    }

    /** contig_open */
    method Open() returns (fd: nat)
      requires Valid()
      modifies this
      ensures Valid() && fd == |old(files)| && files == old(files) + [[]]
    {
      fd := |files|;
      UnionSnoc<ContigDesc>(files, []);
      files := files + [[]];
    }

    /** Changes the list of one file. */
    method SetFile(fd: nat, list: seq<ContigDesc>)
      requires alloc.Valid() && fd < |files|
      modifies this
      ensures alloc.Valid() && files == old(files)[fd := list]
    {
      files := files[fd := list];
    }

    /** contig_alloc_ioctl */
    method AllocIoctl(fd: nat, policy: Policy, size: nat, nMax: nat, noMemory: bool, copyFails: bool)
      returns (r: Result<ContigDesc>, bug: bool)
      requires Valid() && fd < |files|
      modifies this, alloc, alloc.inactiveChunks, alloc.memAllocated
      ensures bug <==> !old(alloc.Refused(size, policy)) && !noMemory
                       && (DivRoundUp(size, alloc.chunkSize) > nMax || copyFails)
                       && DivRoundUp(size, alloc.chunkSize) * alloc.chunkSize >= WORD
      ensures !bug ==> Valid()
      ensures !bug ==> (r.Err? <==> old(alloc.Refused(size, policy)) || noMemory || copyFails
                                    || DivRoundUp(size, alloc.chunkSize) > nMax)
      ensures !bug && r.Err? ==> files == old(files) && alloc.descList == old(alloc.descList)
      ensures !bug && r.Err? ==> alloc.ThePool() == old(alloc.ThePool())
      ensures !bug && r.Ok? ==> fresh(r.value) && files == old(files)[fd := [r.value] + old(files)[fd]]
      ensures !bug && r.Ok? ==> alloc.descList == [r.value] + old(alloc.descList)
      ensures !bug && r.Ok? ==> alloc.IsAllocated(r.value, old(alloc.ThePool()), policy, size)
    {
      hide Union, Allocator.Valid, Allocator.Refused, Allocator.IsAllocated, DivRoundUp;
      r, bug := alloc.AllocRequest(policy, size, nMax, noMemory, copyFails);
      if !bug && r.Ok? {
        UnionPush(files, fd, r.value);
        assert multiset(alloc.descList) == multiset{r.value} + Union(files);
        SetFile(fd, [r.value] + files[fd]);
      }
    }

    /** Frees the k-th descriptor of a file. */
    method FreeAt(fd: nat, k: nat) returns (bug: bool)
      requires Valid() && fd < |files| && k < |files[fd]|
      modifies this, alloc, alloc.inactiveChunks, alloc.memAllocated, files[fd][k]
      ensures bug <==> old(files[fd][k].n) * alloc.chunkSize >= WORD
      ensures files == old(files)[fd := Dropped(old(files)[fd], k)]
      ensures alloc.ThePool() == PutBack(old(alloc.ThePool()), old(files[fd][k].allocList), alloc.chunkSize)
      ensures !bug ==>
                Valid() && multiset(alloc.descList) == multiset(old(alloc.descList)) - multiset{old(files)[fd][k]}
    {
      hide Union, Allocator.Valid;
      var desc := files[fd][k];
      ghost var live := alloc.descList;
      UnionDrop(files, fd, k);
      assert desc in multiset(live);
      SetFile(fd, Dropped(files[fd], k));
      ghost var at;
      bug, at := alloc.FreeDesc(desc);
      MultisetDropped(live, at);
    }

    /** contig_free_ioctl: only a descriptor this file holds is freed. */
    method FreeIoctl(fd: nat, del: ContigDesc) returns (found: bool, bug: bool)
      requires Valid() && fd < |files|
      modifies this, alloc, alloc.inactiveChunks, alloc.memAllocated, del
      ensures found == (del in old(files)[fd])
      ensures !found ==> !bug && Valid() && files == old(files) && alloc.ThePool() == old(alloc.ThePool())
      ensures found ==> exists k ::
                          && 0 <= k < |old(files)[fd]| && old(files)[fd][k] == del
                          && files == old(files)[fd := Dropped(old(files)[fd], k)]
      ensures bug <==> found && del.n * alloc.chunkSize >= WORD
      ensures found ==> alloc.ThePool() == PutBack(old(alloc.ThePool()), old(del.allocList), alloc.chunkSize)
      ensures found && !bug ==> Valid() && multiset(alloc.descList) == multiset(old(alloc.descList)) - multiset{del}
    {
      for k := 0 to |files[fd]|
        invariant del !in files[fd][..k]
      {
        if files[fd][k] == del {
          bug := FreeAt(fd, k);
          return true, bug;
        }
      }
      return false, false;
    }

    /** contig_release: frees everything the file holds. */
    method Release(fd: nat) returns (bug: bool)
      requires Valid() && fd < |files|
      modifies this, alloc, alloc.inactiveChunks, alloc.memAllocated, files[fd]
      ensures bug <==> exists d :: d in old(files)[fd] && d.n * alloc.chunkSize >= WORD
      ensures !bug ==> Valid() && files == old(files)[fd := []]
      ensures !bug ==> multiset(alloc.descList) == multiset(old(alloc.descList)) - multiset(old(files)[fd])
    {
      hide Union, Allocator.Valid;
      ghost var held, i := files[fd], 0;
      ghost var live := multiset(alloc.descList);
      assert files[fd := files[fd]] == files;
      while files[fd] != []
        invariant Valid() && i <= |held| && files == old(files)[fd := held[i..]]
        invariant multiset(alloc.descList) == live - multiset(held[..i])
        invariant forall d | d in held[..i] :: d.n * alloc.chunkSize < WORD
        decreases |held| - i
      {
        assert files[fd][0] == held[i];
        bug := FreeAt(fd, 0);
        assert Dropped(held[i..], 0) == held[i + 1..];
        assert held[..i + 1] == held[..i] + [held[i]];
        i := i + 1;
        if bug { return true; }
      }
      assert held[..i] == held;
      return false;
    }

    /** Nothing leaks: when no file holds a buffer, every chunk is free on its own node and nothing counts as used. */
    lemma NothingLeaks(d: ddr)
      requires Valid() && forall i | 0 <= i < |files| :: files[i] == []
      ensures multiset(alloc.inactiveChunks[d])
           == multiset(NodeChunks(alloc.memStart, alloc.memSize, alloc.chunkSize, d))
      ensures alloc.memAllocated[d] == alloc.memSize[d] % alloc.chunkSize
    {
      UnionOfEmpty(files);
      assert |alloc.descList| == |multiset(alloc.descList)| == 0;
      alloc.EverythingReturned(d);
    }
  }
}
