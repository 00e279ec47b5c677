/**
 The coherence choice of the accelerator runtime and its bookkeeping, as values: a shared status,
 and the jobs of the accelerators that are running.
 */
module CoherencePolicy {
  import opened Bits
  import opened MemoryNodes

  datatype Coherence = NONE | LLC | RECALL | FULL | AUTO

  datatype AllocPolicy = PREFERRED | LEAST_LOADED | BALANCED

  /** A 32-bit unsigned counter. */
  type word = x: int | 0 <= x < 0x1_0000_0000

  function Wrap(x: int): word {
    x % WORD
  }

  /** Cache sizes in bytes and the number of last-level banks. */
  datatype Config = Config(l2: word, bank: word, llc: word, banks: nat) {
    ghost predicate Ok() { 1 <= banks <= DDR_NODES }
  }

  /** What a caller asks for. */
  datatype Access = Access(coherence: Coherence, footprint: word, policy: AllocPolicy, node: ddr)

  /** A running accelerator: what was asked for and the coherence it got. */
  datatype Job = Job(access: Access, coherence: Coherence) {
    predicate Auto() { access.coherence == AUTO }

    /** It was chosen automatically, uses a cache, and therefore counts in the footprints. */
    predicate Counted() { Auto() && coherence != NONE }

    /** Only accesses that asked for automatic or full coherence go through the status. */
    predicate Tracked() { Auto() || access.coherence == FULL }
  }

  datatype Status = Status(cnt: word, full: word, footprint: word, split: seq<word>) {
    ghost predicate Shape() { |split| == DDR_NODES }
  }

  const INITIAL_STATUS := Status(0, 0, 0, [0, 0])

  // ----- the two status updates of the source

  /** Footprint the access would bring its memory to, in 32 bits. */
  function ProspectiveFootprint(st: Status, a: Access): word
    requires st.Shape()
  {
    if a.policy == BALANCED then Wrap(st.footprint + a.footprint) else Wrap(st.split[a.node] + a.footprint)
  }

  function Threshold(c: Config, a: Access): word {
    if a.policy == BALANCED then c.llc else c.bank
  }

  /** The coherence an automatic access gets when cnt accelerators, this one included, are active. */
  function Choose(c: Config, st: Status, a: Access, cnt: word): Coherence
    requires st.Shape()
  {
    if a.footprint < c.l2 then (if st.full < 1 then FULL else LLC)
    else if cnt >= 6 then NONE
    else if ProspectiveFootprint(st, a) > Threshold(c, a) then NONE
    else LLC
  }

  /** What a counted job adds to node i's share of the footprint. */
  function Share(c: Config, a: Access, i: ddr): nat
    requires c.Ok()
  {
    if a.policy == BALANCED then (if i < c.banks then a.footprint / c.banks else 0)
    else if a.node == i then a.footprint else 0
  }

  /** A counter moved up or down, in 32 bits. */
  function Moved(x: word, d: nat, up: bool): word {
    if up then Wrap(x + d) else Wrap(x - d)
  }

  /** The per-node footprints with the shares of an access added or taken away. */
  function MoveShares(c: Config, split: seq<word>, a: Access, up: bool): (r: seq<word>)
    requires c.Ok() && |split| == DDR_NODES
    ensures |r| == DDR_NODES
  {
    [Moved(split[0], Share(c, a, 0), up), Moved(split[1], Share(c, a, 1), up)]
  }

  /** The configuration step of an access that asks for automatic or full coherence. */
  function Configure(c: Config, st: Status, a: Access): (r: (Status, Coherence))
    requires c.Ok() && st.Shape()
    ensures r.0.Shape()
  {
    if a.coherence == FULL then
      if st.full >= 1 then (st, LLC) else (st.(full := Wrap(st.full + 1)), FULL)
    else if a.coherence != AUTO then (st, a.coherence)
    else
      var cnt := Wrap(st.cnt + 1);
      var choice := Choose(c, st, a, cnt);
      var st1 := st.(cnt := cnt, full := if choice == FULL then Wrap(st.full + 1) else st.full);
      if choice == NONE then (st1, choice)
      else (st1.(footprint := Wrap(st.footprint + a.footprint), split := MoveShares(c, st.split, a, true)), choice)
  }

  /** The update when a job ends; nothing if its start did not go through the status. */
  function Release(c: Config, st: Status, j: Job): (r: Status)
    requires c.Ok() && st.Shape()
    ensures r.Shape()
  {
    var st1 := if j.coherence == FULL then st.(full := Wrap(st.full - 1)) else st;
    if !j.Tracked() then st
    else if !j.Auto() then st1
    else
      var st2 := st1.(cnt := Wrap(st.cnt - 1));
      if j.coherence == NONE then st2
      else st2.(footprint := Wrap(st.footprint - j.access.footprint), split := MoveShares(c, st.split, j.access, false))
  }

  // ----- sums over the running jobs

  /** The sum of a measure over the jobs. */
  function Total(f: Job -> nat, js: seq<Job>): nat {
    if |js| == 0 then 0 else Total(f, js[..|js| - 1]) + f(js[|js| - 1])
  }

  lemma TotalSnoc(f: Job -> nat, js: seq<Job>, j: Job)
    ensures Total(f, js + [j]) == Total(f, js) + f(j)
  {
    assert (js + [j])[..|js|] == js;
  }

  function Without(js: seq<Job>, k: nat): seq<Job>
    requires k < |js|
  {
    js[..k] + js[k + 1..]
  }

  lemma {:induction false} TotalWithout(f: Job -> nat, js: seq<Job>, k: nat)
    requires k < |js|
    ensures Total(f, Without(js, k)) + f(js[k]) == Total(f, js)
  {
    var n := |js| - 1;
    if k < n {
      TotalWithout(f, js[..n], k);
      assert Without(js, k) == Without(js[..n], k) + [js[n]];
      TotalSnoc(f, Without(js[..n], k), js[n]);
    } else {
      assert Without(js, k) == js[..n];
    }
  }

  lemma {:induction false} TotalMonotone(f: Job -> nat, g: Job -> nat, js: seq<Job>)
    requires forall j :: f(j) <= g(j)
    ensures Total(f, js) <= Total(g, js)
  {
    if |js| != 0 { TotalMonotone(f, g, js[..|js| - 1]); }
  }

  const AUTOMATIC: Job -> nat := (j: Job) => if j.Auto() then 1 else 0
  const FULLY_COHERENT: Job -> nat := (j: Job) => if j.coherence == FULL then 1 else 0
  const FOOTPRINT: Job -> nat := (j: Job) => if j.Counted() then j.access.footprint else 0

  function SharesOf(c: Config, i: ddr): Job -> nat
    requires c.Ok()
  {
    (j: Job) => if j.Counted() then Share(c, j.access, i) else 0
  }

  /** A job too big for the private cache that was admitted to the last-level cache. */
  predicate Big(c: Config, j: Job) {
    j.Auto() && j.access.footprint >= c.l2 && j.coherence == LLC
  }

  function BigOnes(c: Config): Job -> nat {
    (j: Job) => if Big(c, j) then 1 else 0
  }

  /** Footprint of the big jobs placed on node i alone. */
  function BigOnNode(c: Config, i: ddr): Job -> nat {
    (j: Job) => if Big(c, j) && j.access.policy != BALANCED && j.access.node == i then j.access.footprint else 0
  }

  /** Footprint of the big jobs spread over all banks. */
  function BigBalanced(c: Config): Job -> nat {
    (j: Job) => if Big(c, j) && j.access.policy == BALANCED then j.access.footprint else 0
  }

  // ----- the accounting

  /** Full coherence is held only by jobs that go through the status. */
  ghost predicate FullIsTracked(js: seq<Job>) {
    forall i :: 0 <= i < |js| && js[i].coherence == FULL ==> js[i].Tracked()
  }

  /** Every counter is the count or sum over the running jobs, in 32 bits; at most one job is fully coherent. */
  ghost predicate Accounted(c: Config, st: Status, js: seq<Job>)
    requires c.Ok()
  {
    && st.Shape() && FullIsTracked(js)
    && st.cnt == Wrap(Total(AUTOMATIC, js)) && st.full == Total(FULLY_COHERENT, js) <= 1
    && st.footprint == Wrap(Total(FOOTPRINT, js))
    && st.split[0] == Wrap(Total(SharesOf(c, 0), js)) && st.split[1] == Wrap(Total(SharesOf(c, 1), js))
  }

  lemma WrapAdd(x: int, d: int)
    ensures Wrap(Wrap(x) + d) == Wrap(x + d)
  {
    var q, r := x / WORD, x % WORD;
    var q', r' := (r + d) / WORD, (r + d) % WORD;
    assert x + d == WORD * (q + q') + r';
  }

  /** Starting an access keeps the accounting, wrap-around or not. */
  lemma ConfigureKeepsAccounting(c: Config, st: Status, js: seq<Job>, a: Access)
    requires c.Ok() && Accounted(c, st, js)
    ensures var (st', choice) := Configure(c, st, a);
            Accounted(c, st', js + [Job(a, choice)])
  {
    hide Total, Wrap;
    var (st', choice) := Configure(c, st, a);
    var j := Job(a, choice);
    TotalSnoc(AUTOMATIC, js, j);
    TotalSnoc(FULLY_COHERENT, js, j);
    TotalSnoc(FOOTPRINT, js, j);
    TotalSnoc(SharesOf(c, 0), js, j);
    TotalSnoc(SharesOf(c, 1), js, j);
    WrapAdd(Total(AUTOMATIC, js), 1);
    WrapAdd(Total(FOOTPRINT, js), a.footprint);
    WrapAdd(Total(SharesOf(c, 0), js), Share(c, a, 0));
    WrapAdd(Total(SharesOf(c, 1), js), Share(c, a, 1));
    SmallWrap(st.full + 1);
  }

  lemma SmallWrap(x: int)
    ensures 0 <= x < WORD ==> Wrap(x) == x
  {
  }

  lemma WithoutIsTracked(js: seq<Job>, k: nat)
    requires k < |js| && FullIsTracked(js)
    ensures FullIsTracked(Without(js, k)) && (js[k].coherence == FULL ==> js[k].Tracked())
  {
    var rest := Without(js, k);
    forall i | 0 <= i < |rest| && rest[i].coherence == FULL
      ensures rest[i].Tracked()
    {
      assert rest[i] == js[if i < k then i else i + 1];
    }
  }

  /** Ending any running job keeps the accounting, and no counter of accelerators underflows. */
  lemma ReleaseKeepsAccounting(c: Config, st: Status, js: seq<Job>, k: nat)
    requires c.Ok() && k < |js| && Accounted(c, st, js)
    ensures Accounted(c, Release(c, st, js[k]), Without(js, k))
    ensures js[k].coherence == FULL ==> st.full >= 1
    ensures js[k].Auto() ==> Total(AUTOMATIC, js) >= 1
    ensures js[k].Counted() ==> Total(FOOTPRINT, js) >= js[k].access.footprint
    ensures js[k].Counted() ==> forall i: ddr :: Total(SharesOf(c, i), js) >= Share(c, js[k].access, i)
  {
    hide Total, Wrap, Share, FullIsTracked;
    var j := js[k];
    WithoutIsTracked(js, k);
    TotalWithout(AUTOMATIC, js, k);
    TotalWithout(FULLY_COHERENT, js, k);
    TotalWithout(FOOTPRINT, js, k);
    TotalWithout(SharesOf(c, 0), js, k);
    TotalWithout(SharesOf(c, 1), js, k);
    if j.Tracked() {
      SmallWrap(st.full - 1);
      WrapAdd(Total(AUTOMATIC, js), -1);
      WrapAdd(Total(FOOTPRINT, js), -(j.access.footprint as int));
      WrapAdd(Total(SharesOf(c, 0), js), -(Share(c, j.access, 0) as int));
      WrapAdd(Total(SharesOf(c, 1), js), -(Share(c, j.access, 1) as int));
    }
  }

  /** No two running accelerators are fully coherent at a time. */
  lemma {:induction false} OneFullyCoherent(js: seq<Job>, i: nat, k: nat)
    requires Total(FULLY_COHERENT, js) <= 1 && i < k < |js| && js[i].coherence == FULL
    ensures js[k].coherence != FULL
  {
    var rest := Without(js, k);
    TotalWithout(FULLY_COHERENT, js, k);
    TotalWithout(FULLY_COHERENT, rest, i);
  }

  // ----- the capacity

  /** The big jobs fit the last-level cache, and there are at most five. */
  ghost predicate WithinCapacity(c: Config, js: seq<Job>) {
    && Total(BigOnNode(c, 0), js) <= c.bank && Total(BigOnNode(c, 1), js) <= c.bank
    && Total(BigBalanced(c), js) <= c.llc && Total(BigOnes(c), js) <= 5
  }

  /**
   What an automatic job that uses a cache occupies of the memory an access is about to use: all of its footprint
   if the access spreads over all banks, or if both are placed on one and the same node; its part for each bank if
   only the job is spread.
   */
  function OccupiedBy(c: Config, j: Job, a: Access): nat
    requires c.Ok()
  {
    if j.access.coherence != AUTO || j.coherence == NONE then 0
    else if a.policy == BALANCED then j.access.footprint
    else if j.access.policy == BALANCED then (if a.node < c.banks then j.access.footprint / c.banks else 0)
    else if j.access.node == a.node then j.access.footprint
    else 0
  }

  function Occupied(c: Config, js: seq<Job>, a: Access): nat
    requires c.Ok()
  {
    if |js| == 0 then 0 else Occupied(c, js[..|js| - 1], a) + OccupiedBy(c, js[|js| - 1], a)
  }

  /** The footprint an access would bring its memory to, without wrap-around: the sum it is judged by. */
  function Judged(c: Config, js: seq<Job>, a: Access): nat
    requires c.Ok()
  {
    Occupied(c, js, a) + a.footprint
  }

  /** It is what the counters of the status stand for. */
  lemma {:induction false} OccupiedIsTotal(c: Config, js: seq<Job>, a: Access)
    requires c.Ok()
    ensures Occupied(c, js, a) ==
            if a.policy == BALANCED then Total(FOOTPRINT, js) else Total(SharesOf(c, a.node), js)
  {
    if |js| != 0 {
      OccupiedIsTotal(c, js[..|js| - 1], a);
    }
  }

  // ----- what an access is given

  /** The jobs that asked for a choice. */
  function Automatic(js: seq<Job>): set<nat> {
    set i: nat | i < |js| && js[i].access.coherence == AUTO
  }

  function Automatics(js: seq<Job>): nat {
    |Automatic(js)|
  }

  lemma AutomaticSnoc(js: seq<Job>, j: Job)
    ensures Automatic(js + [j]) == if j.access.coherence == AUTO then Automatic(js) + {|js|} else Automatic(js)
    ensures |js| !in Automatic(js)
  {
  }

  lemma {:induction false} AutomaticsIsTotal(js: seq<Job>)
    ensures Automatics(js) == Total(AUTOMATIC, js)
  {
    if |js| == 0 {
      assert Automatic(js) == {};
    } else {
      hide Automatic;
      var n := |js| - 1;
      AutomaticsIsTotal(js[..n]);
      AutomaticSnoc(js[..n], js[n]);
      assert js == js[..n] + [js[n]];
    }
  }

  ghost predicate SomeFullyCoherent(js: seq<Job>) {
    exists j :: j in js && j.coherence == FULL
  }

  lemma {:induction false} FullIsCounted(js: seq<Job>)
    ensures Total(FULLY_COHERENT, js) >= 1 <==> SomeFullyCoherent(js)
  {
    if |js| != 0 {
      var n := |js| - 1;
      FullIsCounted(js[..n]);
      assert forall j :: j in js <==> j in js[..n] || j == js[n];
    }
  }

  /**
   What an access is given beside the running jobs.  Full coherence, for those that ask for it and for small
   automatic ones, as long as no other job has it; the last-level cache for a big automatic one if it is the fifth
   at most and the memory it uses, counted in 32 bits, is not overcommitted; what it asked for otherwise.
   */
  ghost predicate IsGranted(c: Config, js: seq<Job>, a: Access, got: Coherence)
    requires c.Ok()
  {
    && (a.coherence == FULL || (a.coherence == AUTO && a.footprint < c.l2) ==>
          got == if SomeFullyCoherent(js) then LLC else FULL)
    && (a.coherence == AUTO && a.footprint >= c.l2 ==>
          got == if (Automatics(js) + 1) % WORD <= 5
                    && Judged(c, js, a) % WORD <= (if a.policy == BALANCED then c.llc else c.bank)
                 then LLC else NONE)
    && (a.coherence != FULL && a.coherence != AUTO ==> got == a.coherence)
  }

  /** The choice made from the counters is the one made from the jobs. */
  lemma ChoiceIsGranted(c: Config, st: Status, js: seq<Job>, a: Access)
    requires c.Ok() && Accounted(c, st, js)
    ensures IsGranted(c, js, a, Configure(c, st, a).1)
  {
    hide Total, SomeFullyCoherent, Automatics, Occupied;
    AutomaticsIsTotal(js);
    FullIsCounted(js);
    OccupiedIsTotal(c, js, a);
    WrapAdd(Total(AUTOMATIC, js), 1);
    WrapAdd(Total(FOOTPRINT, js), a.footprint);
    WrapAdd(Total(SharesOf(c, a.node), js), a.footprint);
  }

  /** A share is the whole footprint on one node, or a bank's part of it with less than a byte per bank left over. */
  lemma SharesAddUp(c: Config, a: Access)
    requires c.Ok()
    ensures a.policy != BALANCED ==> Share(c, a, a.node) == a.footprint && Share(c, a, 1 - a.node) == 0
    ensures a.policy == BALANCED ==>
              && 0 <= a.footprint - (Share(c, a, 0) + Share(c, a, 1)) < c.banks
              && (c.banks == 1 ==> Share(c, a, 1) == 0) && (c.banks == 2 ==> Share(c, a, 0) == Share(c, a, 1))
  {
  }

  /** The access passes the guard with a sum beyond the threshold that has wrapped to a value within it. */
  ghost predicate SlipsThrough(c: Config, js: seq<Job>, a: Access)
    requires c.Ok()
  {
    && a.coherence == AUTO && a.footprint >= c.l2 && Total(AUTOMATIC, js) < 5
    && Wrap(Judged(c, js, a)) <= Threshold(c, a) < Judged(c, js, a)
  }

  /** The footprint of the big jobs that share the access's part of the last-level cache. */
  function BigBeside(c: Config, js: seq<Job>, a: Access): nat {
    if a.policy == BALANCED then Total(BigBalanced(c), js) else Total(BigOnNode(c, a.node), js)
  }

  /** The access slips through, and does not fit beside the big jobs that are there. */
  ghost predicate Overfills(c: Config, js: seq<Job>, a: Access)
    requires c.Ok()
  {
    SlipsThrough(c, js, a) && BigBeside(c, js, a) + a.footprint > Threshold(c, a)
  }

  /** The big jobs are among those the status counts. */
  lemma BigIsCounted(c: Config, js: seq<Job>)
    requires c.Ok()
    ensures forall i: ddr :: Total(BigOnNode(c, i), js) <= Total(SharesOf(c, i), js) <= Total(FOOTPRINT, js)
    ensures Total(BigBalanced(c), js) <= Total(FOOTPRINT, js)
    ensures Total(BigOnes(c), js) <= Total(AUTOMATIC, js) <= |js|
  {
    forall i: ddr
      ensures Total(BigOnNode(c, i), js) <= Total(SharesOf(c, i), js) <= Total(FOOTPRINT, js)
    {
      TotalMonotone(BigOnNode(c, i), SharesOf(c, i), js);
      TotalMonotone(SharesOf(c, i), FOOTPRINT, js);
    }
    TotalMonotone(BigBalanced(c), FOOTPRINT, js);
    TotalMonotone(BigOnes(c), AUTOMATIC, js);
    AtMostAll(js);
  }

  lemma {:induction false} AtMostAll(js: seq<Job>)
    ensures Total(AUTOMATIC, js) <= |js|
  {
    if |js| != 0 { AtMostAll(js[..|js| - 1]); }
  }

  /** Admission exceeds the capacity exactly when the access slips through the guard and does not fit. */
  lemma ConfigureKeepsCapacity(c: Config, st: Status, js: seq<Job>, a: Access)
    requires c.Ok() && Accounted(c, st, js) && WithinCapacity(c, js) && |js| + 1 < WORD
    ensures WithinCapacity(c, js + [Job(a, Configure(c, st, a).1)]) <==> !Overfills(c, js, a)
  {
    hide Total, Wrap, Occupied;
    var j := Job(a, Configure(c, st, a).1);
    TotalSnoc(BigOnNode(c, 0), js, j);
    TotalSnoc(BigOnNode(c, 1), js, j);
    TotalSnoc(BigBalanced(c), js, j);
    TotalSnoc(BigOnes(c), js, j);
    BigIsCounted(c, js);
    OccupiedIsTotal(c, js, a);
    SmallWrap(Total(AUTOMATIC, js));
    SmallWrap(st.cnt + 1);
    WrapAdd(Total(FOOTPRINT, js), a.footprint);
    WrapAdd(Total(SharesOf(c, a.node), js), a.footprint);
  }

  lemma ReleaseKeepsCapacity(c: Config, js: seq<Job>, k: nat)
    requires k < |js| && WithinCapacity(c, js)
    ensures WithinCapacity(c, Without(js, k))
  {
    hide Total;
    TotalWithout(BigOnNode(c, 0), js, k);
    TotalWithout(BigOnNode(c, 1), js, k);
    TotalWithout(BigBalanced(c), js, k);
    TotalWithout(BigOnes(c), js, k);
  }

  /**
   An access too big for the private cache is given the last-level cache although it does not fit exactly when
   fewer than five accelerators are active and the sum it is judged by exceeds the threshold but not once it has
   wrapped; given the cache when it does fit, it leaves the jobs within capacity.
   */
  lemma AdmittedBeyondThreshold(c: Config, st: Status, js: seq<Job>, a: Access)
    requires c.Ok() && Accounted(c, st, js) && |js| + 1 < WORD && a.coherence == AUTO && a.footprint >= c.l2
    ensures var j, sum := Job(a, Configure(c, st, a).1), Judged(c, js, a);
            && (j.coherence == LLC && sum > Threshold(c, a) <==> SlipsThrough(c, js, a))
            && (sum <= Threshold(c, a) && WithinCapacity(c, js) ==> WithinCapacity(c, js + [j]))
  {
    hide Total, Wrap, WithinCapacity, Occupied;
    var sum := Judged(c, js, a);
    AtMostAll(js);
    OccupiedIsTotal(c, js, a);
    SmallWrap(Total(AUTOMATIC, js));
    SmallWrap(st.cnt + 1);
    WrapAdd(Total(FOOTPRINT, js), a.footprint);
    WrapAdd(Total(SharesOf(c, a.node), js), a.footprint);
    assert ProspectiveFootprint(st, a) == Wrap(sum);
    SmallWrap(sum);
    if sum <= Threshold(c, a) && WithinCapacity(c, js) {
      ConfigureKeepsCapacity(c, st, js, a);
    }
  }

  /** A small job and one just below 4 GiB: the sum wraps and the big one is admitted to a 256 KiB cache. */
  lemma WrapBreaksCapacity()
    ensures var c := Config(32768, 262144, 262144, 1);
            var small, huge := Access(AUTO, 100, PREFERRED, 0), Access(AUTO, 0xffff_ffce, PREFERRED, 0);
            var (st, first) := Configure(c, INITIAL_STATUS, small);
            var second := Configure(c, st, huge).1;
            && Accounted(c, st, [Job(small, first)]) && second == LLC
            && !WithinCapacity(c, [Job(small, first), Job(huge, second)])
  {
    var c := Config(32768, 262144, 262144, 1);
    var small, huge := Access(AUTO, 100, PREFERRED, 0), Access(AUTO, 0xffff_ffce, PREFERRED, 0);
    var (st, first) := Configure(c, INITIAL_STATUS, small);
    assert Accounted(c, INITIAL_STATUS, []);
    ConfigureKeepsAccounting(c, INITIAL_STATUS, [], small);
    assert [] + [Job(small, first)] == [Job(small, first)];
    TotalSnoc(BigOnNode(c, 0), [Job(small, first)], Job(huge, LLC));
    assert [Job(small, first)] + [Job(huge, LLC)] == [Job(small, first), Job(huge, LLC)];
  }

  // ----- all interleavings

  /** An accelerator starts, or the k-th running one ends. */
  datatype Event = Begin(access: Access) | End(k: nat)

  datatype State = State(status: Status, jobs: seq<Job>)

  function Step(c: Config, s: State, e: Event): (t: State)
    requires c.Ok() && s.status.Shape()
    ensures t.status.Shape()
  {
    match e
    case Begin(a) =>
      var (st, choice) := Configure(c, s.status, a);
      State(st, s.jobs + [Job(a, choice)])
    case End(k) =>
      if k < |s.jobs| then State(Release(c, s.status, s.jobs[k]), Without(s.jobs, k)) else s
  }

  function Run(c: Config, es: seq<Event>): (s: State)
    requires c.Ok()
    ensures s.status.Shape()
  {
    if |es| == 0 then State(INITIAL_STATUS, []) else Step(c, Run(c, es[..|es| - 1]), es[|es| - 1])
  }

  /** The number of accelerators never wraps along the run. */
  ghost predicate FewRun(c: Config, es: seq<Event>)
    requires c.Ok()
  {
    forall i | 0 <= i < |es| :: |Run(c, es[..i]).jobs| + 1 < WORD
  }

  ghost predicate OverfillsAt(c: Config, es: seq<Event>, i: nat)
    requires c.Ok() && i < |es|
  {
    es[i].Begin? && Overfills(c, Run(c, es[..i]).jobs, es[i].access)
  }

  /** Accounting over every interleaving of starts and ends. */
  lemma {:induction false} RunIsAccounted(c: Config, es: seq<Event>)
    requires c.Ok()
    ensures Accounted(c, Run(c, es).status, Run(c, es).jobs)
  {
    hide Configure, Release, Accounted;
    if |es| == 0 {
      StartIsAccounted(c);
    } else {
      var s, e := Run(c, es[..|es| - 1]), es[|es| - 1];
      RunIsAccounted(c, es[..|es| - 1]);
      match e
      case Begin(a) => ConfigureKeepsAccounting(c, s.status, s.jobs, a);
      case End(k) => if k < |s.jobs| { ReleaseKeepsAccounting(c, s.status, s.jobs, k); }
    }
  }

  lemma StartIsAccounted(c: Config)
    requires c.Ok()
    ensures Accounted(c, INITIAL_STATUS, []) && WithinCapacity(c, [])
  {
  }

  /** One event of the run: it keeps the capacity exactly when it is no start that overfills the cache. */
  lemma StepKeepsCapacity(c: Config, es: seq<Event>, i: nat)
    requires c.Ok() && i < |es| && FewRun(c, es) && WithinCapacity(c, Run(c, es[..i]).jobs)
    ensures WithinCapacity(c, Run(c, es[..i + 1]).jobs) <==> !OverfillsAt(c, es, i)
  {
    hide Configure, Release, Accounted, WithinCapacity, Overfills;
    var s := Run(c, es[..i]);
    assert es[..i + 1][..i] == es[..i];
    RunIsAccounted(c, es[..i]);
    match es[i]
    case Begin(a) => ConfigureKeepsCapacity(c, s.status, s.jobs, a);
    case End(k) => if k < |s.jobs| { ReleaseKeepsCapacity(c, s.jobs, k); }
  }

  lemma {:induction false} PrefixIsWithinCapacity(c: Config, es: seq<Event>, n: nat)
    requires c.Ok() && n <= |es| && FewRun(c, es) && forall i | 0 <= i < |es| :: !OverfillsAt(c, es, i)
    ensures WithinCapacity(c, Run(c, es[..n]).jobs)
  {
    hide Step, WithinCapacity, OverfillsAt, FewRun;
    if n == 0 {
      StartIsAccounted(c);
    } else {
      PrefixIsWithinCapacity(c, es, n - 1);
      StepKeepsCapacity(c, es, n - 1);
    }
  }

  /** Capacity over every interleaving: it is never exceeded exactly when no start along the run overfills the cache. */
  lemma RunIsWithinCapacity(c: Config, es: seq<Event>)
    requires c.Ok() && FewRun(c, es)
    ensures (forall n | 0 <= n <= |es| :: WithinCapacity(c, Run(c, es[..n]).jobs))
       <==> (forall i | 0 <= i < |es| :: !OverfillsAt(c, es, i))
  {
    hide Run, WithinCapacity, OverfillsAt, FewRun;
    if forall i | 0 <= i < |es| :: !OverfillsAt(c, es, i) {
      forall n | 0 <= n <= |es|
        ensures WithinCapacity(c, Run(c, es[..n]).jobs)
      {
        PrefixIsWithinCapacity(c, es, n);
      }
    } else {
      var i :| 0 <= i < |es| && OverfillsAt(c, es, i);
      if WithinCapacity(c, Run(c, es[..i]).jobs) {
        StepKeepsCapacity(c, es, i);
        assert !WithinCapacity(c, Run(c, es[..i + 1]).jobs);
      }
    }
  }
}
