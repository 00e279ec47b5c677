/** The coherence runtime of the driver: shared status, devices, and the two locked sections of an access. */
module EspRuntime {
  import opened Bits
  import opened CoherencePolicy
  import opened MemoryNodes

  lemma MovedByNothing(x: word, up: bool)
    ensures Moved(x, 0, up) == x
  {
  }

  class EspStatus {
    var activeAccCnt: word
    var activeAccCntFull: word
    var activeFootprint: word
    const activeFootprintSplit: array<word>

    ghost function View(): Status
      reads this, activeFootprintSplit
    {
      Status(activeAccCnt, activeAccCntFull, activeFootprint, activeFootprintSplit[..])
    }

    constructor ()
      ensures View() == INITIAL_STATUS
      ensures fresh(activeFootprintSplit)
    {
      activeAccCnt, activeAccCntFull, activeFootprint := 0, 0, 0;
      activeFootprintSplit := new word[DDR_NODES](_ => 0);
      new;
      assert activeFootprintSplit[..] == [0, 0];
    }
  }

  class EspDevice {
    var locked: bool
    var coherence: Coherence
    var footprint: word
    var allocPolicy: AllocPolicy
    var ddrNode: ddr

    /** The fields the driver copied from the request, with the coherence as it stands now. */
    ghost predicate Holds(j: Job)
      reads this
    {
      && coherence == j.coherence && footprint == j.access.footprint
      && allocPolicy == j.access.policy && ddrNode == j.access.node
    }

    constructor ()
      ensures !locked
    {
      locked, coherence, footprint, allocPolicy, ddrNode := false, NONE, 0, PREFERRED, 0;
    }
  }

  class Runtime {
    const config: Config
    const status: EspStatus

    /** The devices inside an access, in order of their start, with what each runs as. */
    ghost var running: seq<EspDevice>
    ghost var jobs: seq<Job>

    /** Whether some start may have overfilled the cache. */
    ghost var mayOverfill: bool

    ghost predicate Frames()
      reads this, status, status.activeFootprintSplit, running
    {
      && config.Ok() && status.activeFootprintSplit.Length == DDR_NODES
      && |running| == |jobs|
      && (forall i, j :: 0 <= i < j < |running| ==> running[i] != running[j])
      && (forall i :: 0 <= i < |running| ==> running[i].locked && running[i].Holds(jobs[i]))
    }

    ghost predicate Valid()
      reads this, status, status.activeFootprintSplit, running
    {
      && Frames()
      && Accounted(config, status.View(), jobs)
      && (mayOverfill || WithinCapacity(config, jobs))
    }

    constructor (config: Config)
      requires config.Ok()
      ensures Valid() && running == [] && !mayOverfill && this.config == config
      ensures fresh(status) && fresh(status.activeFootprintSplit)
    {
      this.config := config;
      status := new EspStatus();
      running, jobs, mayOverfill := [], [], false;
      new;
      StartIsAccounted(config);
    }

    /** The request as it is stored in the device. */
    ghost function Stored(esp: EspDevice, coherence: Coherence): Access
      reads esp
    {
      Access(coherence, esp.footprint, esp.allocPolicy, esp.ddrNode)
    }

    /** Adds a device's footprint to the sums, or takes it away. */
    method MoveFootprints(esp: EspDevice, up: bool)
      requires config.Ok() && status.activeFootprintSplit.Length == DDR_NODES
      modifies status`activeFootprint, status.activeFootprintSplit
      ensures status.activeFootprint == Moved(old(status.activeFootprint), esp.footprint, up)
      ensures status.activeFootprintSplit[..]
           == MoveShares(config, old(status.activeFootprintSplit[..]), Stored(esp, AUTO), up)
    {
      hide Wrap;
      var split := status.activeFootprintSplit;
      ghost var was := split[..];
      status.activeFootprint := Moved(status.activeFootprint, esp.footprint, up);
      if esp.allocPolicy != BALANCED {
        MovedByNothing(was[0], up);
        MovedByNothing(was[1], up);
        split[esp.ddrNode] := Moved(split[esp.ddrNode], esp.footprint, up);
      } else {
        var share := esp.footprint / config.banks;
        for i := 0 to config.banks
          modifies split
          invariant split[0] == if 0 < i then Moved(was[0], share, up) else was[0]
          invariant split[1] == if 1 < i then Moved(was[1], share, up) else was[1]
        {
          split[i] := Moved(split[i], share, up);
        }
        MovedByNothing(was[1], up);
      }
    }

    /** esp_runtime_config: chooses the coherence of a request and counts it. */
    method RuntimeConfig(esp: EspDevice)
      requires config.Ok() && status.activeFootprintSplit.Length == DDR_NODES
      requires esp.coherence == AUTO || esp.coherence == FULL
      modifies status, status.activeFootprintSplit, esp`coherence
      ensures (status.View(), esp.coherence)
           == Configure(config, old(status.View()), Stored(esp, old(esp.coherence)))
    {
      hide Wrap, MoveShares;
      if esp.coherence == FULL {
        if status.activeAccCntFull >= 1 {
          esp.coherence := LLC;
        } else {
          status.activeAccCntFull := Wrap(status.activeAccCntFull + 1);
        }
        return;
      }
      status.activeAccCnt := Wrap(status.activeAccCnt + 1);
      var footprint, threshold: word;
      if esp.allocPolicy == PREFERRED || esp.allocPolicy == LEAST_LOADED {
        footprint := Wrap(status.activeFootprintSplit[esp.ddrNode] + esp.footprint);
        threshold := config.bank;
      } else {
        footprint := Wrap(status.activeFootprint + esp.footprint);
        threshold := config.llc;
      }
      if esp.footprint < config.l2 {
        if status.activeAccCntFull < 1 {
          esp.coherence := FULL;
          status.activeAccCntFull := Wrap(status.activeAccCntFull + 1);
        } else {
          esp.coherence := LLC;
        }
      } else if status.activeAccCnt >= 6 {
        esp.coherence := NONE;
      } else if footprint > threshold {
        esp.coherence := NONE;
      } else {
        esp.coherence := LLC;
      }
      if esp.coherence != NONE {
        MoveFootprints(esp, true);
      }
    }

    /** esp_update_status: takes an ending access out of the counters. */
    method UpdateStatus(esp: EspDevice, isAuto: bool)
      requires config.Ok() && status.activeFootprintSplit.Length == DDR_NODES
      modifies status, status.activeFootprintSplit
      ensures status.View() == Release(config, old(status.View()),
                                       Job(Stored(esp, if isAuto then AUTO else FULL), esp.coherence))
    {
      hide Wrap, MoveShares;
      if esp.coherence == FULL {
        status.activeAccCntFull := Wrap(status.activeAccCntFull - 1);
      }
      if !isAuto { return; }
      status.activeAccCnt := Wrap(status.activeAccCnt - 1);
      if esp.coherence != NONE {
        MoveFootprints(esp, false);
      }
    }

    /** Stores a request in its device and, if it asks for automatic or full coherence, configures it. */
    method Store(esp: EspDevice, access: Access)
      requires config.Ok() && status.activeFootprintSplit.Length == DDR_NODES
      modifies status, status.activeFootprintSplit, esp
      ensures esp.locked && esp.Holds(Job(access, esp.coherence))
      ensures (status.View(), esp.coherence) == Configure(config, old(status.View()), access)
    {
      esp.locked := true;
      esp.coherence := access.coherence;
      esp.footprint := access.footprint;
      esp.allocPolicy := access.policy;
      esp.ddrNode := access.node;
      if access.coherence == AUTO || access.coherence == FULL {
        RuntimeConfig(esp);
      }
    }

    /** The part of an access up to the transfer. */
    method Begin(esp: EspDevice, access: Access)
      requires Valid() && !esp.locked
      modifies this`running, this`jobs, this`mayOverfill, status, status.activeFootprintSplit, esp
      ensures Valid() && esp.locked
      ensures running == old(running) + [esp] && jobs == old(jobs) + [Job(access, esp.coherence)]
      ensures (status.View(), esp.coherence) == Configure(config, old(status.View()), access)
      ensures IsGranted(config, old(jobs), access, esp.coherence)
      ensures mayOverfill == (old(mayOverfill) || Overfills(config, old(jobs), access) || |old(jobs)| + 1 >= WORD)
    {
      hide Configure, Accounted, WithinCapacity, Overfills, IsGranted;
      ghost var st := status.View();
      assert esp !in running;
      ConfigureKeepsAccounting(config, st, jobs, access);
      ChoiceIsGranted(config, st, jobs, access);
      if !mayOverfill && |jobs| + 1 < WORD {
        ConfigureKeepsCapacity(config, st, jobs, access);
      }
      Store(esp, access);
      mayOverfill := mayOverfill || Overfills(config, jobs, access) || |jobs| + 1 >= WORD;
      running, jobs := running + [esp], jobs + [Job(access, esp.coherence)];
    }

    /** Takes a running request out of the status if it went in. */
    method Withdraw(esp: EspDevice, access: Access)
      requires config.Ok() && status.activeFootprintSplit.Length == DDR_NODES
      requires esp.Holds(Job(access, esp.coherence))
      modifies status, status.activeFootprintSplit
      ensures status.View() == Release(config, old(status.View()), Job(access, esp.coherence))
    {
      if access.coherence == AUTO || access.coherence == FULL {
        UpdateStatus(esp, access.coherence == AUTO);
      }
    }

    /** The part of an access after the transfer, for the k-th running device. */
    method End(esp: EspDevice, access: Access, ghost k: nat)
      requires Valid() && k < |running| && running[k] == esp && jobs[k].access == access
      modifies this`running, this`jobs, status, status.activeFootprintSplit, esp`locked
      ensures Valid() && !esp.locked
      ensures running == old(running[..k] + running[k + 1..]) && jobs == Without(old(jobs), k)
      ensures status.View() == Release(config, old(status.View()), old(jobs[k]))
    {
      hide Release, Accounted, WithinCapacity;
      ghost var st := status.View();
      ReleaseKeepsAccounting(config, st, jobs, k);
      if !mayOverfill {
        ReleaseKeepsCapacity(config, jobs, k);
      }
      Withdraw(esp, access);
      esp.locked := false;
      running, jobs := running[..k] + running[k + 1..], Without(jobs, k);
    }
  }
}
