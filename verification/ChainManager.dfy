/**
The chain manager object. Its lock is modelled where it matters: a goroutine that holds
the read lock and asks for the write lock waits for itself.
 */
module ChainManager {
  import opened Basics
  import opened ChainSync

  /** How a synchronization ends; `Blocked` means it never returns. */
  datatype SyncResult = Done | FetchFailed | Blocked

  class Chains {
    const pushChainID: string
    var chains: map<string, Client>
    var chainConfigs: map<string, ChainConfig>
    var running: set<Client>
    var nextClient: nat
    /** Read locks the calling goroutine holds. */
    var readLocks: nat

    constructor (push: string)
      ensures pushChainID == push && Value() == Fresh && readLocks == 0
      ensures Inv(Value(), pushChainID)
    {
      pushChainID := push;
      chains, chainConfigs, running, nextClient, readLocks := map[], map[], {}, 0, 0;
    }

    function Value(): State
      reads this
    {
      State(chains, chainConfigs, running, nextClient)
    }

    /** Starts a client and stores it with its configuration. */
    method Launch(cfg: ChainConfig)
      modifies this
      ensures Value() == Store(old(Value()), cfg) && readLocks == old(readLocks)
    {
      var client := Client(nextClient, cfg);
      chains := chains[cfg.chain := client];
      chainConfigs := chainConfigs[cfg.chain := cfg];
      running := running + {client};
      nextClient := nextClient + 1;
    }

    method AddChain(cfg: ChainConfig, ok: bool)
      modifies this
      ensures Value() == ChainSync.AddChain(old(Value()), cfg, ok) && readLocks == old(readLocks)
    {
      if cfg.chain == "" {
        return;
      }
      match cfg.vmType {
        case EVM => if !ok { return; }
        case SVM => if !ok { return; }
        case OtherVM(_) => return;
      }
      Launch(cfg);
    }

    /** Needs the write lock, so it waits for ever when the caller holds a read lock. */
    method RemoveChain(chainID: string) returns (blocked: bool)
      modifies this
      ensures blocked <==> readLocks > 0
      ensures readLocks == old(readLocks)
      ensures Value() == if blocked then old(Value()) else ChainSync.RemoveChain(old(Value()), chainID)
    {
      if readLocks > 0 {
        return true;
      }
      if chainID !in chains {
        return false;
      }
      running := running - {chains[chainID]};
      chains := chains - {chainID};
      chainConfigs := chainConfigs - {chainID};
      return false;
    }

    method EnsurePushChain(ok: bool) returns (failed: bool)
      modifies this
      ensures Value() == EnsurePush(old(Value()), pushChainID, ok) && readLocks == old(readLocks)
      ensures failed <==> pushChainID == "" || (!ok && pushChainID !in old(chains))
    {
      if pushChainID == "" {
        return true;
      }
      if pushChainID in chains {
        return false;
      }
      if !ok {
        return true;
      }
      Launch(PushConfig(pushChainID));
      return false;
    }

    method StopAll()
      modifies this
      ensures Value() == ChainSync.StopAll(old(Value())) && readLocks == old(readLocks)
    {
      running := running - chains.Values;
      chains := map[];
      chainConfigs := map[];
    }

    /** One entry of the fetched list. */
    method ProcessEntry(cfg: ChainConfig, ok: bool)
      requires readLocks == 0
      modifies this
      ensures Value() == Process(old(Value()), pushChainID, cfg, ok) && readLocks == 0
    {
      if cfg.chain == "" || cfg.chain == pushChainID {
        return;
      }
      match DetermineAction(Value(), cfg) {
        case Skip =>
        case Add =>
          AddChain(cfg, ok);
        case Update =>
          var _ := RemoveChain(cfg.chain);
          AddChain(cfg, ok);
        case Remove =>
          var _ := RemoveChain(cfg.chain);
      }
    }

    /** The loop over the list, which also collects the ids it has seen. */
    method ProcessList(cfgs: seq<ChainConfig>, oks: seq<bool>) returns (seenChains: set<string>)
      requires readLocks == 0 && |cfgs| == |oks|
      modifies this
      ensures Value() == ProcessAll(old(Value()), pushChainID, cfgs, oks) && readLocks == 0
      ensures forall id :: id in seenChains <==> id != "" && (id == pushChainID || Listed(cfgs, id))
    {
      hide Process, Listed;
      seenChains := {};
      if pushChainID != "" {
        seenChains := seenChains + {pushChainID};
      }
      assert cfgs[..0] == [] && oks[..0] == [];
      ListedEmpty();
      for k := 0 to |cfgs|
        invariant readLocks == 0
        invariant Value() == ProcessAll(old(Value()), pushChainID, cfgs[..k], oks[..k])
        invariant forall id :: id in seenChains <==> id != "" && (id == pushChainID || Listed(cfgs[..k], id))
      {
        assert cfgs[..k + 1][..k] == cfgs[..k] && oks[..k + 1][..k] == oks[..k];
        ListedSnoc(cfgs, k);
        ProcessEntry(cfgs[k], oks[k]);
        if cfgs[k].chain != "" && cfgs[k].chain != pushChainID {
          seenChains := seenChains + {cfgs[k].chain};
        }
      }
      assert cfgs[..|cfgs|] == cfgs && oks[..|oks|] == oks;
    }

    /** The stale loop: it holds the read lock while it removes, so the first stale chain blocks it. */
    method RemoveStale(seenChains: set<string>) returns (blocked: bool)
      requires readLocks == 0
      modifies this
      ensures blocked <==> exists id :: id in chains && id != pushChainID && id !in seenChains
      ensures Value() == old(Value()) && readLocks == if blocked then 1 else 0
    {
      readLocks := readLocks + 1;
      var rest := chains.Keys;
      while rest != {}
        invariant readLocks == 1 && Value() == old(Value())
        invariant rest <= chains.Keys
        invariant forall id :: id in chains && id !in rest ==> id == pushChainID || id in seenChains
        decreases |rest|
      {
        var chainID :| chainID in rest;
        if chainID != pushChainID && chainID !in seenChains {
          var waiting := RemoveChain(chainID);
          if waiting {
            return true;
          }
        }
        rest := rest - {chainID};
      }
      readLocks := readLocks - 1;
      return false;
    }

    /**
    A synchronization that could fetch its list completes exactly when the list still names every
    managed chain. Otherwise the stale loop asks for the write lock under its own read lock. A
    failed fetch returns and changes nothing.
     */
    method FetchAndUpdate(fetched: Option<seq<ChainConfig>>, oks: seq<bool>) returns (r: SyncResult)
      requires readLocks == 0 && Inv(Value(), pushChainID)
      requires fetched.Some? ==> |fetched.value| == |oks|
      modifies this
      ensures Inv(Value(), pushChainID)
      ensures Value() == if fetched.None? then old(Value()) else ProcessAll(old(Value()), pushChainID, fetched.value, oks)
      ensures r.FetchFailed? <==> fetched.None?
      ensures r.Done? <==> fetched.Some? && old(Covered(Value(), pushChainID, fetched.value))
      ensures readLocks == if r.Blocked? then 1 else 0
      ensures fetched.Some? ==>
                Manager(Value(), r.Blocked?)
                == Step(Manager(old(Value()), false), pushChainID, Sync(fetched.value, AsFunction(oks)))
    {
      if fetched.None? {
        return FetchFailed;
      }
      var cfgs := fetched.value;
      ghost var before := Value();
      var seenChains := ProcessList(cfgs, oks);
      SyncKeeps(before, pushChainID, cfgs, oks);
      NothingStaleIffCovered(before, pushChainID, cfgs, oks);
      hide ProcessAll, Covered, Listed, Inv, Step, AsFunction;
      ghost var stale := Stale(Value(), pushChainID, cfgs);
      assert forall id :: id in stale <==> id in chains && id != pushChainID && id !in seenChains;
      var blocked := RemoveStale(seenChains);
      assert blocked <==> stale != {};
      SyncStep(before, pushChainID, cfgs, oks);
      return if blocked then Blocked else Done;
    }
  }

  /** The success of each creation by position in the list. */
  function AsFunction(oks: seq<bool>): nat -> bool
  {
    (k: nat) => k < |oks| && oks[k]
  }

  /** The sync event of a run is the list loop, blocked when a stale chain is left. */
  lemma SyncStep(st: State, push: string, cfgs: seq<ChainConfig>, oks: seq<bool>)
    requires |cfgs| == |oks|
    ensures var st' := ProcessAll(st, push, cfgs, oks);
            Step(Manager(st, false), push, Sync(cfgs, AsFunction(oks))) == Manager(st', Stale(st', push, cfgs) != {})
  {
    assert Outcomes(AsFunction(oks), |cfgs|) == oks;
  }

  lemma ListedEmpty()
    ensures forall id :: !Listed([], id)
  {
  }

  lemma ListedSnoc(cfgs: seq<ChainConfig>, k: nat)
    requires k < |cfgs|
    ensures forall id :: Listed(cfgs[..k + 1], id) <==> Listed(cfgs[..k], id) || cfgs[k].chain == id
  {
    forall id
      ensures Listed(cfgs[..k + 1], id) <==> Listed(cfgs[..k], id) || cfgs[k].chain == id
    {
      if Listed(cfgs[..k], id) {
        var i :| 0 <= i < k && cfgs[..k][i].chain == id;
        assert cfgs[..k + 1][i].chain == id;
      }
      if Listed(cfgs[..k + 1], id) {
        var i :| 0 <= i < k + 1 && cfgs[..k + 1][i].chain == id;
        assert i < k ==> cfgs[..k][i].chain == id;
      }
      assert cfgs[..k + 1][k] == cfgs[k];
    }
  }
}
