/**
One synchronization of the chain manager, as a function on its two maps, and what
any sequence of synchronizations keeps and reaches.
 */
module ChainSync {
  import opened Basics

  datatype VmType = EVM | SVM | OtherVM(code: nat)

  datatype ContractMethod = ContractMethod(name: string, identifier: string, eventIdentifier: string, confirmationType: int)

  datatype BlockConfirmation = BlockConfirmation(fastInbound: nat, standardInbound: nat)

  datatype ChainEnabled = ChainEnabled(inbound: bool, outbound: bool)

  datatype ChainConfig = ChainConfig(
    chain: string,
    vmType: VmType,
    publicRpcUrl: string,
    gatewayAddress: string,
    blockConfirmation: Option<BlockConfirmation>,
    gatewayMethods: seq<ContractMethod>,
    enabled: Option<ChainEnabled>,
    gasOracleFetchInterval: int,
    vaultMethods: seq<ContractMethod>,
    tssSigningDeadline: Option<int>)

  // ---------- Comparing configurations ----------

  predicate MethodsEqual(a: seq<ContractMethod>, b: seq<ContractMethod>)
  {
    |a| == |b| &&
    forall i :: 0 <= i < |a| ==>
      && a[i].name == b[i].name
      && a[i].identifier == b[i].identifier
      && a[i].eventIdentifier == b[i].eventIdentifier
      && a[i].confirmationType == b[i].confirmationType
  }

  predicate BlockConfirmationEqual(a: Option<BlockConfirmation>, b: Option<BlockConfirmation>)
  {
    if a.None? && b.None? then true
    else if a.None? || b.None? then false
    else a.value.fastInbound == b.value.fastInbound && a.value.standardInbound == b.value.standardInbound
  }

  predicate ChainEnabledEqual(a: Option<ChainEnabled>, b: Option<ChainEnabled>)
  {
    if a.None? && b.None? then true
    else if a.None? || b.None? then false
    else a.value.inbound == b.value.inbound && a.value.outbound == b.value.outbound
  }

  predicate ConfigsEqual(a: ChainConfig, b: ChainConfig)
  {
    && a.chain == b.chain && a.vmType == b.vmType && a.gatewayAddress == b.gatewayAddress
    && MethodsEqual(a.gatewayMethods, b.gatewayMethods)
    && MethodsEqual(a.vaultMethods, b.vaultMethods)
    && BlockConfirmationEqual(a.blockConfirmation, b.blockConfirmation)
    && ChainEnabledEqual(a.enabled, b.enabled)
  }

  /** The fields that count: all but the RPC URL, the oracle interval and the signing deadline. */
  function Relevant(c: ChainConfig): ChainConfig
  {
    c.(publicRpcUrl := "", gasOracleFetchInterval := 0, tssSigningDeadline := None)
  }

  /** Comparison is equality of the relevant fields, hence an equivalence. */
  lemma ConfigsEqualIsRelevantEquality(a: ChainConfig, b: ChainConfig)
    ensures ConfigsEqual(a, b) <==> Relevant(a) == Relevant(b)
    ensures ConfigsEqual(a, b) <==>
            && a.chain == b.chain && a.vmType == b.vmType && a.gatewayAddress == b.gatewayAddress
            && a.gatewayMethods == b.gatewayMethods && a.vaultMethods == b.vaultMethods
            && a.blockConfirmation == b.blockConfirmation && a.enabled == b.enabled
  {
    if ConfigsEqual(a, b) {
      assert a.gatewayMethods == b.gatewayMethods;
      assert a.vaultMethods == b.vaultMethods;
    }
  }

  // ---------- The manager's state ----------

  /** A client: its number, and the configuration it was created with and works by. */
  datatype Client = Client(number: nat, config: ChainConfig)

  /** Client per chain, configuration per chain, clients running, and the next client number. */
  datatype State = State(clients: map<string, Client>, configs: map<string, ChainConfig>, running: set<Client>, next: nat)

  datatype Action = Skip | Add | Update | Remove

  predicate Enabled(cfg: ChainConfig)
  {
    cfg.enabled.Some? && (cfg.enabled.value.inbound || cfg.enabled.value.outbound)
  }

  function DetermineAction(st: State, cfg: ChainConfig): Action
  {
    var exists_ := cfg.chain in st.clients;
    if !Enabled(cfg) then (if exists_ then Remove else Skip)
    else if !exists_ then Add
    else if cfg.chain in st.configs && !ConfigsEqual(st.configs[cfg.chain], cfg) then Update
    else Skip
  }

  /** A client can be created only for the two supported VM types, and then may still fail to open or start. */
  predicate Creates(cfg: ChainConfig, ok: bool)
  {
    ok && (cfg.vmType.EVM? || cfg.vmType.SVM?)
  }

  function Store(st: State, cfg: ChainConfig): State
  {
    var client := Client(st.next, cfg);
    State(st.clients[cfg.chain := client], st.configs[cfg.chain := cfg], st.running + {client}, st.next + 1)
  }

  function AddChain(st: State, cfg: ChainConfig, ok: bool): State
  {
    if cfg.chain == "" || !Creates(cfg, ok) then st else Store(st, cfg)
  }

  function RemoveChain(st: State, id: string): State
  {
    if id !in st.clients then st
    else State(st.clients - {id}, st.configs - {id}, st.running - {st.clients[id]}, st.next)
  }

  function Process(st: State, push: string, cfg: ChainConfig, ok: bool): State
  {
    if cfg.chain == "" || cfg.chain == push then st
    else
      match DetermineAction(st, cfg)
      case Skip => st
      case Add => AddChain(st, cfg, ok)
      case Update => AddChain(RemoveChain(st, cfg.chain), cfg, ok)
      case Remove => RemoveChain(st, cfg.chain)
  }

  /** The loop over the fetched list; `oks[i]` says whether creating a client for entry `i` would succeed. */
  function ProcessAll(st: State, push: string, cfgs: seq<ChainConfig>, oks: seq<bool>): State
    requires |cfgs| == |oks|
  {
    if cfgs == [] then st
    else
      var n := |cfgs| - 1;
      Process(ProcessAll(st, push, cfgs[..n], oks[..n]), push, cfgs[n], oks[n])
  }

  predicate Listed(cfgs: seq<ChainConfig>, id: string)
  {
    exists i :: 0 <= i < |cfgs| && cfgs[i].chain == id
  }

  /** The managed chains the fetched list no longer names. */
  function Stale(st: State, push: string, cfgs: seq<ChainConfig>): set<string>
  {
    set id | id in st.clients && id != push && !(id != "" && Listed(cfgs, id))
  }

  function PushConfig(push: string): ChainConfig
  {
    ChainConfig(push, OtherVM(0), "", "", None, [], Some(ChainEnabled(true, true)), 0, [], None)
  }

  function EnsurePush(st: State, push: string, ok: bool): State
  {
    if push == "" || push in st.clients || !ok then st else Store(st, PushConfig(push))
  }

  function StopAll(st: State): State
  {
    State(map[], map[], st.running - st.clients.Values, st.next)
  }

  // ---------- Invariant of every run ----------

  /**
  Both maps have the same keys, a running client is exactly one in the map, each client has a number of its
  own and works by the stored configuration, which is enabled unless it is the push chain's.
   */
  ghost predicate Inv(st: State, push: string)
  {
    && st.clients.Keys == st.configs.Keys
    && "" !in st.clients
    && (forall id :: id in st.configs ==> st.configs[id].chain == id)
    && (forall id :: id in st.configs && id != push ==> Enabled(st.configs[id]))
    && st.running == st.clients.Values
    && (forall a, b :: a in st.clients && b in st.clients && st.clients[a].number == st.clients[b].number ==> a == b)
    && (forall id :: id in st.clients ==> st.clients[id].number < st.next)
    && (forall id :: id in st.clients ==> st.clients[id].config == st.configs[id])
  }

  lemma StoreKeeps(st: State, push: string, cfg: ChainConfig)
    requires Inv(st, push) && cfg.chain != "" && cfg.chain !in st.clients && (cfg.chain != push ==> Enabled(cfg))
    ensures Inv(Store(st, cfg), push)
  {
    hide Enabled;
    ValuesAfterInsert(st.clients, cfg.chain, Client(st.next, cfg));
    var st' := Store(st, cfg);
    assert st'.clients.Keys == st.clients.Keys + {cfg.chain} == st'.configs.Keys;
  }

  lemma ValuesAfterInsert(m: map<string, Client>, id: string, c: Client)
    requires id !in m
    ensures m[id := c].Values == m.Values + {c}
  {
    var m' := m[id := c];
    forall x ensures x in m'.Values <==> x in m.Values + {c} {
      if x in m.Values {
        var id' :| id' in m && m[id'] == x;
        assert m'[id'] == x;
      }
      assert m'[id] == c;
    }
  }

  lemma RemoveKeeps(st: State, push: string, id: string)
    requires Inv(st, push)
    ensures Inv(RemoveChain(st, id), push)
  {
    hide Enabled;
    if id in st.clients {
      ValuesAfterRemove(st.clients, id);
    }
  }

  /** Removing a key of an injective map removes its value, and no other. */
  lemma ValuesAfterRemove(m: map<string, Client>, id: string)
    requires id in m && forall a, b :: a in m && b in m && m[a] == m[b] ==> a == b
    ensures (m - {id}).Values == m.Values - {m[id]}
  {
    var m' := m - {id};
    forall c ensures c in m'.Values <==> c in m.Values - {m[id]} {
      if c in m.Values && c != m[id] {
        var a :| a in m && m[a] == c;
        assert m'[a] == c;
      }
    }
  }

  lemma AddKeeps(st: State, push: string, cfg: ChainConfig, ok: bool)
    requires Inv(st, push) && cfg.chain !in st.clients && Enabled(cfg)
    ensures Inv(AddChain(st, cfg, ok), push)
  {
    hide Inv, Store;
    if cfg.chain != "" {
      StoreKeeps(st, push, cfg);
    }
  }

  lemma UpdateKeeps(st: State, push: string, cfg: ChainConfig, ok: bool)
    requires Inv(st, push) && Enabled(cfg)
    ensures Inv(AddChain(RemoveChain(st, cfg.chain), cfg, ok), push)
  {
    RemoveKeeps(st, push, cfg.chain);
    assert cfg.chain !in RemoveChain(st, cfg.chain).clients;
    hide Inv, RemoveChain, AddChain;
    AddKeeps(RemoveChain(st, cfg.chain), push, cfg, ok);
  }

  lemma ProcessKeeps(st: State, push: string, cfg: ChainConfig, ok: bool)
    requires Inv(st, push)
    ensures Inv(Process(st, push, cfg, ok), push)
  {
    hide Inv, ConfigsEqual, AddChain, RemoveChain;
    match DetermineAction(st, cfg)
    case Skip =>
    case Add => AddKeeps(st, push, cfg, ok);
    case Update => UpdateKeeps(st, push, cfg, ok);
    case Remove => RemoveKeeps(st, push, cfg.chain);
  }

  /** The push chain keeps its client and configuration. */
  lemma ProcessKeepsPush(st: State, push: string, cfg: ChainConfig, ok: bool)
    requires push in st.clients && push in st.configs
    ensures var st' := Process(st, push, cfg, ok);
            && push in st'.clients && st'.clients[push] == st.clients[push]
            && push in st'.configs && st'.configs[push] == st.configs[push]
  {
    hide ConfigsEqual;
  }

  /** Whatever fails, a sync keeps the invariant and the push chain's own client. */
  lemma {:induction false} SyncKeeps(st: State, push: string, cfgs: seq<ChainConfig>, oks: seq<bool>)
    requires |cfgs| == |oks| && Inv(st, push)
    ensures Inv(ProcessAll(st, push, cfgs, oks), push)
    ensures push in st.clients ==>
              && push in ProcessAll(st, push, cfgs, oks).clients && push in ProcessAll(st, push, cfgs, oks).configs
              && ProcessAll(st, push, cfgs, oks).clients[push] == st.clients[push]
              && ProcessAll(st, push, cfgs, oks).configs[push] == st.configs[push]
    decreases |cfgs|
  {
    assert push in st.clients ==> push in st.configs;
    hide Inv, Process;
    if cfgs != [] {
      var n := |cfgs| - 1;
      SyncKeeps(st, push, cfgs[..n], oks[..n]);
      var st' := ProcessAll(st, push, cfgs[..n], oks[..n]);
      ProcessKeeps(st', push, cfgs[n], oks[n]);
      if push in st.clients {
        ProcessKeepsPush(st', push, cfgs[n], oks[n]);
      }
    }
  }

  lemma EnsurePushKeeps(st: State, push: string, ok: bool)
    requires Inv(st, push)
    ensures Inv(EnsurePush(st, push, ok), push)
    ensures push != "" && ok ==> push in EnsurePush(st, push, ok).clients
    ensures push in st.clients || push == "" || !ok ==> EnsurePush(st, push, ok) == st
    ensures push != "" && ok && push !in st.clients ==>
              var st' := EnsurePush(st, push, ok);
              && st'.clients[push].number >= st.next && st'.clients[push] in st'.running
              && st'.configs[push].chain == push && st'.configs[push].enabled == Some(ChainEnabled(true, true))
              && forall id :: id != push ==> (id in st'.clients <==> id in st.clients)
                                             && (id in st.clients ==> st'.clients[id] == st.clients[id])
  {
    if push != "" && push !in st.clients {
      StoreKeeps(st, push, PushConfig(push));
    }
  }

  /** Stopping everything leaves no client running. */
  lemma StopAllKeeps(st: State, push: string)
    requires Inv(st, push)
    ensures Inv(StopAll(st), push) && StopAll(st).running == {}
  {
  }

  // ---------- Runs ----------

  /** The manager between two events; once a sync waits for itself, it is blocked. */
  datatype Manager = Manager(st: State, blocked: bool)

  /** An event of a run: start-up, a sync with its failures, a sync that could not fetch, or a stop. */
  datatype Event = Start(ok: bool) | Sync(cfgs: seq<ChainConfig>, oks: nat -> bool) | FetchFails | Stop

  /** Whether creating a client would succeed, for the first `n` entries of a list. */
  function Outcomes(oks: nat -> bool, n: nat): (r: seq<bool>)
    ensures |r| == n && forall k :: 0 <= k < n ==> r[k] == oks(k)
  {
    seq(n, k requires 0 <= k < n => oks(k))
  }

  /**
  One event. A sync that leaves a stale chain never returns, and nothing changes after it: the
  loop that runs the syncs is gone, a stop waits for it, and a start finds the manager running or
  waits for the lock.
   */
  function Step(m: Manager, push: string, ev: Event): Manager
  {
    if m.blocked then m
    else
      match ev
      case Start(ok) => Manager(EnsurePush(m.st, push, ok), false)
      case Sync(cfgs, oks) =>
        var st' := ProcessAll(m.st, push, cfgs, Outcomes(oks, |cfgs|));
        Manager(st', Stale(st', push, cfgs) != {})
      case FetchFails => m
      case Stop => Manager(StopAll(m.st), false)
  }

  function RunAll(m: Manager, push: string, run: seq<Event>): Manager
  {
    if run == [] then m
    else
      var n := |run| - 1;
      Step(RunAll(m, push, run[..n]), push, run[n])
  }

  const Fresh := State(map[], map[], {}, 0)

  lemma StepKeeps(m: Manager, push: string, ev: Event)
    requires Inv(m.st, push)
    ensures Inv(Step(m, push, ev).st, push)
  {
    match ev
    case Start(ok) => EnsurePushKeeps(m.st, push, ok);
    case Sync(cfgs, oks) => SyncKeeps(m.st, push, cfgs, Outcomes(oks, |cfgs|));
    case FetchFails =>
    case Stop => StopAllKeeps(m.st, push);
  }

  /** Every state reachable by any run satisfies the invariant. */
  lemma {:induction false} EveryRun(m: Manager, push: string, run: seq<Event>)
    requires Inv(m.st, push)
    ensures Inv(RunAll(m, push, run).st, push)
    decreases |run|
  {
    if run != [] {
      var n := |run| - 1;
      EveryRun(m, push, run[..n]);
      StepKeeps(RunAll(m, push, run[..n]), push, run[n]);
    }
  }

  lemma FreshRun(push: string, run: seq<Event>)
    ensures Inv(RunAll(Manager(Fresh, false), push, run).st, push)
    ensures var st := RunAll(Manager(Fresh, false), push, run).st;
            && st.clients.Keys == st.configs.Keys
            && (forall id :: id in st.clients ==> st.clients[id].config == st.configs[id] && st.clients[id] in st.running)
            && (forall c :: c in st.running ==> exists id :: id in st.clients && st.clients[id] == c)
  {
    EveryRun(Manager(Fresh, false), push, run);
  }

  // ---------- One chain at a time ----------

  function Slot(st: State, id: string): Option<ChainConfig>
  {
    if id in st.configs then Some(st.configs[id]) else None
  }

  /** What an entry for a chain does to that chain, whatever else is managed. */
  function SlotStep(slot: Option<ChainConfig>, cfg: ChainConfig, ok: bool): Option<ChainConfig>
  {
    if !Enabled(cfg) then None
    else if slot.Some? && ConfigsEqual(slot.value, cfg) then slot
    else if Creates(cfg, ok) then Some(cfg)
    else None
  }

  lemma ProcessSlot(st: State, push: string, cfg: ChainConfig, ok: bool, id: string)
    requires Inv(st, push) && id != "" && id != push
    ensures Slot(Process(st, push, cfg, ok), id)
            == if cfg.chain == id then SlotStep(Slot(st, id), cfg, ok) else Slot(st, id)
  {
    hide ConfigsEqual;
  }

  /** The client of a chain, if it is managed. */
  function ClientOf(st: State, id: string): Option<Client>
  {
    if id in st.clients then Some(st.clients[id]) else None
  }

  /** An old client that is gone runs no more, and a new one runs under a number never used before. */
  ghost predicate Replaced(st: State, st': State, id: string)
  {
    && (id in st.clients ==> st.clients[id] !in st'.running)
    && (id in st'.clients ==> st'.clients[id].number >= st.next && st'.clients[id] in st'.running)
  }

  /**
  What an entry does to clients. Only its own chain's client can change. It is kept exactly when the
  entry is enabled and equals the stored configuration. Otherwise the old client is stopped, and an
  enabled entry of a supported VM type that can be created gets a new client that works by it.
   */
  lemma EntryOnClients(st: State, push: string, cfg: ChainConfig, ok: bool)
    requires Inv(st, push)
    ensures var st' := Process(st, push, cfg, ok);
            forall id :: id != cfg.chain || id == "" || id == push ==> ClientOf(st', id) == ClientOf(st, id)
    ensures var st', id := Process(st, push, cfg, ok), cfg.chain;
            var on := cfg.enabled.Some? && (cfg.enabled.value.inbound || cfg.enabled.value.outbound);
            id != "" && id != push ==>
              if on && id in st.clients && ConfigsEqual(st.configs[id], cfg) then st' == st
              else
                && Replaced(st, st', id)
                && (id in st'.clients <==> on && ok && (cfg.vmType.EVM? || cfg.vmType.SVM?))
                && (id in st'.clients ==> st'.clients[id].config == cfg)
  {
    hide ConfigsEqual;
    if cfg.chain in st.clients {
      assert st.clients[cfg.chain].number < st.next;
    }
  }

  /** Over a whole list, whatever fails, a chain it does not name keeps its client. */
  lemma {:induction false} UnlistedKeepClients(st: State, push: string, cfgs: seq<ChainConfig>, oks: seq<bool>, id: string)
    requires |cfgs| == |oks| && Inv(st, push) && !Listed(cfgs, id)
    ensures ClientOf(ProcessAll(st, push, cfgs, oks), id) == ClientOf(st, id)
    decreases |cfgs|
  {
    hide Inv, Process, ClientOf;
    if cfgs != [] {
      var n := |cfgs| - 1;
      assert forall i :: 0 <= i < n ==> cfgs[..n][i] == cfgs[i];
      assert cfgs[n].chain != id;
      SyncKeeps(st, push, cfgs[..n], oks[..n]);
      UnlistedKeepClients(st, push, cfgs[..n], oks[..n], id);
      EntryOnClients(ProcessAll(st, push, cfgs[..n], oks[..n]), push, cfgs[n], oks[n]);
    }
  }

  /** The last entry the list has for a chain. */
  function LastFor(cfgs: seq<ChainConfig>, id: string): (r: Option<ChainConfig>)
    ensures r.Some? <==> Listed(cfgs, id)
    ensures r.Some? ==> r.value.chain == id
  {
    if cfgs == [] then None
    else
      var n := |cfgs| - 1;
      if cfgs[n].chain == id then Some(cfgs[n])
      else
        assert forall i :: 0 <= i < |cfgs| && cfgs[i].chain == id ==> i < n && cfgs[..n][i] == cfgs[i];
        LastFor(cfgs[..n], id)
  }

  /** Every entry that wants a client gets one. */
  predicate AllCreated(cfgs: seq<ChainConfig>, oks: seq<bool>)
    requires |cfgs| == |oks|
  {
    forall i :: 0 <= i < |cfgs| && Enabled(cfgs[i]) ==> Creates(cfgs[i], oks[i])
  }

  /** A stored chain agrees with an entry: absent for a disabled one, equal for an enabled one. */
  predicate Agrees(slot: Option<ChainConfig>, cfg: ChainConfig)
  {
    if Enabled(cfg) then slot.Some? && ConfigsEqual(slot.value, cfg) else slot.None?
  }

  /** The last entry for a chain decides its fate; unlisted chains are untouched. */
  lemma {:induction false} LastEntryWins(st: State, push: string, cfgs: seq<ChainConfig>, oks: seq<bool>, id: string)
    requires |cfgs| == |oks| && Inv(st, push) && id != "" && id != push && AllCreated(cfgs, oks)
    ensures var slot, last := Slot(ProcessAll(st, push, cfgs, oks), id), LastFor(cfgs, id);
            if last.Some? then Agrees(slot, last.value) else slot == Slot(st, id)
    decreases |cfgs|
  {
    hide Inv, Process, ConfigsEqual, Slot;
    if cfgs != [] {
      var n := |cfgs| - 1;
      SyncKeeps(st, push, cfgs[..n], oks[..n]);
      LastEntryWins(st, push, cfgs[..n], oks[..n], id);
      var st' := ProcessAll(st, push, cfgs[..n], oks[..n]);
      ProcessSlot(st', push, cfgs[n], oks[n], id);
      ReflexiveEqual(cfgs[n]);
    }
  }

  lemma ReflexiveEqual(c: ChainConfig)
    ensures ConfigsEqual(c, c)
  {
  }

  // ---------- Convergence ----------

  /** Every managed chain but the push chain is still named by the list. */
  predicate Covered(st: State, push: string, cfgs: seq<ChainConfig>)
  {
    forall id :: id in st.clients && id != push ==> Listed(cfgs, id)
  }

  /** The chains the list asks for. */
  predicate Wanted(push: string, cfgs: seq<ChainConfig>, id: string)
  {
    id != "" && id != push && LastFor(cfgs, id).Some? && Enabled(LastFor(cfgs, id).value)
  }

  /** One sync leaves exactly the push chain and the wanted chains, each with an equal configuration. */
  lemma Converges(st: State, push: string, cfgs: seq<ChainConfig>, oks: seq<bool>)
    requires |cfgs| == |oks| && Inv(st, push) && push in st.clients
    requires Covered(st, push, cfgs) && AllCreated(cfgs, oks)
    ensures var st' := ProcessAll(st, push, cfgs, oks);
            && st'.clients.Keys == st'.configs.Keys
            && (forall id :: id in st'.clients <==> id == push || Wanted(push, cfgs, id))
            && (forall id :: Wanted(push, cfgs, id) ==>
                  && id in st'.configs && ConfigsEqual(st'.configs[id], LastFor(cfgs, id).value)
                  && id in st'.clients && st'.clients[id].config == st'.configs[id])
  {
    hide ProcessAll, ConfigsEqual, LastFor;
    var st' := ProcessAll(st, push, cfgs, oks);
    SyncKeeps(st, push, cfgs, oks);
    forall id | id != "" && id != push
      ensures id in st'.clients <==> Wanted(push, cfgs, id)
      ensures Wanted(push, cfgs, id) ==> id in st'.configs && ConfigsEqual(st'.configs[id], LastFor(cfgs, id).value)
    {
      LastEntryWins(st, push, cfgs, oks, id);
    }
  }

  /** No chain id twice. */
  predicate Distinct(cfgs: seq<ChainConfig>)
  {
    forall i, j :: 0 <= i < j < |cfgs| ==> cfgs[i].chain != cfgs[j].chain
  }

  /** With distinct ids the last entry is the only one. */
  lemma {:induction false} OnlyEntry(cfgs: seq<ChainConfig>, i: nat)
    requires Distinct(cfgs) && i < |cfgs|
    ensures LastFor(cfgs, cfgs[i].chain) == Some(cfgs[i])
    decreases |cfgs|
  {
    var n := |cfgs| - 1;
    if i < n {
      assert cfgs[..n][i] == cfgs[i];
      OnlyEntry(cfgs[..n], i);
    }
  }

  /** The action for each entry of a list, taken in order. */
  predicate OnlySkips(st: State, push: string, cfgs: seq<ChainConfig>)
  {
    forall i :: 0 <= i < |cfgs| ==>
      cfgs[i].chain == "" || cfgs[i].chain == push || DetermineAction(st, cfgs[i]).Skip?
  }

  /** A sync whose every entry skips changes nothing, not even a client. */
  lemma {:induction false} SkipsChangeNothing(st: State, push: string, cfgs: seq<ChainConfig>, oks: seq<bool>)
    requires |cfgs| == |oks| && OnlySkips(st, push, cfgs)
    ensures ProcessAll(st, push, cfgs, oks) == st
    decreases |cfgs|
  {
    if cfgs != [] {
      var n := |cfgs| - 1;
      SkipsChangeNothing(st, push, cfgs[..n], oks[..n]);
    }
  }

  /** Each entry of the list says the same as the last entry for its chain. */
  predicate Consistent(push: string, cfgs: seq<ChainConfig>)
  {
    forall i :: 0 <= i < |cfgs| && cfgs[i].chain != "" && cfgs[i].chain != push ==>
      var last := LastFor(cfgs, cfgs[i].chain).value;
      if Enabled(cfgs[i]) then Enabled(last) && ConfigsEqual(last, cfgs[i]) else !Enabled(last)
  }

  lemma DistinctIsConsistent(push: string, cfgs: seq<ChainConfig>)
    requires Distinct(cfgs)
    ensures Consistent(push, cfgs)
  {
    forall i | 0 <= i < |cfgs| && cfgs[i].chain != "" && cfgs[i].chain != push
      ensures var last := LastFor(cfgs, cfgs[i].chain).value;
              if Enabled(cfgs[i]) then Enabled(last) && ConfigsEqual(last, cfgs[i]) else !Enabled(last)
    {
      OnlyEntry(cfgs, i);
      ReflexiveEqual(cfgs[i]);
    }
  }

  lemma SkipMeansAgrees(st: State, push: string, cfg: ChainConfig)
    requires Inv(st, push) && cfg.chain != "" && cfg.chain != push
    ensures DetermineAction(st, cfg).Skip? <==> Agrees(Slot(st, cfg.chain), cfg)
  {
    hide ConfigsEqual;
  }

  lemma EqualIsTransitive(a: ChainConfig, b: ChainConfig, c: ChainConfig)
    requires ConfigsEqual(a, b)
    ensures ConfigsEqual(a, c) <==> ConfigsEqual(b, c)
  {
    ConfigsEqualIsRelevantEquality(a, b);
    ConfigsEqualIsRelevantEquality(a, c);
    ConfigsEqualIsRelevantEquality(b, c);
  }

  /** After a full sync, the same list only skips exactly when its entries are consistent. */
  lemma SecondSyncSkipsIff(st: State, push: string, cfgs: seq<ChainConfig>, oks: seq<bool>)
    requires |cfgs| == |oks| && Inv(st, push) && AllCreated(cfgs, oks)
    ensures OnlySkips(ProcessAll(st, push, cfgs, oks), push, cfgs) <==> Consistent(push, cfgs)
  {
    hide ProcessAll, ConfigsEqual, LastFor, Inv, DetermineAction, Slot;
    var st' := ProcessAll(st, push, cfgs, oks);
    SyncKeeps(st, push, cfgs, oks);
    forall i | 0 <= i < |cfgs| && cfgs[i].chain != "" && cfgs[i].chain != push
      ensures DetermineAction(st', cfgs[i]).Skip? <==>
              var last := LastFor(cfgs, cfgs[i].chain).value;
              if Enabled(cfgs[i]) then Enabled(last) && ConfigsEqual(last, cfgs[i]) else !Enabled(last)
    {
      var id := cfgs[i].chain;
      assert Listed(cfgs, id);
      LastEntryWins(st, push, cfgs, oks, id);
      SkipMeansAgrees(st', push, cfgs[i]);
      var last := LastFor(cfgs, id).value;
      if Enabled(last) {
        EqualIsTransitive(Slot(st', id).value, last, cfgs[i]);
      }
    }
  }

  /** With distinct ids, a second sync on the same list leaves maps and clients as they are. */
  lemma SecondSyncIsIdle(st: State, push: string, cfgs: seq<ChainConfig>, oks: seq<bool>, oks': seq<bool>)
    requires |cfgs| == |oks| == |oks'| && Inv(st, push) && AllCreated(cfgs, oks) && Distinct(cfgs)
    ensures ProcessAll(ProcessAll(st, push, cfgs, oks), push, cfgs, oks') == ProcessAll(st, push, cfgs, oks)
  {
    hide ProcessAll, OnlySkips, Consistent;
    DistinctIsConsistent(push, cfgs);
    SecondSyncSkipsIff(st, push, cfgs, oks);
    SkipsChangeNothing(ProcessAll(st, push, cfgs, oks), push, cfgs, oks');
  }

  // ---------- Stale chains ----------

  lemma {:induction false} KeysGrowByListed(st: State, push: string, cfgs: seq<ChainConfig>, oks: seq<bool>, id: string)
    requires |cfgs| == |oks| && Inv(st, push) && id != "" && id != push && !Listed(cfgs, id)
    ensures Slot(ProcessAll(st, push, cfgs, oks), id) == Slot(st, id)
    decreases |cfgs|
  {
    hide Inv, Process, Slot;
    if cfgs != [] {
      var n := |cfgs| - 1;
      assert forall i :: 0 <= i < n ==> cfgs[..n][i] == cfgs[i];
      assert cfgs[n].chain != id;
      SyncKeeps(st, push, cfgs[..n], oks[..n]);
      KeysGrowByListed(st, push, cfgs[..n], oks[..n], id);
      ProcessSlot(ProcessAll(st, push, cfgs[..n], oks[..n]), push, cfgs[n], oks[n], id);
    }
  }

  /** After the list is processed nothing is stale exactly when every managed chain was named. */
  lemma NothingStaleIffCovered(st: State, push: string, cfgs: seq<ChainConfig>, oks: seq<bool>)
    requires |cfgs| == |oks| && Inv(st, push)
    ensures Stale(ProcessAll(st, push, cfgs, oks), push, cfgs) == {} <==> Covered(st, push, cfgs)
  {
    hide ProcessAll, Listed;
    var st' := ProcessAll(st, push, cfgs, oks);
    SyncKeeps(st, push, cfgs, oks);
    forall id | id != "" && id != push && !Listed(cfgs, id)
      ensures id in st'.clients <==> id in st.clients
    {
      KeysGrowByListed(st, push, cfgs, oks, id);
    }
    if Covered(st, push, cfgs) {
      assert Stale(st', push, cfgs) == {};
    } else {
      var id :| id in st.clients && id != push && !Listed(cfgs, id);
      assert id in Stale(st', push, cfgs);
    }
  }

  /** The event is a sync whose list no longer names some chain managed at that moment. */
  ghost predicate Drops(m: Manager, push: string, ev: Event)
  {
    ev.Sync? && !Covered(m.st, push, ev.cfgs)
  }

  /** A manager that still works is blocked by exactly the syncs that drop a managed chain. */
  lemma StepBlocksIff(m: Manager, push: string, ev: Event)
    requires Inv(m.st, push)
    ensures Step(m, push, ev).blocked <==> m.blocked || Drops(m, push, ev)
  {
    hide Inv, ProcessAll, Covered, Stale;
    if ev.Sync? {
      NothingStaleIffCovered(m.st, push, ev.cfgs, Outcomes(ev.oks, |ev.cfgs|));
    }
  }

  /** Nothing happens after the first sync that drops a managed chain: no later event changes anything. */
  lemma {:induction false} FrozenAfter(m: Manager, push: string, run: seq<Event>, k: nat)
    requires Inv(m.st, push) && k < |run| && Drops(RunAll(m, push, run[..k]), push, run[k])
    ensures RunAll(m, push, run).blocked && RunAll(m, push, run) == RunAll(m, push, run[..k + 1])
    decreases |run|
  {
    hide Inv, Drops, Step;
    var n := |run| - 1;
    if k == n {
      EveryRun(m, push, run[..n]);
      StepBlocksIff(RunAll(m, push, run[..n]), push, run[n]);
      assert run[..k + 1] == run;
    } else {
      assert run[..n][..k] == run[..k] && run[..n][k] == run[k] && run[..n][..k + 1] == run[..k + 1];
      FrozenAfter(m, push, run[..n], k);
      BlockedStays(RunAll(m, push, run[..n]), push, run[n]);
    }
  }

  lemma BlockedStays(m: Manager, push: string, ev: Event)
    requires m.blocked
    ensures Step(m, push, ev) == m
  {
  }

  /** A run blocks a working manager exactly when one of its syncs drops a chain managed at that moment. */
  lemma {:induction false} RunBlocksIff(m: Manager, push: string, run: seq<Event>)
    requires Inv(m.st, push) && !m.blocked
    ensures RunAll(m, push, run).blocked <==>
            exists k :: 0 <= k < |run| && Drops(RunAll(m, push, run[..k]), push, run[k])
    decreases |run|
  {
    hide Inv, Drops, Step;
    if run != [] && RunAll(m, push, run).blocked {
      var n := |run| - 1;
      EveryRun(m, push, run[..n]);
      RunBlocksIff(m, push, run[..n]);
      StepBlocksIff(RunAll(m, push, run[..n]), push, run[n]);
      if RunAll(m, push, run[..n]).blocked {
        var k :| 0 <= k < n && Drops(RunAll(m, push, run[..n][..k]), push, run[..n][k]);
        assert run[..n][..k] == run[..k];
      }
    }
    forall k | 0 <= k < |run| && Drops(RunAll(m, push, run[..k]), push, run[k])
      ensures RunAll(m, push, run).blocked
    {
      FrozenAfter(m, push, run, k);
    }
  }

  /** Start, one chain, then an empty list: the second sync never returns. */
  lemma EmptyListBlocks(cfg: ChainConfig, oks: nat -> bool)
    requires cfg.chain == "eip155:1" && cfg.vmType.EVM? && Enabled(cfg) && oks(0)
    ensures RunAll(Manager(Fresh, false), "push", [Start(true), Sync([cfg], oks), Sync([], oks)]).blocked
  {
    var run := [Start(true), Sync([cfg], oks), Sync([], oks)];
    var m := Manager(Fresh, false);
    var m1 := Step(m, "push", run[0]);
    var m2 := Step(m1, "push", run[1]);
    OneEntry(m1.st, cfg, oks);
    assert run[..0] == [] && run[..1][..0] == [] && run[..2][..1] == run[..1];
    assert RunAll(m, "push", run[..1]) == m1;
    assert RunAll(m, "push", run[..2]) == m2;
    assert !Listed([], "eip155:1");
    EveryRun(m, "push", run[..2]);
    FrozenAfter(m, "push", run, 2);
  }

  lemma OneEntry(st: State, cfg: ChainConfig, oks: nat -> bool)
    requires cfg.chain == "eip155:1" && cfg.vmType.EVM? && Enabled(cfg) && oks(0) && "eip155:1" !in st.clients
    ensures "eip155:1" in ProcessAll(st, "push", [cfg], Outcomes(oks, 1)).clients
    ensures Stale(ProcessAll(st, "push", [cfg], Outcomes(oks, 1)), "push", [cfg]) <= st.clients.Keys
  {
    var all := Outcomes(oks, 1);
    assert all == [oks(0)];
    assert [cfg][..0] == [] && all[..0] == [];
    assert ProcessAll(st, "push", [cfg], all) == Process(st, "push", cfg, true);
    assert Listed([cfg], "eip155:1") by { assert [cfg][0].chain == "eip155:1"; }
  }
}
