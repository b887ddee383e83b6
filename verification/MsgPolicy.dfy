/**
The gasless-transaction predicate against the recursive message filter.

A message is an authz execution that carries packed inner messages, or any other message,
known by its type name. A packed message may fail to unpack.
 */
module MsgPolicy {
  import opened Basics

  const EXEC := "cosmos.authz.v1beta1.MsgExec"

  datatype Msg = Exec(inner: seq<Packed>) | Other(name: string)

  /** A packed message: its type URL and what unpacking yields, if it does. */
  datatype Packed = Packed(typeUrl: string, content: Unpacked)

  datatype Unpacked = Unpacks(msg: Msg) | Fails

  function Name(m: Msg): string
  {
    match m
    case Exec(_) => EXEC
    case Other(n) => n
  }

  function TypeUrl(m: Msg): string
  {
    "/" + Name(m)
  }

  /** The message types that may go without gas. */
  const GASLESS := [
    "/uexecutor.v1.MsgMigrateUEA",
    "/uexecutor.v1.MsgExecutePayload",
    "/uexecutor.v1.MsgVoteInbound",
    "/uexecutor.v1.MsgVoteOutbound",
    "/utss.v1.MsgVoteTssKeyProcess",
    "/utss.v1.MsgVoteFundMigration",
    "/uexecutor.v1.MsgVoteChainMeta"]

  /** The test on one top-level message. */
  predicate AllowedMsg(m: Msg)
  {
    match m
    case Exec(inner) => forall k :: 0 <= k < |inner| ==> inner[k].typeUrl in GASLESS
    case Other(_) => TypeUrl(m) in GASLESS
  }

  predicate IsGaslessTx(msgs: seq<Msg>)
  {
    msgs != [] && forall k :: 0 <= k < |msgs| ==> AllowedMsg(msgs[k])
  }

  /** The recursive filter on one message: a name on the list, or anything nested that is bad or does not unpack. */
  predicate Disallowed(blocked: set<string>, m: Msg)
  {
    || Name(m) in blocked
    || (m.Exec? && exists k :: 0 <= k < |m.inner| && BadPacked(blocked, m.inner[k]))
  }

  predicate BadPacked(blocked: set<string>, p: Packed)
  {
    p.content.Fails? || Disallowed(blocked, p.content.msg)
  }

  predicate HasDisallowedMessage(blocked: set<string>, msgs: seq<Msg>)
  {
    exists k :: 0 <= k < |msgs| && Disallowed(blocked, msgs[k])
  }

  // ---------- Nodes of a message tree ----------

  /** What stands at the end of a path of inner positions, if the path exists. */
  function At(m: Msg, path: seq<nat>): Option<Unpacked>
    decreases |path|
  {
    if path == [] then Some(Unpacks(m))
    else if m.Exec? && path[0] < |m.inner| then
      match m.inner[path[0]].content
      case Unpacks(x) => At(x, path[1..])
      case Fails => if |path| == 1 then Some(Fails) else None
    else None
  }

  /** A node the filter objects to. */
  predicate Objectionable(blocked: set<string>, u: Unpacked)
  {
    u.Fails? || Name(u.msg) in blocked
  }

  lemma {:induction false} FilterFindsPath(blocked: set<string>, m: Msg) returns (path: seq<nat>)
    requires Disallowed(blocked, m)
    ensures At(m, path).Some? && Objectionable(blocked, At(m, path).value)
    decreases m
  {
    if Name(m) in blocked {
      path := [];
    } else {
      var k :| 0 <= k < |m.inner| && BadPacked(blocked, m.inner[k]);
      var p := m.inner[k].content;
      if p.Fails? {
        path := [k];
      } else {
        var rest := FilterFindsPath(blocked, p.msg);
        path := [k] + rest;
      }
    }
  }

  lemma {:induction false} PathTriggersFilter(blocked: set<string>, m: Msg, path: seq<nat>)
    requires At(m, path).Some? && Objectionable(blocked, At(m, path).value)
    ensures Disallowed(blocked, m)
    decreases |path|
  {
    if path != [] {
      var p := m.inner[path[0]];
      if p.content.Unpacks? {
        PathTriggersFilter(blocked, p.content.msg, path[1..]);
      }
      assert BadPacked(blocked, p);
    }
  }

  /** The filter objects exactly when some node at some depth is blocked or does not unpack. */
  lemma FilterIsExact(blocked: set<string>, msgs: seq<Msg>)
    ensures HasDisallowedMessage(blocked, msgs) <==>
            exists k: nat, path :: k < |msgs| && At(msgs[k], path).Some? && Objectionable(blocked, At(msgs[k], path).value)
  {
    if HasDisallowedMessage(blocked, msgs) {
      var k: nat :| k < |msgs| && Disallowed(blocked, msgs[k]);
      var path := FilterFindsPath(blocked, msgs[k]);
    }
    forall k: nat, path | k < |msgs| && At(msgs[k], path).Some? && Objectionable(blocked, At(msgs[k], path).value)
      ensures HasDisallowedMessage(blocked, msgs)
    {
      PathTriggersFilter(blocked, msgs[k], path);
    }
  }

  // ---------- The filter by shape ----------

  /** What the filter says of each shape of message: a name on the list, an execution of parts, a part that does not unpack. */
  lemma FilterShapes(blocked: set<string>, name: string, parts: seq<Packed>, last: Packed)
    ensures Disallowed(blocked, Other(name)) <==> name in blocked
    ensures Disallowed(blocked, Exec([])) <==> "cosmos.authz.v1beta1.MsgExec" in blocked
    ensures Disallowed(blocked, Exec(parts + [last])) <==>
            Disallowed(blocked, Exec(parts)) || last.content.Fails? || Disallowed(blocked, last.content.msg)
  {
    var whole := parts + [last];
    if exists k :: 0 <= k < |whole| && BadPacked(blocked, whole[k]) {
      var k :| 0 <= k < |whole| && BadPacked(blocked, whole[k]);
      if k < |parts| {
        assert parts[k] == whole[k];
      }
    }
    if exists k :: 0 <= k < |parts| && BadPacked(blocked, parts[k]) {
      var k :| 0 <= k < |parts| && BadPacked(blocked, parts[k]);
      assert whole[k] == parts[k];
    }
    assert whole[|parts|] == last;
  }

  /** A message inside `n` executions. */
  function Wrapped(m: Msg, n: nat): Msg
  {
    if n == 0 then m else Exec([Packed(TypeUrl(Wrapped(m, n - 1)), Unpacks(Wrapped(m, n - 1)))])
  }

  /** Wrapping hides nothing at any depth, and blocks nothing but executions. */
  lemma {:induction false} WrappingHidesNothing(blocked: set<string>, m: Msg, n: nat)
    ensures Disallowed(blocked, Wrapped(m, n)) <==>
            Disallowed(blocked, m) || (n > 0 && "cosmos.authz.v1beta1.MsgExec" in blocked)
  {
    if n > 0 {
      WrappingHidesNothing(blocked, m, n - 1);
      var p := Packed(TypeUrl(Wrapped(m, n - 1)), Unpacks(Wrapped(m, n - 1)));
      FilterShapes(blocked, "", [], p);
      assert [] + [p] == [p];
    }
  }

  /** The filter looks at every message of a transaction. */
  lemma FilterConcat(blocked: set<string>, xs: seq<Msg>, ys: seq<Msg>)
    ensures HasDisallowedMessage(blocked, xs + ys) <==> HasDisallowedMessage(blocked, xs) || HasDisallowedMessage(blocked, ys)
    ensures forall m :: HasDisallowedMessage(blocked, [m]) <==> Disallowed(blocked, m)
  {
    if HasDisallowedMessage(blocked, xs) {
      var k :| 0 <= k < |xs| && Disallowed(blocked, xs[k]);
      assert (xs + ys)[k] == xs[k];
    }
    if HasDisallowedMessage(blocked, ys) {
      var k :| 0 <= k < |ys| && Disallowed(blocked, ys[k]);
      assert (xs + ys)[|xs| + k] == ys[k];
    }
    forall m
      ensures HasDisallowedMessage(blocked, [m]) <==> Disallowed(blocked, m)
    {
      assert [m][0] == m;
    }
  }

  // ---------- Gasless transactions ----------

  /** The seven message types that go without gas. */
  predicate GaslessUrl(url: string)
  {
    || url == "/uexecutor.v1.MsgMigrateUEA" || url == "/uexecutor.v1.MsgExecutePayload"
    || url == "/uexecutor.v1.MsgVoteInbound" || url == "/uexecutor.v1.MsgVoteOutbound"
    || url == "/utss.v1.MsgVoteTssKeyProcess" || url == "/utss.v1.MsgVoteFundMigration"
    || url == "/uexecutor.v1.MsgVoteChainMeta"
  }

  /** A transaction is gasless exactly when it is not empty and every message, or every part of an execution, has one of the seven types. */
  lemma GaslessSpelledOut(msgs: seq<Msg>)
    ensures IsGaslessTx(msgs) <==>
            msgs != [] && forall k :: 0 <= k < |msgs| ==>
              match msgs[k]
              case Other(name) => GaslessUrl("/" + name)
              case Exec(parts) => forall j :: 0 <= j < |parts| ==> GaslessUrl(parts[j].typeUrl)
  {
    hide GaslessUrl;
    forall url: string
      ensures url in GASLESS <==> GaslessUrl(url)
    {
      WhitelistIs(url);
    }
  }

  lemma WhitelistIs(url: string)
    ensures url in GASLESS <==> GaslessUrl(url)
  {
  }

  /** Inner messages unpack, to the type their URL names. */
  predicate WellPacked(m: Msg)
  {
    m.Exec? ==> forall k :: 0 <= k < |m.inner| ==>
      m.inner[k].content.Unpacks? && m.inner[k].typeUrl == TypeUrl(m.inner[k].content.msg)
  }

  lemma ExecIsNotGasless()
    ensures "/" + EXEC !in GASLESS
  {
    assert ("/" + EXEC)[1] == 'c';
    assert forall k :: 0 <= k < |GASLESS| ==> GASLESS[k][1] == 'u';
  }

  /** Every node of a gasless transaction: a top-level execution, or a whitelisted message at depth 0 or 1. */
  lemma GaslessNodes(msgs: seq<Msg>, k: nat, path: seq<nat>)
    requires IsGaslessTx(msgs) && k < |msgs| && WellPacked(msgs[k]) && At(msgs[k], path).Some?
    ensures At(msgs[k], path).value.Unpacks? && |path| <= 1
    ensures var m := At(msgs[k], path).value.msg;
            TypeUrl(m) in GASLESS || (m.Exec? && path == [])
    ensures |path| == 1 ==> !At(msgs[k], path).value.msg.Exec?
  {
    ExecIsNotGasless();
    assert AllowedMsg(msgs[k]);
    hide IsGaslessTx;
    if path != [] {
      var p := msgs[k].inner[path[0]];
      assert p.typeUrl in GASLESS;
      assert !p.content.msg.Exec?;
    }
  }

  ghost predicate OnlyGaslessNodes(msgs: seq<Msg>)
  {
    forall k: nat, path :: k < |msgs| && At(msgs[k], path).Some? ==> GaslessNode(At(msgs[k], path).value, path)
  }

  /** The predicate accepts exactly the non-empty forests of such nodes. */
  lemma GaslessIff(msgs: seq<Msg>)
    requires forall k :: 0 <= k < |msgs| ==> WellPacked(msgs[k])
    ensures IsGaslessTx(msgs) <==> msgs != [] && OnlyGaslessNodes(msgs)
  {
    if IsGaslessTx(msgs) {
      forall k: nat, path | k < |msgs| && At(msgs[k], path).Some?
        ensures GaslessNode(At(msgs[k], path).value, path)
      {
        GaslessNodes(msgs, k, path);
      }
    }
    if OnlyGaslessNodes(msgs) {
      forall k | 0 <= k < |msgs|
        ensures AllowedMsg(msgs[k])
      {
        NodesAllow(msgs[k]);
      }
    }
  }

  predicate GaslessNode(u: Unpacked, path: seq<nat>)
  {
    u.Unpacks? && |path| <= 1 && (TypeUrl(u.msg) in GASLESS || (u.msg.Exec? && path == []))
  }

  lemma NodesAllow(m: Msg)
    requires WellPacked(m) && forall path :: At(m, path).Some? ==> GaslessNode(At(m, path).value, path)
    ensures AllowedMsg(m)
  {
    assert At(m, []) == Some(Unpacks(m));
    if m.Exec? {
      forall j: nat | j < |m.inner|
        ensures m.inner[j].typeUrl in GASLESS
      {
        assert At(m, [j]) == Some(m.inner[j].content);
      }
    }
  }

  /** A gasless transaction passes every filter that blocks neither the whitelist nor executions. */
  lemma GaslessIsClean(blocked: set<string>, msgs: seq<Msg>)
    requires IsGaslessTx(msgs) && forall k :: 0 <= k < |msgs| ==> WellPacked(msgs[k])
    requires EXEC !in blocked && forall name :: name in blocked ==> "/" + name !in GASLESS
    ensures !HasDisallowedMessage(blocked, msgs)
  {
    FilterIsExact(blocked, msgs);
    forall k: nat, path | k < |msgs| && At(msgs[k], path).Some?
      ensures !Objectionable(blocked, At(msgs[k], path).value)
    {
      GaslessNodes(msgs, k, path);
    }
  }

  // ---------- Gasless transactions that carry nothing ----------

  /** Some node of the message is of a whitelisted type. */
  ghost predicate CarriesGasless(m: Msg)
  {
    exists path :: GaslessAt(m, path)
  }

  ghost predicate GaslessAt(m: Msg, path: seq<nat>)
  {
    At(m, path).Some? && At(m, path).value.Unpacks? && TypeUrl(At(m, path).value.msg) in GASLESS
  }

  /** An allowed message carries a whitelisted one exactly when it is not an execution of nothing. */
  lemma CarriesGaslessIff(m: Msg)
    requires AllowedMsg(m) && WellPacked(m)
    ensures CarriesGasless(m) <==> m != Exec([])
  {
    if m == Exec([]) {
      forall path
        ensures !GaslessAt(m, path)
      {
        ExecIsNotGasless();
        if path != [] {
          assert At(m, path).None?;
        }
      }
    } else if m.Exec? {
      assert At(m, [0]) == Some(m.inner[0].content);
      assert GaslessAt(m, [0]);
    } else {
      assert GaslessAt(m, []);
    }
  }

  /** A gasless transaction carries no whitelisted message exactly when it only executes nothing. */
  lemma GaslessCarriesNothingIff(msgs: seq<Msg>)
    requires forall k :: 0 <= k < |msgs| ==> WellPacked(msgs[k])
    ensures IsGaslessTx(msgs) && (forall k :: 0 <= k < |msgs| ==> !CarriesGasless(msgs[k]))
            <==> msgs != [] && forall k :: 0 <= k < |msgs| ==> msgs[k] == Exec([])
  {
    hide CarriesGasless;
    forall k | 0 <= k < |msgs| && AllowedMsg(msgs[k])
      ensures CarriesGasless(msgs[k]) <==> msgs[k] != Exec([])
    {
      CarriesGaslessIff(msgs[k]);
    }
  }

  /** An execution of nothing is gasless on its own and carries no whitelisted message. */
  lemma EmptyExecIsGasless()
    ensures IsGaslessTx([Exec([])]) && !CarriesGasless(Exec([]))
  {
    CarriesGaslessIff(Exec([]));
  }
}
