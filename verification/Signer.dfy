/**
The sequence manager of the transaction signer: one cached sequence number, reset,
adopted and incremented across a bounded retry loop, against a chain whose query
may lag behind its mempool.
 */
module Signer {
  import opened Basics

  const MAX_ATTEMPTS := 3

  /** Answer of the account query. */
  datatype Query = Sequence(value: U64) | QueryFailed

  /**
  Answer of a broadcast. A sequence mismatch is reported either as an error of the
  call or as a non-zero code in the response; other codes and other errors follow.
   */
  datatype Answer = Accepted | MismatchCode | MismatchError | OtherCode | TransportError

  /** What can go wrong locally in an attempt: building, signing with the keyring, or encoding. */
  datatype Fault = NoFault | BuildFails | KeyringFails | EncodeFails

  /**
  The environment of one call: whether the messages can be wrapped and, per attempt, the local
  fault, the query and the answer to a signed sequence.
   */
  datatype Env = Env(wraps: bool, fault: nat -> Fault, query: nat -> Query, answer: (nat, U64) -> Answer)

  /** Result of a call; `Exhausted` is the error after the loop. */
  datatype Result =
    | Success
    | WrapFailed
    | BuildFailed
    | SignFailed
    | EncodeFailed
    | TxFailed
    | BroadcastFailed
    | Exhausted

  /** Cache after the call, its result, and the sequences it broadcast. */
  datatype Outcome = Outcome(last: U64, result: Result, broadcasts: seq<U64>)

  /** The uint64 increment. */
  function Next(x: U64): U64
  {
    if x == 0xFFFF_FFFF_FFFF_FFFF then 0 else x + 1
  }

  /** Zero means no local sequence; behind the chain means adopt; ahead means keep. */
  function Reconcile(last: U64, chain: U64): U64
  {
    if last == 0 || last < chain then chain else last
  }

  /** One attempt ends the call, or broadcast a sequence that was refused and leaves another attempt. */
  datatype Attempt = Ends(outcome: Outcome) | Retries(sequence: U64)

  function Try(last: U64, env: Env, attempt: nat): Attempt
  {
    if env.fault(attempt).BuildFails? then Ends(Outcome(last, BuildFailed, []))
    else
      match env.query(attempt)
      case QueryFailed => Ends(Outcome(last, SignFailed, []))
      case Sequence(q) =>
        var s := Reconcile(last, q);
        if env.fault(attempt).KeyringFails? then Ends(Outcome(s, SignFailed, []))
        else if env.fault(attempt).EncodeFails? then Ends(Outcome(s, EncodeFailed, []))
        else
          match env.answer(attempt, s)
          case Accepted => Ends(Outcome(Next(s), Success, [s]))
          case OtherCode => Ends(Outcome(Next(s), TxFailed, [s]))
          case TransportError => Ends(Outcome(0, BroadcastFailed, [s]))
          case MismatchCode => if attempt < MAX_ATTEMPTS then Retries(s) else Ends(Outcome(Next(s), TxFailed, [s]))
          case MismatchError => if attempt < MAX_ATTEMPTS then Retries(s) else Ends(Outcome(0, BroadcastFailed, [s]))
  }

  /** Attempts `attempt`, `attempt + 1`, ... of a call with cache `last`. A retry starts without a cache. */
  function Attempts(last: U64, env: Env, attempt: nat): Outcome
    requires 1 <= attempt <= MAX_ATTEMPTS + 1
    decreases MAX_ATTEMPTS + 1 - attempt
  {
    if attempt > MAX_ATTEMPTS then Outcome(last, Exhausted, [])
    else
      match Try(last, env, attempt)
      case Ends(o) => o
      case Retries(s) => Before(s, Attempts(0, env, attempt + 1))
  }

  function Before(s: U64, o: Outcome): Outcome
  {
    o.(broadcasts := [s] + o.broadcasts)
  }

  function Call(last: U64, env: Env): Outcome
  {
    if env.wraps then Attempts(last, env, 1) else Outcome(last, WrapFailed, [])
  }

  class Signer {
    var lastSequence: U64

    constructor ()
      ensures lastSequence == 0
    {
      lastSequence := 0;
    }

    /** Queries the account, reconciles the cache and signs with it. */
    method SignTxWithSequence(env: Env, attempt: nat) returns (signed: bool)
      modifies this
      ensures signed <==> env.query(attempt).Sequence? && !env.fault(attempt).KeyringFails?
      ensures env.query(attempt).QueryFailed? ==> lastSequence == old(lastSequence)
      ensures env.query(attempt).Sequence? ==>
                lastSequence == if old(lastSequence) < env.query(attempt).value then env.query(attempt).value else old(lastSequence)
    {
      var account := env.query(attempt);
      if account.QueryFailed? {
        return false;
      }
      var chainSequence := account.value;
      if lastSequence == 0 {
        lastSequence := chainSequence;
      } else if lastSequence < chainSequence {
        lastSequence := chainSequence;
      }
      return !env.fault(attempt).KeyringFails?;
    }

    /** One turn of the retry loop. */
    method TryOnce(env: Env, attempt: nat) returns (t: Attempt)
      modifies this
      ensures t == Try(old(lastSequence), env, attempt)
      ensures lastSequence == if t.Ends? then t.outcome.last else 0
    {
      if env.fault(attempt).BuildFails? {
        return Ends(Outcome(lastSequence, BuildFailed, []));
      }
      var signed := SignTxWithSequence(env, attempt);
      if !signed {
        return Ends(Outcome(lastSequence, SignFailed, []));
      }
      if env.fault(attempt).EncodeFails? {
        return Ends(Outcome(lastSequence, EncodeFailed, []));
      }
      var s := lastSequence;
      var answer := env.answer(attempt, s);
      if answer.MismatchError? || answer.TransportError? {
        lastSequence := 0;
        if answer.MismatchError? && attempt < MAX_ATTEMPTS {
          return Retries(s);
        }
        return Ends(Outcome(lastSequence, BroadcastFailed, [s]));
      }
      if answer.MismatchCode? || answer.OtherCode? {
        if answer.MismatchCode? && attempt < MAX_ATTEMPTS {
          lastSequence := 0;
          return Retries(s);
        }
        lastSequence := Next(lastSequence);
        return Ends(Outcome(lastSequence, TxFailed, [s]));
      }
      lastSequence := Next(lastSequence);
      return Ends(Outcome(lastSequence, Success, [s]));
    }

    /** The retry loop. */
    method SignAndBroadcast(env: Env) returns (result: Result, broadcasts: seq<U64>)
      modifies this
      ensures Outcome(lastSequence, result, broadcasts) == Call(old(lastSequence), env)
    {
      hide Try;
      broadcasts := [];
      if !env.wraps {
        return WrapFailed, broadcasts;
      }
      var attempt := 1;
      while attempt <= MAX_ATTEMPTS
        invariant 1 <= attempt <= MAX_ATTEMPTS + 1
        invariant Call(old(lastSequence), env) == After(broadcasts, Attempts(lastSequence, env, attempt))
      {
        var t := TryOnce(env, attempt);
        if t.Ends? {
          return t.outcome.result, broadcasts + t.outcome.broadcasts;
        }
        AfterStep(broadcasts, t.sequence, Attempts(0, env, attempt + 1));
        broadcasts := broadcasts + [t.sequence];
        attempt := attempt + 1;
      }
      return Exhausted, broadcasts;
    }
  }

  ghost function After(earlier: seq<U64>, o: Outcome): Outcome
  {
    o.(broadcasts := earlier + o.broadcasts)
  }

  lemma AfterStep(earlier: seq<U64>, s: U64, o: Outcome)
    ensures After(earlier, Before(s, o)) == After(earlier + [s], o)
  {
    assert earlier + ([s] + o.broadcasts) == earlier + [s] + o.broadcasts;
  }

  // ---------- Every environment ----------

  /**
  At most three broadcasts; the error after the loop is unreachable; every broadcast
  but the last was a mismatch; and a retry signs with exactly the queried sequence.
   */
  lemma EveryCall(last: U64, env: Env)
    ensures |Call(last, env).broadcasts| <= 3
    ensures !Call(last, env).result.Exhausted?
    ensures var bs := Call(last, env).broadcasts;
            forall k :: 0 <= k < |bs| - 1 ==> Refusal(env.answer(k + 1, bs[k]))
    ensures var bs := Call(last, env).broadcasts;
            forall k :: 1 <= k < |bs| ==> env.query(k + 1) == Sequence(bs[k])
  {
    AttemptsRetry(last, env, 1);
    CacheAfterCall(last, env);
  }

  lemma {:induction false} AttemptsRetry(last: U64, env: Env, attempt: nat)
    requires 1 <= attempt <= MAX_ATTEMPTS
    ensures var bs := Attempts(last, env, attempt).broadcasts;
            && attempt + |bs| <= MAX_ATTEMPTS + 1
            && (bs != [] ==> env.query(attempt).Sequence? && bs[0] == Reconcile(last, env.query(attempt).value))
            && (forall k :: 0 <= k < |bs| - 1 ==> Refusal(env.answer(attempt + k, bs[k])))
            && (forall k :: 1 <= k < |bs| ==> env.query(attempt + k) == Sequence(bs[k]))
    decreases MAX_ATTEMPTS - attempt
  {
    var bs := Attempts(last, env, attempt).broadcasts;
    if attempt < MAX_ATTEMPTS && |bs| > 1 {
      AttemptsRetry(0, env, attempt + 1);
      var rest := Attempts(0, env, attempt + 1).broadcasts;
      assert bs == [bs[0]] + rest;
      hide Attempts;
      forall k | 1 <= k < |bs|
        ensures env.query(attempt + k) == Sequence(bs[k])
        ensures k < |bs| - 1 ==> Refusal(env.answer(attempt + k, bs[k]))
      {
        assert bs[k] == rest[k - 1];
        assert attempt + k == attempt + 1 + (k - 1);
      }
    }
  }

  /** Without a cache the chain's sequence is the larger one too: reconciling is the maximum. */
  lemma ReconcileIsMaximum(last: U64, chain: U64)
    ensures Reconcile(last, chain) == if last < chain then chain else last
  {
  }

  /** The first broadcast is the larger of the cache and the first queried sequence, and no broadcast lies below what its attempt queried. */
  lemma SequencesOfCall(last: U64, env: Env)
    ensures var bs := Call(last, env).broadcasts;
            bs != [] ==> && env.query(1).Sequence?
                         && bs[0] == if last < env.query(1).value then env.query(1).value else last
    ensures var bs := Call(last, env).broadcasts;
            forall k :: 0 <= k < |bs| ==> env.query(k + 1).Sequence? && bs[k] >= env.query(k + 1).value
  {
    AttemptsRetry(last, env, 1);
  }

  /** The last answer met by attempts that began with `first`. */
  function LastAnswer(o: Outcome, env: Env, first: nat): Answer
    requires o.broadcasts != []
  {
    var n := |o.broadcasts| - 1;
    env.answer(first + n, o.broadcasts[n])
  }

  ghost predicate Refusal(a: Answer)
  {
    a.MismatchCode? || a.MismatchError?
  }

  /** The last answer decides success, a failed transaction and a failed broadcast. */
  ghost predicate Explained(o: Outcome, env: Env, first: nat)
  {
    var sent := o.broadcasts != [];
    var third := first + |o.broadcasts| - 1 == MAX_ATTEMPTS;
    && (o.result.Success? <==> sent && LastAnswer(o, env, first).Accepted?)
    && (o.result.TxFailed? <==>
          sent && (LastAnswer(o, env, first).OtherCode? || (third && LastAnswer(o, env, first).MismatchCode?)))
    && (o.result.BroadcastFailed? <==>
          sent && (LastAnswer(o, env, first).TransportError? || (third && LastAnswer(o, env, first).MismatchError?)))
  }

  lemma {:induction false} AttemptsExplained(last: U64, env: Env, attempt: nat)
    requires 1 <= attempt <= MAX_ATTEMPTS
    ensures Explained(Attempts(last, env, attempt), env, attempt)
    decreases MAX_ATTEMPTS - attempt
  {
    var t := Try(last, env, attempt);
    if t.Retries? {
      assert Refusal(env.answer(attempt, t.sequence)) && attempt < MAX_ATTEMPTS;
      hide Try;
      AttemptsExplained(0, env, attempt + 1);
      RetryExplained(t.sequence, Attempts(0, env, attempt + 1), env, attempt);
    }
  }

  lemma RetryExplained(s: U64, o: Outcome, env: Env, first: nat)
    requires first < MAX_ATTEMPTS && Refusal(env.answer(first, s)) && Explained(o, env, first + 1)
    ensures Explained(Before(s, o), env, first)
  {
    var o' := Before(s, o);
    if o.broadcasts != [] {
      assert LastAnswer(o', env, first) == LastAnswer(o, env, first + 1);
    }
  }

  lemma ResultOfCall(last: U64, env: Env)
    ensures Explained(Call(last, env), env, 1)
  {
    AttemptsExplained(last, env, 1);
  }

  /** The cache that attempts leave, by their result, when they began with cache `last`. */
  ghost predicate Leaves(last: U64, o: Outcome, env: Env, first: nat)
  {
    // The failing attempt starts from the old cache, or from none after a mismatch.
    var kept := if o.broadcasts == [] then last else 0;
    var query := env.query(first + |o.broadcasts|);
    match o.result
    case Success => o.broadcasts != [] && o.last == Next(o.broadcasts[|o.broadcasts| - 1])
    case TxFailed => o.broadcasts != [] && o.last == Next(o.broadcasts[|o.broadcasts| - 1])
    case BroadcastFailed => o.broadcasts != [] && o.last == 0
    case WrapFailed => o.broadcasts == [] && o.last == last
    case BuildFailed => o.last == kept
    case EncodeFailed => query.Sequence? && o.last == Reconcile(kept, query.value)
    case SignFailed => o.last == if query.Sequence? then Reconcile(kept, query.value) else kept
    case Exhausted => false
  }

  lemma {:induction false} AttemptsLeave(last: U64, env: Env, attempt: nat)
    requires 1 <= attempt <= MAX_ATTEMPTS
    ensures Leaves(last, Attempts(last, env, attempt), env, attempt)
    ensures !Attempts(last, env, attempt).result.WrapFailed?
    decreases MAX_ATTEMPTS - attempt
  {
    var t := Try(last, env, attempt);
    if t.Retries? {
      assert attempt < MAX_ATTEMPTS;
      hide Try;
      AttemptsLeave(0, env, attempt + 1);
      RetryLeaves(last, t.sequence, Attempts(0, env, attempt + 1), env, attempt);
    }
  }

  lemma RetryLeaves(last: U64, s: U64, o: Outcome, env: Env, first: nat)
    requires Leaves(0, o, env, first + 1) && !o.result.WrapFailed?
    ensures Leaves(last, Before(s, o), env, first)
  {
    var o' := Before(s, o);
    assert first + |o'.broadcasts| == first + 1 + |o.broadcasts|;
    if o.broadcasts != [] {
      assert o'.broadcasts[|o'.broadcasts| - 1] == o.broadcasts[|o.broadcasts| - 1];
    }
  }

  lemma CacheAfterCall(last: U64, env: Env)
    ensures Leaves(last, Call(last, env), env, 1)
  {
    if env.wraps {
      AttemptsLeave(last, env, 1);
    }
  }

  /** Nothing goes wrong locally, every query answers, and three mismatches follow, the last one by code. */
  ghost predicate ThreeRefusals(last: U64, env: Env)
  {
    && env.wraps
    && (forall k :: 1 <= k <= 3 ==> env.fault(k).NoFault? && env.query(k).Sequence?)
    && Refusal(env.answer(1, Reconcile(last, env.query(1).value)))
    && Refusal(env.answer(2, env.query(2).value))
    && env.answer(3, env.query(3).value).MismatchCode?
  }

  /**
  A call counts a sequence that was refused as mismatched as consumed, and so caches the one after
  it, exactly when it meets three refusals and the last one is a code.
   */
  lemma RefusedSequenceCountedIff(last: U64, env: Env)
    ensures var o := Call(last, env);
            o.result.TxFailed? && o.broadcasts != [] && Refusal(LastAnswer(o, env, 1)) <==> ThreeRefusals(last, env)
    ensures ThreeRefusals(last, env) ==>
              Call(last, env) == Outcome(Next(env.query(3).value), TxFailed,
                                         [Reconcile(last, env.query(1).value), env.query(2).value, env.query(3).value])
  {
    ResultOfCall(last, env);
    var second, third := Attempts(0, env, 2), Attempts(0, env, 3);
    assert |third.broadcasts| <= 1;
    assert |second.broadcasts| <= 2;
    if ThreeRefusals(last, env) {
      assert third == Outcome(Next(env.query(3).value), TxFailed, [env.query(3).value]);
      assert second.broadcasts == [env.query(2).value, env.query(3).value];
    }
  }

  /** The attempt gets as far as a broadcast. */
  ghost predicate Ready(env: Env, attempt: nat)
  {
    env.fault(attempt).NoFault? && env.query(attempt).Sequence?
  }

  /** The first broadcast not refused for its sequence, or the third, is answered with a code. */
  ghost predicate EndsInCode(last: U64, env: Env)
  {
    && env.wraps && Ready(env, 1)
    && var first := env.answer(1, Reconcile(last, env.query(1).value));
       || first.OtherCode?
       || (&& Refusal(first) && Ready(env, 2)
           && var second := env.answer(2, env.query(2).value);
              || second.OtherCode?
              || (&& Refusal(second) && Ready(env, 3)
                  && var third := env.answer(3, env.query(3).value);
                     third.OtherCode? || third.MismatchCode?))
  }

  /**
  Broadcasts are synchronous, so a code means that the mempool did not take the broadcast. A call
  counts a sequence the mempool did not take as consumed, and caches the one after it, exactly when
  it ends in a code.
   */
  lemma UntakenSequenceCountedIff(last: U64, env: Env)
    ensures var o := Call(last, env);
            && (EndsInCode(last, env) <==>
                  && o.broadcasts != [] && !LastAnswer(o, env, 1).Accepted?
                  && (o.result.Success? || o.result.TxFailed?))
            && (EndsInCode(last, env) ==> o.last == Next(o.broadcasts[|o.broadcasts| - 1]))
    ensures ThreeRefusals(last, env) ==> EndsInCode(last, env)
  {
    ResultOfCall(last, env);
    CacheAfterCall(last, env);
    AttemptsEndInCode(last, env);
  }

  lemma AttemptsEndInCode(last: U64, env: Env)
    ensures Call(last, env).result.TxFailed? <==> EndsInCode(last, env)
  {
    var second, third := Attempts(0, env, 2), Attempts(0, env, 3);
    assert third.result.TxFailed? <==>
             Ready(env, 3) && var a := env.answer(3, env.query(3).value); a.OtherCode? || a.MismatchCode?;
    assert second.result.TxFailed? <==>
             && Ready(env, 2)
             && var a := env.answer(2, env.query(2).value);
                a.OtherCode? || (Refusal(a) && third.result.TxFailed?);
  }

  // ---------- A chain with a mempool ----------

  /** Committed sequence, mempool sequence and the signer's cache. */
  datatype Chain = Chain(committed: U64, mempool: U64, last: U64)

  ghost predicate Sound(st: Chain)
  {
    st.committed <= st.mempool
  }

  /** Accepts exactly the mempool sequence and reports anything else as a mismatch, either way. */
  ghost predicate AcceptsOnly(env: Env, m: U64)
  {
    forall k, s :: if s == m then env.answer(k, s).Accepted?
                   else env.answer(k, s).MismatchCode? || env.answer(k, s).MismatchError?
  }

  /** No local step fails. */
  ghost predicate Healthy(env: Env)
  {
    env.wraps && forall k :: env.fault(k).NoFault?
  }

  /** Nothing fails locally and queries answer some sequence of at most `m`. */
  ghost predicate QueriesUpTo(env: Env, m: U64)
  {
    Healthy(env) && forall k :: env.query(k).Sequence? && env.query(k).value <= m
  }

  ghost predicate QueriesExactly(env: Env, c: U64)
  {
    Healthy(env) && forall k :: env.query(k) == Sequence(c)
  }

  /** With the cache at the mempool sequence, a call signs with it and succeeds at once. */
  lemma SynchronizedCall(env: Env, m: U64)
    requires QueriesUpTo(env, m) && AcceptsOnly(env, m)
    ensures Call(m, env) == Outcome(Next(m), Success, [m])
  {
    assert env.query(1).Sequence?;
    assert env.answer(1, m).Accepted?;
  }

  /**
  Against a chain that keeps reporting `c` and accepts only `m`, a call succeeds exactly
  when the cache is already `m` or nothing is pending. A failed call leaves no cache when the
  third mismatch was an error, and `c + 1`, a sequence it did not consume, when it was a code.
   */
  lemma SucceedsIff(last: U64, env: Env, c: U64, m: U64)
    requires c <= m && QueriesExactly(env, c) && AcceptsOnly(env, m)
    ensures Call(last, env).result.Success? <==> last == m || c == m
    ensures Call(last, env).result.Success? ==>
              Call(last, env).last == Next(m) && |Call(last, env).broadcasts| <= 2
    ensures Call(last, env).result.Success? ==>
              (|Call(last, env).broadcasts| == 1 <==> last == m || last <= c)
    ensures !Call(last, env).result.Success? ==>
              && |Call(last, env).broadcasts| == 3
              && Call(last, env).last == if env.answer(3, c).MismatchCode? then Next(c) else 0
  {
    assert env.query(1) == env.query(2) == env.query(3) == Sequence(c);
    var s := Reconcile(last, c);
    assert Reconcile(0, c) == c;
    var third := Attempts(0, env, 3);
    var second := Attempts(0, env, 2);
    assert c != m ==> third.broadcasts == [c] && !third.result.Success?;
    assert second.broadcasts == if c == m then [c] else [c] + third.broadcasts;
  }

  /** Self-stabilization: with nothing pending, any cache recovers within two broadcasts. */
  lemma SelfStabilizes(last: U64, env: Env, c: U64)
    requires QueriesExactly(env, c) && AcceptsOnly(env, c)
    ensures Call(last, env).result.Success?
    ensures |Call(last, env).broadcasts| <= 2
    ensures Call(last, env).last == Next(c)
  {
    SucceedsIff(last, env, c, c);
  }

  // ---------- Runs ----------

  /** A block commits part of the mempool, or the signer makes a call. */
  datatype Event = Commit(upTo: U64) | Broadcast(env: Env)

  /** The events this chain allows when the signer is the only sender and nothing is evicted. */
  ghost predicate Allowed(st: Chain, ev: Event)
  {
    match ev
    case Commit(n) => st.committed <= n <= st.mempool
    case Broadcast(env) => QueriesUpTo(env, st.mempool) && AcceptsOnly(env, st.mempool) && st.mempool < 0xFFFF_FFFF_FFFF_FFFF
  }

  /** Every broadcast the chain accepts moves the mempool sequence on by one. */
  function Accepts(m: U64, bs: seq<U64>): U64
    decreases |bs|
  {
    if bs == [] then m else Accepts(if bs[0] == m then Next(m) else m, bs[1..])
  }

  function Step(st: Chain, ev: Event): Chain
  {
    match ev
    case Commit(n) => st.(committed := n)
    case Broadcast(env) =>
      var o := Call(st.last, env);
      st.(last := o.last, mempool := Accepts(st.mempool, o.broadcasts))
  }

  ghost predicate AllowedRun(st: Chain, run: seq<Event>)
    decreases |run|
  {
    run == [] || (Allowed(st, run[0]) && AllowedRun(Step(st, run[0]), run[1..]))
  }

  /** The sequences signed over a run. */
  function Signed(st: Chain, run: seq<Event>): seq<U64>
    decreases |run|
  {
    if run == [] then []
    else (if run[0].Broadcast? then Call(st.last, run[0].env).broadcasts else [])
         + Signed(Step(st, run[0]), run[1..])
  }

  function Final(st: Chain, run: seq<Event>): Chain
    decreases |run|
  {
    if run == [] then st else Final(Step(st, run[0]), run[1..])
  }

  function Calls(run: seq<Event>): nat
  {
    if run == [] then 0 else (if run[0].Broadcast? then 1 else 0) + Calls(run[1..])
  }

  /**
  Pipelining: from a cache equal to the mempool sequence, over any run of commits and
  calls with lagging queries, the calls sign m, m + 1, ... with no gap and no repeat, one
  broadcast each, and the cache stays equal to the mempool sequence.
   */
  lemma {:induction false} Pipelining(st: Chain, run: seq<Event>)
    requires Sound(st) && st.last == st.mempool && AllowedRun(st, run)
    ensures Sound(Final(st, run)) && Final(st, run).last == Final(st, run).mempool
    ensures Final(st, run).mempool == st.mempool + Calls(run)
    ensures |Signed(st, run)| == Calls(run)
    ensures forall k :: 0 <= k < |Signed(st, run)| ==> Signed(st, run)[k] == st.mempool + k
    decreases |run|
  {
    if run != [] {
      var st' := Step(st, run[0]);
      if run[0].Broadcast? {
        SynchronizedCall(run[0].env, st.mempool);
        assert Accepts(st.mempool, [st.mempool]) == Next(st.mempool);
      }
      Pipelining(st', run[1..]);
    }
  }

  /** Any cache, once nothing is pending and one query is exact, pipelines from then on. */
  lemma RecoversThenPipelines(st: Chain, env: Env, run: seq<Event>)
    requires st.committed == st.mempool < 0xFFFF_FFFF_FFFF_FFFF
    requires QueriesExactly(env, st.mempool) && AcceptsOnly(env, st.mempool)
    requires AllowedRun(Step(st, Broadcast(env)), run)
    ensures var final := Final(st, [Broadcast(env)] + run);
            final.last == final.mempool == st.mempool + 1 + Calls(run)
  {
    var st' := Step(st, Broadcast(env));
    SucceedsIff(st.last, env, st.mempool, st.mempool);
    OnlyLastAccepted(st.last, env, st.mempool);
    Pipelining(st', run);
    assert ([Broadcast(env)] + run)[1..] == run;
  }

  /** A call against such a chain moves the mempool on by exactly one. */
  lemma OnlyLastAccepted(last: U64, env: Env, m: U64)
    requires QueriesExactly(env, m) && AcceptsOnly(env, m)
    ensures Accepts(m, Call(last, env).broadcasts) == Next(m)
  {
    assert env.query(1) == env.query(2) == Sequence(m);
    var s := Reconcile(last, m);
    assert Attempts(0, env, 2) == Outcome(Next(m), Success, [m]);
    if s == m {
      assert Call(last, env).broadcasts == [m];
    } else {
      assert Call(last, env).broadcasts == [s, m];
      assert [s, m][1..] == [m];
    }
    assert Accepts(m, [m]) == Accepts(Next(m), []);
  }

  /** A chain that answers 5 to every query and refuses everything by code: 6 is cached. */
  lemma MismatchCanAdvanceCache()
    ensures var env := Env(true, _ => NoFault, _ => Sequence(5), (_, _) => MismatchCode);
            Call(0, env) == Outcome(6, TxFailed, [5, 5, 5])
  {
    var env := Env(true, _ => NoFault, _ => Sequence(5), (_, _) => MismatchCode);
    RefusedSequenceCountedIff(0, env);
  }

  /** A first broadcast of 5 answered with any other code leaves 6 cached. */
  lemma OtherCodeAdvancesCache()
    ensures var env := Env(true, _ => NoFault, _ => Sequence(5), (_, _) => OtherCode);
            Call(0, env) == Outcome(6, TxFailed, [5])
  {
  }

  /** Two transactions pending on 5, none cached: the chain would take 7, and the call fails on 5 three times. */
  lemma PendingCanDefeatCall()
    ensures var env := Env(true, _ => NoFault, _ => Sequence(5), (_, s) => if s == 7 then Accepted else MismatchError);
            Call(0, env).result.BroadcastFailed? && Call(0, env).last == 0
  {
    var env := Env(true, _ => NoFault, _ => Sequence(5), (_, s) => if s == 7 then Accepted else MismatchError);
    SucceedsIff(0, env, 5, 7);
    ResultOfCall(0, env);
    CacheAfterCall(0, env);
  }
}
