/**
Round-robin failover over a list of endpoints with a shared 32-bit counter.
 */
module RoundRobin {
  import opened Basics
  import opened Arithmetic

  const TWO32: nat := 0x1_0000_0000

  /** Answer of one endpoint. */
  datatype Reply<+T> = Ok(value: T) | Error(code: nat)

  /** Result of a call: a value, no endpoints, or the last error. */
  datatype Result<+T> = Value(value: T) | NoEndpoints | AllFailed(last: nat)

  /** The endpoint tried at step `i` of a call that starts at `start`. */
  function Endpoint(start: nat, i: nat, n: nat): (r: nat)
    requires n > 0
    ensures r < n
  {
    (start + i) % n
  }

  class Client {
    var rr: U32

    constructor ()
      ensures rr == 0
    {
      rr := 0;
    }

    /**
    Tries endpoints in cyclic order from the counter until one succeeds. The counter moves
    exactly once per call, and not at all when there is no endpoint.
     */
    method RetryWithRoundRobin<T>(numClients: nat, operation: nat -> Reply<T>)
      returns (result: Result<T>, tried: seq<nat>)
      modifies this
      ensures numClients == 0 ==> result.NoEndpoints? && tried == [] && rr == old(rr)
      ensures numClients > 0 ==> rr == (old(rr) + 1) % TWO32
      ensures numClients > 0 ==> |tried| <= numClients
      ensures numClients > 0 ==> tried != [] && tried[0] == old(rr) % numClients
      ensures numClients > 0 ==> forall i :: 0 < i < |tried| ==> tried[i] == (tried[i - 1] + 1) % numClients
      ensures result.Value? ==>
                tried != [] && operation(tried[|tried| - 1]) == Ok(result.value)
                && forall i :: 0 <= i < |tried| - 1 ==> operation(tried[i]).Error?
      ensures result.AllFailed? ==>
                numClients > 0 && |tried| == numClients && operation(tried[numClients - 1]) == Error(result.last)
                && forall i :: 0 <= i < |tried| ==> operation(tried[i]).Error?
      ensures numClients > 0 ==> (result.AllFailed? <==> forall j :: 0 <= j < numClients ==> operation(j).Error?)
    {
      tried := [];
      if numClients == 0 {
        return NoEndpoints, tried;
      }
      rr := (rr + 1) % TWO32;
      var start := (if rr == 0 then TWO32 - 1 else rr - 1) % numClients;
      assert start == old(rr) % numClients;
      hide Endpoint;
      var lastErr := 0;
      for i := 0 to numClients
        invariant |tried| == i
        invariant forall k :: 0 <= k < i ==> tried[k] == Endpoint(start, k, numClients)
        invariant forall k :: 0 <= k < i ==> operation(tried[k]).Error?
        invariant i > 0 ==> operation(tried[i - 1]) == Error(lastErr)
      {
        var idx := Endpoint(start, i, numClients);
        tried := tried + [idx];
        var reply := operation(idx);
        if reply.Ok? {
          CyclicFrom(tried, start, numClients);
          return Value(reply.value), tried;
        }
        lastErr := reply.code;
      }
      forall j | 0 <= j < numClients
        ensures operation(j).Error?
      {
        var i := EndpointReached(start, j, numClients);
        assert tried[i] == j;
      }
      CyclicFrom(tried, start, numClients);
      return AllFailed(lastErr), tried;
    }
  }

  // ---------- Completeness ----------

  /** The endpoints of a round follow one another cyclically from the start. */
  lemma CyclicFrom(tried: seq<nat>, start: nat, n: nat)
    requires n > 0 && start < n && forall k :: 0 <= k < |tried| ==> tried[k] == Endpoint(start, k, n)
    ensures tried != [] ==> tried[0] == start
    ensures forall k :: 0 < k < |tried| ==> tried[k] == (tried[k - 1] + 1) % n
  {
    SmallMod(start, n);
    forall k | 0 < k < |tried|
      ensures tried[k] == (tried[k - 1] + 1) % n
    {
      ModShift(start + (k - 1), 1, n);
    }
  }

  /** A full round visits every endpoint. */
  lemma EndpointReached(start: nat, j: nat, n: nat) returns (i: nat)
    requires n > 0 && j < n && start < n
    ensures i < n && Endpoint(start, i, n) == j
  {
    i := if j >= start then j - start else j + n - start;
    if j < start {
      Wraps(j, n);
    }
  }

  lemma Wraps(x: nat, n: nat)
    requires x < n
    ensures (x + n) % n == x
  {
    DivModUnique(x + n, 1, x, n);
  }

  /** No endpoint is visited twice within a round. */
  lemma EndpointsDistinct(start: nat, i: nat, j: nat, n: nat)
    requires n > 0 && start < n && i < j < n
    ensures Endpoint(start, i, n) != Endpoint(start, j, n)
  {
    SmallMod(start + i, n);
    SmallMod(start + j, n);
  }

  lemma SmallMod(x: nat, n: nat)
    requires n > 0 && x < 2 * n
    ensures x % n == if x < n then x else x - n
  {
    if x >= n {
      Wraps(x - n, n);
    }
  }

  // ---------- Fairness ----------

  /** Start of the call made when the counter reads `rr + i`, after any wrap of the counter. */
  function StartOf(rr: U32, i: nat, n: nat): nat
    requires n > 0
  {
    ((rr + i) % TWO32) % n
  }

  /** All n consecutive calls from `rr` start at different endpoints. */
  predicate Fair(rr: U32, n: nat)
    requires n > 0
  {
    forall i, j :: 0 <= i < j < n ==> StartOf(rr, i, n) != StartOf(rr, j, n)
  }

  lemma MultipleVanishes(q: nat, y: nat, n: nat)
    requires n > 0
    ensures (q * n + y) % n == y % n
  {
    var p, r := y / n, y % n;
    DivMod(y, n);
    assert q * n + p * n == (q + p) * n;
    DivModUnique(q * n + y, q + p, r, n);
  }

  lemma ModShift(x: nat, k: nat, n: nat)
    requires n > 0
    ensures (x + k) % n == (x % n + k) % n
  {
    var q := x / n;
    assert x == q * n + x % n;
    MultipleVanishes(q, x % n + k, n);
  }

  /** Without a wrap, consecutive starts walk round the endpoints. */
  lemma NoWrapIsFair(rr: U32, n: nat)
    requires n > 0 && rr + n <= TWO32
    ensures Fair(rr, n)
  {
    forall i, j | 0 <= i < j < n
      ensures StartOf(rr, i, n) != StartOf(rr, j, n)
    {
      SmallMod(rr + i, TWO32);
      SmallMod(rr + j, TWO32);
      StartsDistinct(rr, i, j, n);
    }
  }

  lemma StartsDistinct(rr: nat, i: nat, j: nat, n: nat)
    requires n > 0 && i < j < n
    ensures (rr + i) % n != (rr + j) % n
  {
    ModShift(rr, i, n);
    ModShift(rr, j, n);
    EndpointsDistinct(rr % n, i, j, n);
  }

  /** A counter period that is a multiple of n makes the wrap invisible. */
  lemma DividingPeriodIsFair(rr: U32, n: nat)
    requires n > 0 && TWO32 % n == 0
    ensures Fair(rr, n)
  {
    forall i, j | 0 <= i < j < n
      ensures StartOf(rr, i, n) != StartOf(rr, j, n)
    {
      InvisibleWrap(rr + i, n);
      InvisibleWrap(rr + j, n);
      StartsDistinct(rr, i, j, n);
    }
  }

  lemma InvisibleWrap(x: nat, n: nat)
    requires n > 0 && TWO32 % n == 0
    ensures (x % TWO32) % n == x % n
  {
    var q, r := x / TWO32, x % TWO32;
    var k := TWO32 / n;
    assert x == (q * k) * n + r by {
      assert TWO32 == k * n;
      assert q * TWO32 == q * (k * n) == (q * k) * n;
    }
    MultipleVanishes(q * k, r, n);
  }

  /** A visible wrap inside the n calls makes two of them start at the same endpoint. */
  lemma VisibleWrapIsUnfair(rr: U32, n: nat)
    requires 0 < n <= TWO32 && rr + n > TWO32 && TWO32 % n != 0
    ensures !Fair(rr, n)
  {
    var k := TWO32 - rr;
    var m := TWO32 % n;
    var i, j;
    if m - 1 <= n - k - 1 {
      // The last call before the wrap starts where a later one does.
      i, j := k - 1, k + m - 1;
      LastBeforeWrap(n);
    } else {
      i, j := n - 1 - m, n - 1;
      BeforeWrap(rr, k, m, n);
    }
    assert StartOf(rr, j, n) == j - k by {
      AfterWrap(rr, j, k, n);
    }
    assert StartOf(rr, i, n) == StartOf(rr, j, n);
  }

  lemma AfterWrap(rr: U32, j: nat, k: nat, n: nat)
    requires 0 < n <= TWO32 && k == TWO32 - rr && k <= j < n
    ensures StartOf(rr, j, n) == j - k
  {
    assert rr + j == TWO32 + (j - k);
    SmallMod(rr + j, TWO32);
    SmallMod(j - k, n);
  }

  lemma LastBeforeWrap(n: nat)
    requires n > 0 && TWO32 % n != 0
    ensures (TWO32 - 1) % n == TWO32 % n - 1
  {
    ModShift(TWO32 - 1, 1, n);
    SmallMod((TWO32 - 1) % n + 1, n);
  }

  /** The call n - 1 - m of the round lands on endpoint n - k - 1. */
  lemma BeforeWrap(rr: U32, k: nat, m: nat, n: nat)
    requires 0 < k < n <= TWO32 && k == TWO32 - rr && m == TWO32 % n && n - k < m
    ensures n - 1 - m < k && rr + (n - 1 - m) < TWO32
    ensures StartOf(rr, n - 1 - m, n) == n - k - 1
  {
    var x := rr + (n - 1 - m);
    SmallMod(x, TWO32);
    // x is n - k - 1 above a multiple of n, because TWO32 is m above one.
    var q := TWO32 / n;
    assert TWO32 == q * n + m;
    assert x == q * n + (n - k - 1);
    DivModUnique(x, q, n - k - 1, n);
  }

  /** n consecutive calls start at n different endpoints exactly when the counter does not wrap or n divides 2^32. */
  lemma FairIff(rr: U32, n: nat)
    requires n > 0
    ensures Fair(rr, n) <==> rr + n <= TWO32 || TWO32 % n == 0
  {
    if rr + n <= TWO32 {
      NoWrapIsFair(rr, n);
    } else if n > TWO32 {
      SmallMod(rr + TWO32, TWO32);
      SmallMod(rr, TWO32);
      SmallMod(TWO32, n);
      assert StartOf(rr, 0, n) == StartOf(rr, TWO32, n);
    } else if TWO32 % n == 0 {
      DividingPeriodIsFair(rr, n);
    } else {
      VisibleWrapIsUnfair(rr, n);
    }
  }

  /** Three endpoints and a counter about to wrap: the first two of three calls start at endpoint 0. */
  lemma WrapCanBeUnfair()
    ensures StartOf(0xFFFF_FFFF, 0, 3) == 0 == StartOf(0xFFFF_FFFF, 1, 3)
    ensures !Fair(0xFFFF_FFFF, 3)
  {
    FairIff(0xFFFF_FFFF, 3);
  }

  /**
  As many calls as there are endpoints, whatever each endpoint answers: their first endpoints are all
  different exactly when the counter does not wrap within them or n divides 2^32.
   */
  method CallEachOnce<T>(c: Client, numClients: nat, operation: nat -> Reply<T>) returns (starts: seq<nat>)
    requires numClients > 0
    modifies c
    ensures |starts| == numClients && c.rr == (old(c.rr) + numClients) % TWO32
    ensures (forall i, j :: 0 <= i < j < numClients ==> starts[i] != starts[j])
            <==> old(c.rr) + numClients <= TWO32 || TWO32 % numClients == 0
  {
    starts := [];
    SmallMod(c.rr, TWO32);
    ghost var rr0 := c.rr;
    for k := 0 to numClients
      invariant |starts| == k && c.rr == (rr0 + k) % TWO32
      invariant forall i :: 0 <= i < k ==> starts[i] == StartOf(rr0, i, numClients)
    {
      var _, tried := c.RetryWithRoundRobin(numClients, operation);
      starts := starts + [tried[0]];
      ModShift(rr0 + k, 1, TWO32);
    }
    FairIff(rr0, numClients);
    hide StartOf;
    assert Fair(rr0, numClients) <==> forall i, j :: 0 <= i < j < numClients ==> starts[i] != starts[j];
  }
}
