/**
The begin blocker of the uvalidator module over all denominations: coin sets, the
three module accounts, and the reward entries recorded with distribution.
 */
module RewardBoost {
  import opened RewardSplit

  type Denom = string

  /** Coin sets and decimal coin sets; an absent denomination counts as zero. */
  type Coins = map<Denom, nat>
  type DecCoins = map<Denom, nat>

  function Amount(c: map<Denom, nat>, d: Denom): nat
  {
    if d in c then c[d] else 0
  }

  predicate IsZero(c: Coins)
  {
    forall d :: d in c ==> c[d] == 0
  }

  function FromCoins(c: Coins): (r: DecCoins)
    ensures forall d :: Amount(r, d) == Amount(c, d) * ONE
  {
    map d | d in c :: c[d] * ONE
  }

  function MulDecTruncate(c: DecCoins, f: nat): (r: DecCoins)
    ensures forall d :: Amount(r, d) == MulTruncate(Amount(c, d), f)
  {
    map d | d in c :: MulTruncate(c[d], f)
  }

  function Add(a: map<Denom, nat>, b: map<Denom, nat>): (r: map<Denom, nat>)
    ensures forall d :: Amount(r, d) == Amount(a, d) + Amount(b, d)
  {
    map d | d in a.Keys + b.Keys :: Amount(a, d) + Amount(b, d)
  }

  function TruncateDecimal(a: DecCoins): (r: (Coins, DecCoins))
    ensures forall d :: Amount(r.0, d) == Amount(a, d) / ONE && Amount(r.1, d) == Amount(a, d) % ONE
  {
    (map d | d in a :: a[d] / ONE, map d | d in a :: a[d] % ONE)
  }

  predicate Covers(a: Coins, b: Coins)
  {
    forall d :: d in b ==> b[d] <= Amount(a, d)
  }

  /** Difference, and whether some denomination would go negative. */
  function SafeSub(a: Coins, b: Coins): (r: (Coins, bool))
    ensures r.1 <==> exists d :: Amount(a, d) < Amount(b, d)
    ensures !r.1 ==> forall d :: Amount(r.0, d) == Amount(a, d) - Amount(b, d)
  {
    var hasNeg := !Covers(a, b);
    assert hasNeg <==> exists d :: Amount(a, d) < Amount(b, d) by {
      if hasNeg {
        var d :| d in b && b[d] > Amount(a, d);
        assert Amount(a, d) < Amount(b, d);
      }
    }
    (map d | d in a :: if a[d] >= Amount(b, d) then a[d] - Amount(b, d) else 0, hasNeg)
  }

  datatype Account = FeeCollector | UValidator | Distribution

  datatype Status = Ok | Failed

  /** One call that credits a validator with decimal rewards. */
  datatype RewardEntry = RewardEntry(validator: string, reward: DecCoins)

  /** Sum of the recorded rewards in one denomination. */
  function Recorded(es: seq<RewardEntry>, d: Denom): nat
  {
    if es == [] then 0 else Amount(es[0].reward, d) + Recorded(es[1..], d)
  }

  lemma {:induction false} RecordedConcat(xs: seq<RewardEntry>, ys: seq<RewardEntry>, d: Denom)
    ensures Recorded(xs + ys, d) == Recorded(xs, d) + Recorded(ys, d)
  {
    if xs == [] {
      assert xs + ys == ys;
    } else {
      assert (xs + ys)[1..] == xs[1..] + ys;
      RecordedConcat(xs[1..], ys, d);
    }
  }

  predicate AllFound(votes: seq<Vote>)
  {
    forall v :: v in votes ==> !v.lookup.Missing?
  }

  /** Distribution accepts every boost. */
  predicate AllCredited(votes: seq<Vote>)
  {
    forall v :: v in votes && v.lookup.Universal? ==> v.lookup.credited
  }

  /** The entries a block records: one per universal validator, in vote order. */
  function Entries(fees: Coins, votes: seq<Vote>, e: nat): seq<RewardEntry>
    requires e > 0
  {
    if votes == [] then []
    else
      (if votes[0].lookup.Universal?
       then [RewardEntry(votes[0].validator, MulDecTruncate(FromCoins(fees), Fraction(votes[0], e)))]
       else [])
      + Entries(fees, votes[1..], e)
  }

  /** Each entry is the boost of its vote, exactly, in every denomination. */
  lemma EntryIsBoost(fees: Coins, v: Vote, e: nat, d: Denom)
    requires e > 0
    ensures Amount(MulDecTruncate(FromCoins(fees), Fraction(v, e)), d) == Boost(Amount(fees, d), v, e)
  {
    IntegerProductExact(Amount(fees, d), Fraction(v, e));
  }

  /** What a block records in a denomination is the total boost of that denomination. */
  lemma {:induction false} EntriesRecordBoosts(fees: Coins, votes: seq<Vote>, e: nat, d: Denom)
    requires e > 0
    ensures Recorded(Entries(fees, votes, e), d) == BoostTotal(Amount(fees, d), votes, e)
  {
    if votes != [] {
      EntriesRecordBoosts(fees, votes[1..], e, d);
      if votes[0].lookup.Universal? {
        EntryIsBoost(fees, votes[0], e, d);
        assert Entries(fees, votes, e)[1..] == Entries(fees, votes[1..], e);
      } else {
        assert Entries(fees, votes, e) == Entries(fees, votes[1..], e);
      }
    }
  }

  /** What the entries credit to one validator in one denomination. */
  function CreditedTo(es: seq<RewardEntry>, validator: string, d: Denom): nat
  {
    if es == [] then 0
    else (if es[0].validator == validator then Amount(es[0].reward, d) else 0) + CreditedTo(es[1..], validator, d)
  }

  predicate DistinctValidators(votes: seq<Vote>)
  {
    forall i, j :: 0 <= i < j < |votes| ==> votes[i].validator != votes[j].validator
  }

  /** Each validator of a vote is credited its own boost in every denomination; one without a vote, nothing. */
  lemma {:induction false} EntriesCredit(fees: Coins, votes: seq<Vote>, e: nat, d: Denom, validator: string)
    requires e > 0 && DistinctValidators(votes)
    ensures forall i :: 0 <= i < |votes| && votes[i].validator == validator ==>
              CreditedTo(Entries(fees, votes, e), validator, d)
              == if votes[i].lookup.Universal? then Boost(Amount(fees, d), votes[i], e) else 0
    ensures (forall i :: 0 <= i < |votes| ==> votes[i].validator != validator) ==>
              CreditedTo(Entries(fees, votes, e), validator, d) == 0
    decreases |votes|
  {
    if votes != [] {
      var rest := votes[1..];
      assert forall i :: 0 <= i < |rest| ==> rest[i] == votes[i + 1];
      EntriesCredit(fees, rest, e, d, validator);
      EntryIsBoost(fees, votes[0], e, d);
      EntriesStep(fees, votes, e, 0);
      assert votes[0..] == votes;
      hide Entries, Boost, MulDecTruncate, FromCoins;
      var tail := Entries(fees, rest, e);
      if votes[0].lookup.Universal? {
        var entry := RewardEntry(votes[0].validator, MulDecTruncate(FromCoins(fees), Fraction(votes[0], e)));
        assert Entries(fees, votes, e) == [entry] + tail;
        assert ([entry] + tail)[1..] == tail;
      }
      if votes[0].validator == validator {
        assert forall i :: 0 <= i < |rest| ==> rest[i].validator != validator;
      }
      forall i | 0 <= i < |votes| && votes[i].validator == validator
        ensures CreditedTo(Entries(fees, votes, e), validator, d)
                == if votes[i].lookup.Universal? then Boost(Amount(fees, d), votes[i], e) else 0
      {
        if i > 0 {
          assert rest[i - 1] == votes[i];
        }
      }
    }
  }

  lemma EntriesStep(fees: Coins, votes: seq<Vote>, e: nat, k: nat)
    requires e > 0 && k < |votes|
    ensures votes[k].lookup.Universal? ==>
              Entries(fees, votes[k..], e)
              == [RewardEntry(votes[k].validator, MulDecTruncate(FromCoins(fees), Fraction(votes[k], e)))]
                 + Entries(fees, votes[k + 1..], e)
    ensures !votes[k].lookup.Universal? ==>
              && Entries(fees, votes[k..], e) == Entries(fees, votes[k + 1..], e)
              && forall d :: BoostTotal(Amount(fees, d), votes[k..], e) == BoostTotal(Amount(fees, d), votes[k + 1..], e)
  {
    assert votes[k..][1..] == votes[k + 1..];
  }

  lemma EntriesEnd(fees: Coins, votes: seq<Vote>, e: nat)
    requires e > 0
    ensures Entries(fees, votes[|votes|..], e) == []
    ensures forall d :: BoostTotal(Amount(fees, d), votes[|votes|..], e) == 0
  {
  }

  /** A block adds the total boost to what is recorded, and its whole part is within the fees. */
  lemma AllotmentFits(fees: Coins, votes: seq<Vote>, before: seq<RewardEntry>)
    requires TotalPower(votes) > 0 && EffectiveTotal(votes) > 0
    ensures var e := EffectiveTotal(votes);
            forall d ::
              && Recorded(before + Entries(fees, votes, e), d) == Recorded(before, d) + BoostTotal(Amount(fees, d), votes, e)
              && BoostTotal(Amount(fees, d), votes, e) / ONE <= Amount(fees, d)
  {
    hide EffectiveTotal, TotalPower, BoostTotal, Recorded, Entries;
    var e := EffectiveTotal(votes);
    forall d
      ensures Recorded(before + Entries(fees, votes, e), d) == Recorded(before, d) + BoostTotal(Amount(fees, d), votes, e)
      ensures BoostTotal(Amount(fees, d), votes, e) / ONE <= Amount(fees, d)
    {
      RecordedConcat(before, Entries(fees, votes, e), d);
      EntriesRecordBoosts(fees, votes, e, d);
      BoostBound(Amount(fees, d), votes);
    }
  }

  class Ledger {
    var balances: map<Account, Coins>
    var entries: seq<RewardEntry>

    ghost predicate Valid()
      reads this
    {
      forall a: Account :: a in balances
    }

    function Balance(a: Account, d: Denom): nat
      requires Valid()
      reads this
    {
      Amount(balances[a], d)
    }

    /** A bank send between module accounts: all of it, or nothing when funds are short. */
    method Send(from: Account, to: Account, coins: Coins) returns (s: Status)
      requires Valid() && from != to
      modifies this`balances
      ensures Valid()
      ensures s.Ok? <==> forall d :: Amount(coins, d) <= old(Balance(from, d))
      ensures s.Failed? ==> balances == old(balances)
      ensures s.Ok? ==> forall d ::
                && Balance(from, d) == old(Balance(from, d)) - Amount(coins, d)
                && Balance(to, d) == old(Balance(to, d)) + Amount(coins, d)
      ensures forall a :: a != from && a != to ==> balances[a] == old(balances[a])
    {
      hide SafeSub, Add, Amount;
      var (rest, hasNeg) := SafeSub(balances[from], coins);
      if hasNeg {
        return Failed;
      }
      var more := Add(balances[to], coins);
      balances := balances[from := rest][to := more];
      return Ok;
    }

    /** The first loop: power of every vote, boosted for universal validators. */
    static method EffectivePower(votes: seq<Vote>) returns (s: Status, e: nat)
      ensures s.Ok? <==> AllFound(votes)
      ensures s.Ok? ==> e == EffectiveTotal(votes)
    {
      e := 0;
      for k := 0 to |votes|
        invariant AllFound(votes[..k])
        invariant e + EffectiveTotal(votes[k..]) == EffectiveTotal(votes)
      {
        var vote := votes[k];
        if vote.lookup.Missing? {
          assert vote in votes;
          return Failed, 0;
        }
        var power := vote.power * ONE;
        if vote.lookup.Universal? {
          IntegerProductExact(vote.power, MULTIPLIER);
          power := Mul(power, MULTIPLIER);
        }
        assert votes[k..][1..] == votes[k + 1..];
        assert votes[..k + 1] == votes[..k] + [vote];
        e := e + power;
      }
      assert votes[..|votes|] == votes;
      return Ok, e;
    }

    /** The second loop: record each universal validator's boost and sum them, up to the first refusal. */
    method RecordBoosts(votes: seq<Vote>, fees: Coins, e: nat) returns (s: Status, allotted: DecCoins)
      requires e > 0 && AllFound(votes)
      modifies this`entries
      ensures s.Ok? <==> AllCredited(votes)
      ensures old(entries) <= entries <= old(entries) + Entries(fees, votes, e)
      ensures s.Ok? ==> entries == old(entries) + Entries(fees, votes, e)
      ensures s.Ok? ==> forall d :: Amount(allotted, d) == BoostTotal(Amount(fees, d), votes, e)
    {
      hide Entries, BoostTotal, FromCoins, MulDecTruncate;
      var feesCollected := FromCoins(fees);
      allotted := map[];
      ghost var done: seq<RewardEntry> := [];
      for k := 0 to |votes|
        invariant AllCredited(votes[..k])
        invariant entries == old(entries) + done
        invariant done + Entries(fees, votes[k..], e) == Entries(fees, votes, e)
        invariant forall d :: Amount(allotted, d) + BoostTotal(Amount(fees, d), votes[k..], e)
                              == BoostTotal(Amount(fees, d), votes, e)
      {
        var vote := votes[k];
        assert votes[..k + 1] == votes[..k] + [vote];
        ghost var rest := Entries(fees, votes[k + 1..], e);
        EntriesStep(fees, votes, e, k);
        if vote.lookup.Universal? {
          IntegerProductExact(vote.power, EXTRA);
          var power := Mul(vote.power * ONE, EXTRA);
          var powerFraction := QuoTruncate(power, e);
          var reward := MulDecTruncate(feesCollected, powerFraction);
          if !vote.lookup.credited {
            assert vote in votes;
            assert old(entries) + Entries(fees, votes, e) == entries + Entries(fees, votes[k..], e);
            return Failed, allotted;
          }
          ghost var entry := RewardEntry(vote.validator, reward);
          assert done + ([entry] + rest) == (done + [entry]) + rest;
          entries := entries + [RewardEntry(vote.validator, reward)];
          done := done + [entry];
          allotted := AddReward(fees, vote, e, allotted, reward, votes, k);
        }
      }
      assert votes[..|votes|] == votes;
      EntriesEnd(fees, votes, e);
      assert done + [] == done;
      return Ok, allotted;
    }

    static method AddReward(fees: Coins, ghost vote: Vote, ghost e: nat, allotted: DecCoins, reward: DecCoins,
                            ghost votes: seq<Vote>, ghost k: nat)
      returns (sum: DecCoins)
      requires e > 0 && k < |votes| && vote == votes[k] && vote.lookup.Universal?
      requires reward == MulDecTruncate(FromCoins(fees), Fraction(vote, e))
      ensures forall d :: Amount(sum, d) + BoostTotal(Amount(fees, d), votes[k + 1..], e)
                          == Amount(allotted, d) + BoostTotal(Amount(fees, d), votes[k..], e)
    {
      sum := Add(allotted, reward);
      forall d
        ensures Amount(sum, d) + BoostTotal(Amount(fees, d), votes[k + 1..], e)
                == Amount(allotted, d) + BoostTotal(Amount(fees, d), votes[k..], e)
      {
        EntryIsBoost(fees, vote, e, d);
        assert votes[k..][1..] == votes[k + 1..];
      }
    }

    /**
    Takes the fees, records the boosts, sends their whole part to distribution and
    gives everything else back. No send can fail, the clamp on a negative remainder is
    never taken, and the fractional change never alters what is returned.
     */
    method AllocateTokens(votes: seq<Vote>) returns (s: Status)
      requires Valid() && TotalPower(votes) > 0
      modifies this
      ensures Valid()
      ensures s.Ok? <==> old(IsZero(balances[FeeCollector])) || (AllFound(votes) && AllCredited(votes))
      ensures s.Ok? ==> EffectiveTotal(votes) > 0
      ensures s.Ok? ==> forall d ::
                && Balance(FeeCollector, d) == Returned(old(Balance(FeeCollector, d)), votes)
                && Balance(Distribution, d) == old(Balance(Distribution, d)) + Sent(old(Balance(FeeCollector, d)), votes)
                && Balance(UValidator, d) == old(Balance(UValidator, d))
      ensures s.Ok? && !old(IsZero(balances[FeeCollector])) ==>
                entries == old(entries) + Entries(old(balances[FeeCollector]), votes, EffectiveTotal(votes))
      ensures s.Ok? ==> forall d ::
                Recorded(entries, d)
                == old(Recorded(entries, d)) + BoostTotal(old(Balance(FeeCollector, d)), votes, EffectiveTotal(votes))
      ensures s.Failed? ==> old(entries) <= entries
      ensures s.Failed? && !AllFound(votes) ==> entries == old(entries)
      ensures s.Failed? ==> forall d ::
                && Balance(FeeCollector, d) == 0
                && Balance(UValidator, d) == old(Balance(UValidator, d)) + old(Balance(FeeCollector, d))
                && Balance(Distribution, d) == old(Balance(Distribution, d))
    {
      PositivePowerDivides(votes);
      hide EffectiveTotal, TotalPower, BoostTotal, Recorded, Entries, AllFound, AllCredited;
      var fees := balances[FeeCollector];
      if IsZero(fees) {
        NoFeesNoBoost(votes, EffectiveTotal(votes));
        assert forall d :: Amount(fees, d) == 0;
        return Ok;
      }
      var sent := Send(FeeCollector, UValidator, fees);
      assert sent.Ok?;
      var found, e := EffectivePower(votes);
      if found.Failed? {
        return Failed;
      }
      s := Distribute(votes, fees, e);
    }

    /** Records the boosts and settles the fees, which the uvalidator account holds. */
    method Distribute(votes: seq<Vote>, fees: Coins, e: nat) returns (s: Status)
      requires Valid() && TotalPower(votes) > 0 && AllFound(votes) && e == EffectiveTotal(votes) > 0
      requires forall d :: Amount(fees, d) <= Balance(UValidator, d)
      modifies this
      ensures Valid()
      ensures s.Ok? <==> AllCredited(votes)
      ensures old(entries) <= entries
      ensures s.Failed? ==> balances == old(balances)
      ensures s.Ok? ==> entries == old(entries) + Entries(fees, votes, e)
      ensures s.Ok? ==> forall d ::
                && Recorded(entries, d) == old(Recorded(entries, d)) + BoostTotal(Amount(fees, d), votes, e)
                && Balance(UValidator, d) == old(Balance(UValidator, d)) - Amount(fees, d)
                && Balance(Distribution, d) == old(Balance(Distribution, d)) + Sent(Amount(fees, d), votes)
                && Balance(FeeCollector, d) == old(Balance(FeeCollector, d)) + Returned(Amount(fees, d), votes)
    {
      hide EffectiveTotal, TotalPower, BoostTotal, Recorded, Entries, AllFound, AllCredited, Amount;
      AllotmentFits(fees, votes, entries);
      var recorded, allotted := RecordBoosts(votes, fees, e);
      if recorded.Failed? {
        return Failed;
      }
      var extraCoins, remainingFinal := Split(fees, allotted);
      s := Settle(fees, extraCoins, remainingFinal);
    }

    /** Whole boost coins, and the remainder with the fractional change added back and truncated. */
    static method Split(fees: Coins, allotted: DecCoins) returns (extraCoins: Coins, remainingFinal: Coins)
      requires forall d :: Amount(allotted, d) / ONE <= Amount(fees, d)
      ensures forall d :: Amount(extraCoins, d) == Amount(allotted, d) / ONE
      ensures forall d :: Amount(extraCoins, d) + Amount(remainingFinal, d) == Amount(fees, d)
    {
      var extraChange: DecCoins, remainingCoins: Coins, hasNeg;
      var truncated := TruncateDecimal(allotted);
      extraCoins, extraChange := truncated.0, truncated.1;
      var diff := SafeSub(fees, extraCoins);
      remainingCoins, hasNeg := diff.0, diff.1;
      if hasNeg {
        remainingCoins := map[];
      }
      var remainingDec := FromCoins(remainingCoins);
      remainingDec := Add(remainingDec, extraChange);
      remainingFinal := TruncateDecimal(remainingDec).0;
      forall d
        ensures Amount(extraCoins, d) + Amount(remainingFinal, d) == Amount(fees, d)
      {
        ChangeNeverCounts(Amount(remainingCoins, d), Amount(extraChange, d));
      }
    }

    /** Forwards the boost coins to distribution and the rest to the fee collector. */
    method Settle(fees: Coins, extraCoins: Coins, remainingFinal: Coins) returns (s: Status)
      requires Valid()
      requires forall d :: Amount(extraCoins, d) + Amount(remainingFinal, d) == Amount(fees, d)
      requires forall d :: Amount(fees, d) <= Balance(UValidator, d)
      modifies this`balances
      ensures Valid() && s.Ok?
      ensures forall d ::
                && Balance(UValidator, d) == old(Balance(UValidator, d)) - Amount(fees, d)
                && Balance(Distribution, d) == old(Balance(Distribution, d)) + Amount(extraCoins, d)
                && Balance(FeeCollector, d) == old(Balance(FeeCollector, d)) + Amount(remainingFinal, d)
    {
      if !IsZero(extraCoins) {
        s := Send(UValidator, Distribution, extraCoins);
        if s.Failed? {
          return;
        }
      }
      if !IsZero(remainingFinal) {
        s := Send(UValidator, FeeCollector, remainingFinal);
        if s.Failed? {
          return;
        }
      }
      return Ok;
    }

    /** Skips blocks without voting power, and the first block. */
    method BeginBlocker(height: nat, votes: seq<Vote>) returns (s: Status)
      requires Valid()
      modifies this
      ensures Valid()
      ensures TotalPower(votes) == 0 || height <= 1 ==> s.Ok? && balances == old(balances) && entries == old(entries)
      ensures forall d :: Balance(FeeCollector, d) + Balance(UValidator, d) + Balance(Distribution, d)
                          == old(Balance(FeeCollector, d)) + old(Balance(UValidator, d)) + old(Balance(Distribution, d))
      ensures s.Ok? <==>
              || TotalPower(votes) == 0 || height <= 1 || old(IsZero(balances[FeeCollector]))
              || (AllFound(votes) && AllCredited(votes))
      ensures s.Ok? && TotalPower(votes) > 0 && height > 1 ==> EffectiveTotal(votes) > 0
      ensures s.Ok? && TotalPower(votes) > 0 && height > 1 ==> forall d ::
                && Balance(FeeCollector, d) == Returned(old(Balance(FeeCollector, d)), votes)
                && Balance(Distribution, d) == old(Balance(Distribution, d)) + Sent(old(Balance(FeeCollector, d)), votes)
                && Recorded(entries, d)
                   == old(Recorded(entries, d)) + BoostTotal(old(Balance(FeeCollector, d)), votes, EffectiveTotal(votes))
      ensures s.Ok? && TotalPower(votes) > 0 && height > 1 && !old(IsZero(balances[FeeCollector])) ==>
                entries == old(entries) + Entries(old(balances[FeeCollector]), votes, EffectiveTotal(votes))
      ensures s.Ok? ==> forall d ::
                && Recorded(entries, d) == old(Recorded(entries, d)) + BlockRecorded(old(Balance(FeeCollector, d)), height, votes)
                && Balance(Distribution, d) == old(Balance(Distribution, d)) + BlockSent(old(Balance(FeeCollector, d)), height, votes)
      ensures s.Ok? ==> forall d ::
                && Balance(UValidator, d) == old(Balance(UValidator, d))
                && 0 <= Unbacked(old(entries), entries, d, old(Balance(Distribution, d)), Balance(Distribution, d)) < ONE
    {
      var previousTotalPower := 0;
      for k := 0 to |votes|
        invariant previousTotalPower + TotalPower(votes[k..]) == TotalPower(votes)
      {
        assert votes[k..][1..] == votes[k + 1..];
        previousTotalPower := previousTotalPower + votes[k].power;
      }
      assert votes[|votes|..] == [];
      if previousTotalPower == 0 {
        return Ok;
      }
      if height > 1 {
        s := AllocateTokens(votes);
        if s.Ok? {
          forall d {
            BackingGap(old(Balance(FeeCollector, d)), votes);
          }
        }
        return s;
      }
      return Ok;
    }

    /** Fees and block rewards that reach the fee collector between two blocks. */
    method Receive(income: Coins)
      requires Valid()
      modifies this`balances
      ensures Valid()
      ensures forall d :: Balance(FeeCollector, d) == old(Balance(FeeCollector, d)) + Amount(income, d)
      ensures forall a :: a != FeeCollector ==> balances[a] == old(balances[a])
    {
      var more := Add(balances[FeeCollector], income);
      balances := balances[FeeCollector := more];
    }

    /** The distribution module's own turn, which takes all that is left in the fee collector. */
    method Sweep()
      requires Valid()
      modifies this`balances
      ensures Valid() && balances[UValidator] == old(balances[UValidator])
      ensures forall d :: Balance(FeeCollector, d) == 0
      ensures forall d :: Balance(Distribution, d) == old(Balance(Distribution, d)) + old(Balance(FeeCollector, d))
    {
      var s := Send(FeeCollector, Distribution, balances[FeeCollector]);
    }

    /** One block: income, this module's begin blocker, then distribution's. */
    method RunBlock(b: Block) returns (s: Status)
      requires Valid()
      modifies this
      ensures Valid()
      ensures AllFound(b.votes) && AllCredited(b.votes) ==> s.Ok?
      ensures s.Ok? ==> forall d ::
                var fees := old(Balance(FeeCollector, d)) + Amount(b.income, d);
                && Recorded(entries, d) == old(Recorded(entries, d)) + BlockRecorded(fees, b.height, b.votes)
                && Balance(Distribution, d)
                   == old(Balance(Distribution, d)) + BlockSent(fees, b.height, b.votes) + BlockSwept(fees, b)
                && Balance(UValidator, d) == old(Balance(UValidator, d))
                && Balance(FeeCollector, d) == if b.height > 1 then 0 else fees
    {
      hide Recorded, BlockRecorded, BlockSent, AllFound, AllCredited, Amount, Unbacked;
      Receive(b.income);
      s := BeginBlocker(b.height, b.votes);
      if s.Ok? && b.height > 1 {
        Sweep();
      }
    }

    /**
    Any number of blocks with any income between them, up to the first that fails. Recorded rewards,
    together with the coins distribution swept and allots itself, lead the coins it received by at
    least 0 and less than one base unit per block.
     */
    method RunBlocks(blocks: seq<Block>) returns (s: Status)
      requires Valid()
      modifies this
      ensures Valid()
      ensures (forall b :: b in blocks ==> AllFound(b.votes) && AllCredited(b.votes)) ==> s.Ok?
      ensures s.Ok? ==> forall d ::
                && Recorded(entries, d) == old(Recorded(entries, d)) + RunRecorded(old(Balance(FeeCollector, d)), blocks, d)
                && Balance(Distribution, d)
                   == old(Balance(Distribution, d)) + RunSent(old(Balance(FeeCollector, d)), blocks, d)
                    + RunSwept(old(Balance(FeeCollector, d)), blocks, d)
                && Balance(UValidator, d) == old(Balance(UValidator, d))
      ensures s.Ok? ==> forall d ::
                var gap := Unbacked(old(entries), entries, d, old(Balance(Distribution, d)), Balance(Distribution, d))
                           + ONE * RunSwept(old(Balance(FeeCollector, d)), blocks, d);
                0 <= gap && (blocks != [] ==> gap < ONE * |blocks|)
    {
      hide Recorded, AllFound, AllCredited, BlockRecorded, BlockSent, BlockSwept, Amount;
      for k := 0 to |blocks|
        invariant Valid()
        invariant forall d ::
                    && Recorded(entries, d) + RunRecorded(Balance(FeeCollector, d), blocks[k..], d)
                       == old(Recorded(entries, d)) + RunRecorded(old(Balance(FeeCollector, d)), blocks, d)
                    && Balance(Distribution, d) + RunSent(Balance(FeeCollector, d), blocks[k..], d)
                       + RunSwept(Balance(FeeCollector, d), blocks[k..], d)
                       == old(Balance(Distribution, d)) + RunSent(old(Balance(FeeCollector, d)), blocks, d)
                        + RunSwept(old(Balance(FeeCollector, d)), blocks, d)
                    && Balance(UValidator, d) == old(Balance(UValidator, d))
      {
        assert blocks[k] in blocks && blocks[k..][1..] == blocks[k + 1..];
        s := RunBlock(blocks[k]);
        if s.Failed? {
          return;
        }
      }
      assert blocks[|blocks|..] == [];
      s := Ok;
      forall d
        ensures 0 <= Unbacked(old(entries), entries, d, old(Balance(Distribution, d)), Balance(Distribution, d))
                     + ONE * RunSwept(old(Balance(FeeCollector, d)), blocks, d)
        ensures blocks != [] ==>
                  Unbacked(old(entries), entries, d, old(Balance(Distribution, d)), Balance(Distribution, d))
                  + ONE * RunSwept(old(Balance(FeeCollector, d)), blocks, d) < ONE * |blocks|
      {
        BackingGapOverRun(old(Balance(FeeCollector, d)), blocks, d);
      }
    }
  }

  /** Rewards recorded between two states, less the coins distribution received, as a decimal. */
  ghost function Unbacked(before: seq<RewardEntry>, after: seq<RewardEntry>, d: Denom, had: nat, has: nat): int
  {
    (Recorded(after, d) - Recorded(before, d)) - ONE * (has - had)
  }

  lemma {:induction false} NoFeesNoBoost(votes: seq<Vote>, e: nat)
    requires e > 0
    ensures BoostTotal(0, votes, e) == 0
  {
    if votes != [] {
      NoFeesNoBoost(votes[1..], e);
    }
  }

  /** A fraction below one unit disappears in the truncation. */
  lemma ChangeNeverCounts(n: nat, change: nat)
    requires change < ONE
    ensures (n * ONE + change) / ONE == n
  {
  }

  // ---------- Blocks and runs, one denomination at a time ----------

  /** The begin blocker allocates: there is voting power, and this is not the first block. */
  predicate Active(height: nat, votes: seq<Vote>)
  {
    TotalPower(votes) > 0 && height > 1
  }

  function BlockRecorded(fees: nat, height: nat, votes: seq<Vote>): nat
  {
    if Active(height, votes) then PositivePowerDivides(votes); BoostTotal(fees, votes, EffectiveTotal(votes)) else 0
  }

  function BlockSent(fees: nat, height: nat, votes: seq<Vote>): nat
  {
    if Active(height, votes) then PositivePowerDivides(votes); Sent(fees, votes) else 0
  }

  /** A block of a run: what reaches the fee collector before it, its height and the votes. */
  datatype Block = Block(income: Coins, height: nat, votes: seq<Vote>)

  /** What distribution takes from the fee collector in its turn, after the first block. */
  function BlockSwept(fees: nat, b: Block): int
  {
    if b.height > 1 then fees - BlockSent(fees, b.height, b.votes) else 0
  }

  function FeesLeft(fees: nat, b: Block): nat
  {
    if b.height > 1 then 0 else fees
  }

  /** Rewards recorded over a run that starts with `fees` in the fee collector. */
  function RunRecorded(fees: nat, blocks: seq<Block>, d: Denom): nat
    decreases |blocks|
  {
    if blocks == [] then 0
    else
      var b := blocks[0];
      var f := fees + Amount(b.income, d);
      BlockRecorded(f, b.height, b.votes) + RunRecorded(FeesLeft(f, b), blocks[1..], d)
  }

  /** Coins sent to distribution over the run. */
  function RunSent(fees: nat, blocks: seq<Block>, d: Denom): nat
    decreases |blocks|
  {
    if blocks == [] then 0
    else
      var b := blocks[0];
      var f := fees + Amount(b.income, d);
      BlockSent(f, b.height, b.votes) + RunSent(FeesLeft(f, b), blocks[1..], d)
  }

  /** Coins distribution swept over the run. */
  function RunSwept(fees: nat, blocks: seq<Block>, d: Denom): int
    decreases |blocks|
  {
    if blocks == [] then 0
    else
      var b := blocks[0];
      var f := fees + Amount(b.income, d);
      BlockSwept(f, b) + RunSwept(FeesLeft(f, b), blocks[1..], d)
  }

  /** After k blocks recorded rewards lead the coins sent by less than k base units. */
  lemma {:induction false} BackingGapOverRun(fees: nat, blocks: seq<Block>, d: Denom)
    ensures 0 <= RunRecorded(fees, blocks, d) - ONE * RunSent(fees, blocks, d)
    ensures blocks != [] ==> RunRecorded(fees, blocks, d) - ONE * RunSent(fees, blocks, d) < ONE * |blocks|
    decreases |blocks|
  {
    if blocks != [] {
      var b := blocks[0];
      var f := fees + Amount(b.income, d);
      if Active(b.height, b.votes) {
        PositivePowerDivides(b.votes);
        BackingGap(f, b.votes);
      }
      BackingGapOverRun(FeesLeft(f, b), blocks[1..], d);
    }
  }
}
