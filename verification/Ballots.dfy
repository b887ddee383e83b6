/**
Ballots of the universal validators: votes, quorum and the ways a ballot can end.
 */
module Ballots {
  import opened Basics

  datatype VoteResult = NotYetVoted | Success | Failure

  datatype Status = Pending | Passed | Rejected | Expired

  datatype Ballot = Ballot(
    voters: seq<string>,
    votes: seq<VoteResult>,
    threshold: int,
    status: Status,
    created: int,
    expiry: int)

  datatype Refusal = NotPending | LateVote | NotEligible | AlreadyVoted

  datatype Cast = Recorded(ballot: Ballot) | Refused(reason: Refusal)

  ghost predicate Valid(b: Ballot)
  {
    |b.votes| == |b.voters|
  }

  /** First position of an address among the voters, or none. */
  function VoterIndex(voters: seq<string>, address: string): (r: Option<nat>)
    ensures r.None? <==> address !in voters
    ensures r.Some? ==> r.value < |voters| && voters[r.value] == address
    ensures r.Some? ==> forall k :: 0 <= k < r.value ==> voters[k] != address
  {
    if voters == [] then None
    else if voters[0] == address then Some(0)
    else
      match VoterIndex(voters[1..], address)
      case None => None
      case Some(k) => Some(k + 1)
  }

  /** Records a vote of an eligible voter who has not voted, on a pending ballot. */
  function AddVote(b: Ballot, address: string, vote: VoteResult): Cast
    requires Valid(b)
  {
    if !b.status.Pending? then Refused(NotPending)
    else
      match VoterIndex(b.voters, address)
      case None => Refused(NotEligible)
      case Some(k) =>
        if b.votes[k] != NotYetVoted then Refused(AlreadyVoted) else Recorded(b.(votes := b.votes[k := vote]))
  }

  function Count(votes: seq<VoteResult>, v: VoteResult): nat
  {
    if votes == [] then 0 else (if votes[0] == v then 1 else 0) + Count(votes[1..], v)
  }

  /** The status a pending ballot takes when its votes are counted; YES is looked at first. */
  function Decide(b: Ballot): Status
  {
    if !b.status.Pending? then b.status
    else if Count(b.votes, Success) >= b.threshold then Passed
    else if Count(b.votes, Failure) >= b.threshold then Rejected
    else Pending
  }

  /** The counting loop. */
  method CountVotes(votes: seq<VoteResult>) returns (yes: nat, no: nat)
    ensures yes == Count(votes, Success) && no == Count(votes, Failure)
  {
    yes, no := 0, 0;
    for k := 0 to |votes|
      invariant yes + Count(votes[k..], Success) == Count(votes, Success)
      invariant no + Count(votes[k..], Failure) == Count(votes, Failure)
    {
      assert votes[k..][1..] == votes[k + 1..];
      match votes[k] {
        case Success => yes := yes + 1;
        case Failure => no := no + 1;
        case NotYetVoted =>
      }
    }
    assert votes[|votes|..] == [];
  }

  /** More than two thirds of n voters. */
  function Quorum(n: nat): nat
  {
    2 * n / 3 + 1
  }

  /** The quorum is the least number above two thirds. */
  lemma QuorumIsLeast(n: nat)
    ensures 3 * Quorum(n) > 2 * n && 3 * (Quorum(n) - 1) <= 2 * n
  {
  }

  // ---------- Counting ----------

  lemma {:induction false} CountUpdate(votes: seq<VoteResult>, k: nat, w: VoteResult, v: VoteResult)
    requires k < |votes|
    ensures Count(votes[k := w], v)
            == Count(votes, v) - (if votes[k] == v then 1 else 0) + (if w == v then 1 else 0)
  {
    if k == 0 {
      assert votes[k := w][1..] == votes[1..];
    } else {
      assert votes[k := w][1..] == votes[1..][k - 1 := w];
      CountUpdate(votes[1..], k - 1, w, v);
    }
  }

  lemma {:induction false} CountsCover(votes: seq<VoteResult>)
    ensures Count(votes, Success) + Count(votes, Failure) + Count(votes, NotYetVoted) == |votes|
  {
    if votes != [] {
      CountsCover(votes[1..]);
    }
  }

  lemma {:induction false} FindVote(votes: seq<VoteResult>, v: VoteResult) returns (k: nat)
    requires Count(votes, v) > 0
    ensures k < |votes| && votes[k] == v
  {
    if votes[0] == v {
      k := 0;
    } else {
      k := FindVote(votes[1..], v);
      k := k + 1;
    }
  }

  lemma {:induction false} CountPositive(votes: seq<VoteResult>, k: nat)
    requires k < |votes|
    ensures Count(votes, votes[k]) > 0
  {
    if k > 0 {
      CountPositive(votes[1..], k - 1);
    }
  }

  // ---------- Quorum ----------

  /** The two thresholds in use, two thirds and everyone, are both at least a quorum. */
  lemma EveryoneIsAQuorum(n: nat)
    requires n > 0
    ensures Quorum(n) <= n
    ensures Quorum(n) == n <==> n <= 3
  {
  }

  /** A quorum cannot be reached for both outcomes. */
  lemma NeverBoth(b: Ballot)
    requires Valid(b) && b.threshold >= Quorum(|b.voters|)
    ensures !(Count(b.votes, Success) >= b.threshold && Count(b.votes, Failure) >= b.threshold)
  {
    CountsCover(b.votes);
  }

  /** Voters who said yes on both ballots. */
  function CountBoth(x: seq<VoteResult>, y: seq<VoteResult>): nat
    requires |x| == |y|
  {
    if x == [] then 0 else (if x[0] == y[0] == Success then 1 else 0) + CountBoth(x[1..], y[1..])
  }

  lemma {:induction false} Overlap(x: seq<VoteResult>, y: seq<VoteResult>)
    requires |x| == |y|
    ensures CountBoth(x, y) + |x| >= Count(x, Success) + Count(y, Success)
  {
    if x != [] {
      Overlap(x[1..], y[1..]);
    }
  }

  /** Two ballots of the same voters can both pass only with more than a third voting for both. */
  lemma QuorumIntersection(a: Ballot, b: Ballot)
    requires Valid(a) && Valid(b) && a.voters == b.voters
    requires a.threshold >= Quorum(|a.voters|) && b.threshold >= Quorum(|b.voters|)
    requires Count(a.votes, Success) >= a.threshold && Count(b.votes, Success) >= b.threshold
    ensures 3 * CountBoth(a.votes, b.votes) > |a.voters|
  {
    Overlap(a.votes, b.votes);
  }

  // ---------- When a ballot can still be decided ----------

  /** One vote followed by the count; a refused vote changes nothing. */
  function VoteAndCount(b: Ballot, address: string, vote: VoteResult): Ballot
    requires Valid(b)
  {
    match AddVote(b, address, vote)
    case Refused(_) => b
    case Recorded(b') => b'.(status := Decide(b'))
  }

  function VoteAll(b: Ballot, script: seq<(string, VoteResult)>): (r: Ballot)
    requires Valid(b)
    ensures Valid(r) && r.voters == b.voters
    decreases |script|
  {
    if script == [] then b else VoteAll(VoteAndCount(b, script[0].0, script[0].1), script[1..])
  }

  predicate Decided(b: Ballot)
  {
    b.status.Passed? || b.status.Rejected?
  }

  /** Some sequence of votes decides the ballot. */
  ghost predicate CanBeDecided(b: Ballot)
    requires Valid(b)
  {
    exists script :: Decided(VoteAll(b, script))
  }

  /** Someone is left to vote, and the votes left can lift one side to the threshold. */
  predicate Open(b: Ballot)
  {
    var left := Count(b.votes, NotYetVoted);
    left >= 1 && (Count(b.votes, Success) + left >= b.threshold || Count(b.votes, Failure) + left >= b.threshold)
  }

  predicate DistinctVoters(voters: seq<string>)
  {
    forall i, j :: 0 <= i < j < |voters| ==> voters[i] != voters[j]
  }

  /** Someone is left to vote, and the place is the voter's own. */
  lemma FirstLeft(b: Ballot) returns (k: nat)
    requires Valid(b) && DistinctVoters(b.voters) && Count(b.votes, NotYetVoted) >= 1
    ensures k < |b.voters| && b.votes[k] == NotYetVoted && VoterIndex(b.voters, b.voters[k]) == Some(k)
  {
    k := FindVote(b.votes, NotYetVoted);
    var i := VoterIndex(b.voters, b.voters[k]).value;
    assert i <= k;
  }

  lemma {:induction false} VotesOnlySpendWhatIsLeft(b: Ballot, script: seq<(string, VoteResult)>)
    requires Valid(b) && b.status.Pending? && Decided(VoteAll(b, script))
    ensures Open(b)
    decreases |script|
  {
    if script != [] {
      var (voter, vote) := script[0];
      var r := AddVote(b, voter, vote);
      if r.Refused? {
        VotesOnlySpendWhatIsLeft(b, script[1..]);
      } else {
        var k := VoterIndex(b.voters, voter).value;
        CountPositive(b.votes, k);
        CountUpdate(b.votes, k, vote, Success);
        CountUpdate(b.votes, k, vote, Failure);
        CountUpdate(b.votes, k, vote, NotYetVoted);
        var b' := VoteAndCount(b, voter, vote);
        if b'.status.Pending? {
          VotesOnlySpendWhatIsLeft(b', script[1..]);
        }
      }
    }
  }

  /** Letting everyone who is left vote the same way decides the ballot when the numbers allow it. */
  lemma {:induction false} LeftVotesDecide(b: Ballot, vote: VoteResult) returns (script: seq<(string, VoteResult)>)
    requires Valid(b) && b.status.Pending? && DistinctVoters(b.voters) && vote != NotYetVoted
    requires Count(b.votes, NotYetVoted) >= 1 && Count(b.votes, vote) + Count(b.votes, NotYetVoted) >= b.threshold
    ensures Decided(VoteAll(b, script))
    decreases Count(b.votes, NotYetVoted)
  {
    var k := FirstLeft(b);
    var voter := b.voters[k];
    CountUpdate(b.votes, k, vote, Success);
    CountUpdate(b.votes, k, vote, Failure);
    CountUpdate(b.votes, k, vote, NotYetVoted);
    var b' := VoteAndCount(b, voter, vote);
    var rest: seq<(string, VoteResult)> := [];
    if b'.status.Pending? {
      rest := LeftVotesDecide(b', vote);
    }
    script := [(voter, vote)] + rest;
    assert script[1..] == rest;
  }

  /** A pending ballot can still be decided by votes exactly when it is open. */
  lemma CanBeDecidedIff(b: Ballot)
    requires Valid(b) && b.status.Pending? && DistinctVoters(b.voters)
    ensures CanBeDecided(b) <==> Open(b)
  {
    if CanBeDecided(b) {
      var script :| Decided(VoteAll(b, script));
      VotesOnlySpendWhatIsLeft(b, script);
    }
    if Open(b) {
      var side := if Count(b.votes, Success) + Count(b.votes, NotYetVoted) >= b.threshold then Success else Failure;
      var script := LeftVotesDecide(b, side);
    }
  }

  // ---------- Unanimity ----------

  /** Some sequence of votes passes the ballot while a voter has not said yes. */
  ghost predicate CanPassWithoutAll(b: Ballot)
    requires Valid(b)
  {
    exists script :: PassedWithoutAll(VoteAll(b, script))
  }

  predicate PassedWithoutAll(b: Ballot)
  {
    b.status.Passed? && Count(b.votes, Success) < |b.voters|
  }

  /**
  The threshold is below everyone, someone is left, the votes left can lift the yes side to it,
  and the no side has not reached it, unless one more vote is enough.
   */
  predicate OpenToPart(b: Ballot)
  {
    var yes, no, left := Count(b.votes, Success), Count(b.votes, Failure), Count(b.votes, NotYetVoted);
    b.threshold < |b.voters| && left >= 1 && yes + left >= b.threshold && (no < b.threshold || yes + 1 >= b.threshold)
  }

  lemma {:induction false} PassingSpendsWhatIsLeft(b: Ballot, script: seq<(string, VoteResult)>)
    requires Valid(b) && b.status.Pending? && PassedWithoutAll(VoteAll(b, script))
    ensures OpenToPart(b)
    decreases |script|
  {
    if script != [] {
      var (voter, vote) := script[0];
      if AddVote(b, voter, vote).Refused? {
        PassingSpendsWhatIsLeft(b, script[1..]);
      } else {
        var k := VoterIndex(b.voters, voter).value;
        CountPositive(b.votes, k);
        CountUpdate(b.votes, k, vote, Success);
        CountUpdate(b.votes, k, vote, Failure);
        CountUpdate(b.votes, k, vote, NotYetVoted);
        var b' := VoteAndCount(b, voter, vote);
        if b'.status.Pending? {
          PassingSpendsWhatIsLeft(b', script[1..]);
        } else {
          EndedStays(b', script[1..]);
        }
      }
    }
  }

  lemma {:induction false} EndedStays(b: Ballot, script: seq<(string, VoteResult)>)
    requires Valid(b) && !b.status.Pending?
    ensures VoteAll(b, script) == b
    decreases |script|
  {
    if script != [] {
      EndedStays(b, script[1..]);
    }
  }

  /** With a threshold below everyone, the voters left pass the ballot with a voter to spare. */
  lemma {:induction false} LeftVotesPass(b: Ballot) returns (script: seq<(string, VoteResult)>)
    requires Valid(b) && b.status.Pending? && DistinctVoters(b.voters) && OpenToPart(b)
    ensures PassedWithoutAll(VoteAll(b, script))
    decreases Count(b.votes, NotYetVoted)
  {
    var k := FirstLeft(b);
    var voter := b.voters[k];
    var vote := if Count(b.votes, Success) >= b.threshold then Failure else Success;
    CountsCover(b.votes);
    CountUpdate(b.votes, k, vote, Success);
    CountUpdate(b.votes, k, vote, Failure);
    CountUpdate(b.votes, k, vote, NotYetVoted);
    var b' := b.(votes := b.votes[k := vote]);
    assert AddVote(b, voter, vote) == Recorded(b');
    hide Count, AddVote;
    var rest: seq<(string, VoteResult)> := [];
    if Decide(b').Pending? {
      rest := LeftVotesPass(b');
    }
    script := [(voter, vote)] + rest;
    assert script[1..] == rest;
  }

  /** A pending ballot can pass without everyone exactly when it is open to a part of its voters. */
  lemma CanPassWithoutAllIff(b: Ballot)
    requires Valid(b) && b.status.Pending? && DistinctVoters(b.voters)
    ensures CanPassWithoutAll(b) <==> OpenToPart(b)
  {
    if CanPassWithoutAll(b) {
      var script :| PassedWithoutAll(VoteAll(b, script));
      PassingSpendsWhatIsLeft(b, script);
    }
    if OpenToPart(b) {
      var script := LeftVotesPass(b);
    }
  }

  // ---------- Passing without one voter ----------

  /** The vote an address has on the ballot, if it is a voter. */
  function VoteOf(b: Ballot, address: string): Option<VoteResult>
    requires Valid(b)
  {
    match VoterIndex(b.voters, address)
    case None => None
    case Some(k) => Some(b.votes[k])
  }

  ghost predicate PassedWithout(b: Ballot, address: string)
    requires Valid(b)
  {
    b.status.Passed? && VoteOf(b, address) != Some(Success)
  }

  /** Some sequence of votes passes the ballot without a yes of this address. */
  ghost predicate CanPassWithout(b: Ballot, address: string)
    requires Valid(b)
  {
    exists script :: PassedWithout(VoteAll(b, script), address)
  }

  /** The votes left that are not the address's own. */
  function OthersLeft(b: Ballot, address: string): int
    requires Valid(b)
  {
    Count(b.votes, NotYetVoted) - if VoteOf(b, address) == Some(NotYetVoted) then 1 else 0
  }

  /**
  The address has not said yes, someone is left, the others left can lift the yes side to the
  threshold, and the no side has not reached it, unless one more vote is enough.
   */
  predicate OpenWithout(b: Ballot, address: string)
    requires Valid(b)
  {
    var yes, no := Count(b.votes, Success), Count(b.votes, Failure);
    && VoteOf(b, address) != Some(Success)
    && Count(b.votes, NotYetVoted) >= 1
    && yes + OthersLeft(b, address) >= b.threshold
    && (no < b.threshold || yes + 1 >= b.threshold)
  }

  /** What one recorded vote does to the counts and to the vote of an address. */
  lemma VoteMoves(b: Ballot, k: nat, vote: VoteResult, address: string)
    requires Valid(b) && k < |b.voters| && b.votes[k] == NotYetVoted && VoterIndex(b.voters, b.voters[k]) == Some(k)
    ensures var b' := b.(votes := b.votes[k := vote]);
            && Count(b.votes, NotYetVoted) >= 1
            && Count(b'.votes, Success) == Count(b.votes, Success) + (if vote == Success then 1 else 0)
            && Count(b'.votes, Failure) == Count(b.votes, Failure) + (if vote == Failure then 1 else 0)
            && Count(b'.votes, NotYetVoted) == Count(b.votes, NotYetVoted) - (if vote == NotYetVoted then 0 else 1)
            && VoteOf(b', address) == (if b.voters[k] == address then Some(vote) else VoteOf(b, address))
            && OthersLeft(b', address)
               == OthersLeft(b, address) - (if b.voters[k] == address || vote == NotYetVoted then 0 else 1)
  {
    CountPositive(b.votes, k);
    CountUpdate(b.votes, k, vote, Success);
    CountUpdate(b.votes, k, vote, Failure);
    CountUpdate(b.votes, k, vote, NotYetVoted);
    hide Count;
    if b.voters[k] != address && VoterIndex(b.voters, address).Some? {
      assert VoterIndex(b.voters, address).value != k;
    }
  }

  lemma OthersLeftNonNegative(b: Ballot, address: string)
    requires Valid(b)
    ensures OthersLeft(b, address) >= 0
  {
    var i := VoterIndex(b.voters, address);
    if i.Some? && b.votes[i.value] == NotYetVoted {
      CountPositive(b.votes, i.value);
    }
  }

  lemma {:induction false} PassingWithoutNeedsOpen(b: Ballot, address: string, script: seq<(string, VoteResult)>)
    requires Valid(b) && b.status.Pending? && PassedWithout(VoteAll(b, script), address)
    ensures OpenWithout(b, address)
    decreases |script|
  {
    if script != [] {
      var (voter, vote) := script[0];
      if AddVote(b, voter, vote).Refused? {
        PassingWithoutNeedsOpen(b, address, script[1..]);
      } else {
        var k := VoterIndex(b.voters, voter).value;
        VoteMoves(b, k, vote, address);
        var b' := b.(votes := b.votes[k := vote]);
        OthersLeftNonNegative(b', address);
        assert AddVote(b, voter, vote) == Recorded(b');
        hide Count, AddVote, OthersLeft;
        var b'' := VoteAndCount(b, voter, vote);
        assert b'' == b'.(status := Decide(b')) && VoteOf(b'', address) == VoteOf(b', address);
        if b''.status.Pending? {
          PassingWithoutNeedsOpen(b', address, script[1..]);
        } else {
          EndedStays(b'', script[1..]);
        }
      }
    }
  }

  /** Some voter other than the address is left. */
  lemma OtherLeft(b: Ballot, address: string) returns (k: nat)
    requires Valid(b) && DistinctVoters(b.voters) && OthersLeft(b, address) >= 1
    ensures k < |b.voters| && b.votes[k] == NotYetVoted && b.voters[k] != address
    ensures VoterIndex(b.voters, b.voters[k]) == Some(k)
  {
    if VoteOf(b, address) == Some(NotYetVoted) {
      var i := VoterIndex(b.voters, address).value;
      VoteMoves(b, i, Failure, address);
      k := FirstLeft(b.(votes := b.votes[i := Failure]));
    } else {
      k := FirstLeft(b);
    }
  }

  /** The voters left pass the ballot without the address. */
  lemma {:induction false} OthersPass(b: Ballot, address: string) returns (script: seq<(string, VoteResult)>)
    requires Valid(b) && b.status.Pending? && DistinctVoters(b.voters) && OpenWithout(b, address)
    ensures PassedWithout(VoteAll(b, script), address)
    decreases Count(b.votes, NotYetVoted)
  {
    var k, vote;
    if Count(b.votes, Success) >= b.threshold {
      k := FirstLeft(b);
      vote := Failure;
    } else {
      k := OtherLeft(b, address);
      vote := Success;
    }
    var voter := b.voters[k];
    VoteMoves(b, k, vote, address);
    var b' := b.(votes := b.votes[k := vote]);
    assert AddVote(b, voter, vote) == Recorded(b');
    hide Count, AddVote;
    var rest: seq<(string, VoteResult)> := [];
    if Decide(b').Pending? {
      rest := OthersPass(b', address);
    }
    script := [(voter, vote)] + rest;
    assert script[1..] == rest;
  }

  /** A pending ballot can pass without an address exactly when it is open without it. */
  lemma CanPassWithoutIff(b: Ballot, address: string)
    requires Valid(b) && b.status.Pending? && DistinctVoters(b.voters)
    ensures CanPassWithout(b, address) <==> OpenWithout(b, address)
  {
    if CanPassWithout(b, address) {
      var script :| PassedWithout(VoteAll(b, script), address);
      PassingWithoutNeedsOpen(b, address, script);
    }
    if OpenWithout(b, address) {
      var script := OthersPass(b, address);
    }
  }

  // ---------- Recomputing the quorum ----------

  /** Votes by voter; a later entry of the same voter wins. */
  function VotesBy(voters: seq<string>, votes: seq<VoteResult>): (m: map<string, VoteResult>)
    requires |voters| == |votes|
    ensures forall v :: v in m <==> v in voters
  {
    if voters == [] then map[]
    else
      var n := |voters| - 1;
      assert forall v :: v in voters <==> v in voters[..n] || v == voters[n];
      VotesBy(voters[..n], votes[..n])[voters[n] := votes[n]]
  }

  function KeepVotes(voters: seq<string>, m: map<string, VoteResult>): (r: seq<VoteResult>)
    ensures |r| == |voters|
    ensures forall k :: 0 <= k < |voters| ==> r[k] == if voters[k] in m then m[voters[k]] else NotYetVoted
  {
    seq(|voters|, k requires 0 <= k < |voters| => if voters[k] in m then m[voters[k]] else NotYetVoted)
  }

  /** A pending ballot rebuilt for a new, non-empty list of voters. */
  function Recomputed(b: Ballot, voters: seq<string>): Ballot
    requires Valid(b)
  {
    b.(voters := voters, votes := KeepVotes(voters, VotesBy(b.voters, b.votes)), threshold := Quorum(|voters|))
  }

  /** Votes of voters still eligible survive; new voters have not voted. */
  lemma RecomputeKeepsVotes(b: Ballot, voters: seq<string>, i: nat, k: nat)
    requires Valid(b) && DistinctVoters(b.voters) && i < |b.voters| && k < |voters| && voters[k] == b.voters[i]
    ensures Recomputed(b, voters).votes[k] == b.votes[i]
  {
    VoteOfVoter(b.voters, b.votes, i);
  }

  /** Recomputing asks for the least number above two thirds of exactly the new voters; newcomers have not voted. */
  lemma RecomputedAsks(b: Ballot, voters: seq<string>, k: nat)
    requires Valid(b) && k < |voters|
    ensures var r := Recomputed(b, voters);
            && r.voters == voters && |r.votes| == |voters| && r.status == b.status && r.expiry == b.expiry
            && 3 * r.threshold > 2 * |voters| && 3 * (r.threshold - 1) <= 2 * |voters|
            && (voters[k] !in b.voters ==> r.votes[k] == NotYetVoted)
  {
  }

  lemma {:induction false} VoteOfVoter(voters: seq<string>, votes: seq<VoteResult>, i: nat)
    requires |voters| == |votes| && DistinctVoters(voters) && i < |voters|
    ensures VotesBy(voters, votes)[voters[i]] == votes[i]
    decreases |voters|
  {
    var n := |voters| - 1;
    if i < n {
      assert voters[..n][i] == voters[i];
      VoteOfVoter(voters[..n], votes[..n], i);
    }
  }

  /** A vote that a recomputed ballot holds was on the old ballot, by the same voter. */
  lemma RecomputedVoteWasThere(b: Ballot, voters: seq<string>, k: nat) returns (i: nat)
    requires Valid(b) && k < |voters| && Recomputed(b, voters).votes[k] != NotYetVoted
    ensures i < |b.voters| && b.voters[i] == voters[k] && b.votes[i] == Recomputed(b, voters).votes[k]
  {
    i := PlaceOf(b.voters, b.votes, voters[k]);
  }

  lemma {:induction false} PlaceOf(voters: seq<string>, votes: seq<VoteResult>, v: string) returns (i: nat)
    requires |voters| == |votes| && v in voters
    ensures i < |voters| && voters[i] == v && votes[i] == VotesBy(voters, votes)[v]
    decreases |voters|
  {
    var n := |voters| - 1;
    if voters[n] == v {
      i := n;
    } else {
      i := PlaceOf(voters[..n], votes[..n], v);
    }
  }

  /** When every remaining voter has already voted, no vote can decide the recomputed ballot. */
  lemma RecomputedStuckWhenAllVoted(b: Ballot, voters: seq<string>)
    requires Valid(b) && b.status.Pending? && DistinctVoters(b.voters) && DistinctVoters(voters)
    requires forall v :: v in voters ==> exists i :: 0 <= i < |b.voters| && b.voters[i] == v && b.votes[i] != NotYetVoted
    ensures !CanBeDecided(Recomputed(b, voters))
  {
    var r := Recomputed(b, voters);
    forall k | 0 <= k < |voters|
      ensures r.votes[k] != NotYetVoted
    {
      assert voters[k] in voters;
      var i :| 0 <= i < |b.voters| && b.voters[i] == voters[k] && b.votes[i] != NotYetVoted;
      RecomputeKeepsVotes(b, voters, i, k);
    }
    if Count(r.votes, NotYetVoted) > 0 {
      var k := FindVote(r.votes, NotYetVoted);
      assert false;
    }
    CanBeDecidedIff(r);
  }

  /** Two voters, one of whom voted yes and stays: the quorum is met and the ballot is stuck. */
  lemma RecomputedCanBeStuck()
    ensures var b := Ballot(["a", "b"], [Success, NotYetVoted], Quorum(2), Pending, 1, 9);
            var r := Recomputed(b, ["a"]);
            Count(r.votes, Success) >= r.threshold && !CanBeDecided(r)
  {
    var b := Ballot(["a", "b"], [Success, NotYetVoted], Quorum(2), Pending, 1, 9);
    RecomputeKeepsVotes(b, ["a"], 0, 0);
    assert Recomputed(b, ["a"]).votes == [Success];
    assert b.voters[0] == "a" && b.votes[0] != NotYetVoted;
    RecomputedStuckWhenAllVoted(b, ["a"]);
  }

  /**
  Recomputing replaces any threshold by two thirds of the new voters. A recomputed ballot can pass
  without some of its new voters exactly when there are four or more and the votes left can lift it
  to the new threshold.
   */
  lemma RecomputedVotersIff(b: Ballot, voters: seq<string>)
    requires Valid(b) && b.status.Pending? && DistinctVoters(voters) && voters != []
    ensures var r := Recomputed(b, voters);
            CanPassWithoutAll(r) <==>
            && |voters| >= 4
            && Count(r.votes, NotYetVoted) >= 1
            && Count(r.votes, Success) + Count(r.votes, NotYetVoted) >= r.threshold
  {
    CanPassWithoutAllIff(Recomputed(b, voters));
    CountsCover(Recomputed(b, voters).votes);
    EveryoneIsAQuorum(|voters|);
  }

  /** A ballot that asks for everyone cannot pass without any one of its voters. */
  lemma NeedsEachVoter(b: Ballot, i: nat)
    requires Valid(b) && b.status.Pending? && b.threshold == |b.voters| && DistinctVoters(b.voters) && i < |b.voters|
    ensures !CanPassWithout(b, b.voters[i])
  {
    hide CanPassWithout;
    CanPassWithoutIff(b, b.voters[i]);
    CountsCover(b.votes);
    OwnPlace(b.voters, i);
    CountPositive(b.votes, i);
  }

  lemma OwnPlace(voters: seq<string>, i: nat)
    requires DistinctVoters(voters) && i < |voters|
    ensures VoterIndex(voters, voters[i]) == Some(i)
  {
    var k := VoterIndex(voters, voters[i]).value;
    assert k <= i;
  }

  /**
  A ballot that asks for everyone cannot pass without its voter `i`. Recomputed, a ballot can pass
  without its former voter `i` exactly when someone is left and, depending on that voter: dropped or
  voted no, the votes left reach the new threshold; kept and not yet voted, the others left reach
  it; kept and voted yes, never.
   */
  lemma RecomputedUnanimityIff(b: Ballot, voters: seq<string>, i: nat)
    requires Valid(b) && b.status.Pending? && i < |b.voters|
    requires DistinctVoters(b.voters) && DistinctVoters(voters) && voters != []
    ensures b.threshold == |b.voters| ==> !CanPassWithout(b, b.voters[i])
    ensures var r := Recomputed(b, voters);
            var yes, left := Count(r.votes, Success), Count(r.votes, NotYetVoted);
            CanPassWithout(r, b.voters[i]) <==>
            && left >= 1
            && if b.voters[i] !in voters || b.votes[i] == Failure then yes + left >= r.threshold
               else if b.votes[i] == NotYetVoted then yes + left - 1 >= r.threshold
               else false
  {
    if b.threshold == |b.voters| {
      NeedsEachVoter(b, i);
    }
    var r := Recomputed(b, voters);
    CountsCover(r.votes);
    hide CanPassWithout, Count;
    CanPassWithoutIff(r, b.voters[i]);
    if b.voters[i] in voters {
      var k := VoterIndex(voters, b.voters[i]).value;
      RecomputeKeepsVotes(b, voters, i, k);
    }
  }

  /** Recomputing for the same voters keeps the votes. */
  lemma RecomputedForSame(b: Ballot)
    requires Valid(b) && DistinctVoters(b.voters)
    ensures Recomputed(b, b.voters).votes == b.votes
  {
    forall i | 0 <= i < |b.voters|
      ensures Recomputed(b, b.voters).votes[i] == b.votes[i]
    {
      RecomputeKeepsVotes(b, b.voters, i, i);
    }
  }

  /** Any four voters, all needed, two yes: recomputed for the same voters it can pass without the last. */
  lemma RecomputedLosesUnanimity(b: Ballot)
    requires b.status.Pending? && |b.voters| == b.threshold == 4 && DistinctVoters(b.voters)
    requires b.votes == [Success, Success, NotYetVoted, NotYetVoted]
    ensures !CanPassWithoutAll(b) && CanPassWithoutAll(Recomputed(b, b.voters))
    ensures !CanPassWithout(b, b.voters[3]) && CanPassWithout(Recomputed(b, b.voters), b.voters[3])
  {
    TwoOfFour();
    hide Count, CanPassWithoutAll, CanPassWithout, KeepVotes, VotesBy;
    RecomputedForSame(b);
    CanPassWithoutAllIff(b);
    RecomputedVotersIff(b, b.voters);
    RecomputedUnanimityIff(b, b.voters, 3);
  }

  /** Four participants, all needed, none voted: recomputed for the first alone, its one vote passes the ballot. */
  lemma RecomputedDropsParticipants()
    ensures var b := Ballot(["a", "b", "c", "d"], [NotYetVoted, NotYetVoted, NotYetVoted, NotYetVoted], 4, Pending, 1, 9);
            var passed := VoteAll(Recomputed(b, ["a"]), [("a", Success)]);
            PassedWithout(passed, "b") && PassedWithout(passed, "c") && PassedWithout(passed, "d")
  {
    var b := Ballot(["a", "b", "c", "d"], [NotYetVoted, NotYetVoted, NotYetVoted, NotYetVoted], 4, Pending, 1, 9);
    var r := Recomputed(b, ["a"]);
    hide *;
    FourDistinct();
    assert b.voters[0] == "a";
    FirstAlone(b);
    OneVoteOfOne(r, "b");
    OneVoteOfOne(r, "c");
    OneVoteOfOne(r, "d");
  }

  lemma FirstAlone(b: Ballot)
    requires |b.votes| == |b.voters| > 0 && DistinctVoters(b.voters)
    ensures Recomputed(b, [b.voters[0]]) == b.(voters := [b.voters[0]], votes := [b.votes[0]], threshold := 1)
  {
    RecomputeKeepsVotes(b, [b.voters[0]], 0, 0);
  }

  lemma FourDistinct()
    ensures DistinctVoters(["a", "b", "c", "d"])
  {
    var voters := ["a", "b", "c", "d"];
    assert voters[0][0] == 'a' && voters[1][0] == 'b' && voters[2][0] == 'c' && voters[3][0] == 'd';
  }

  lemma OneVoteOfOne(r: Ballot, other: string)
    requires r.voters == ["a"] && r.votes == [NotYetVoted] && r.status.Pending? && r.threshold == 1 && other != "a"
    ensures PassedWithout(VoteAll(r, [("a", Success)]), other)
  {
    var r' := r.(votes := [Success]);
    assert r.votes[0 := Success] == [Success];
    assert AddVote(r, "a", Success) == Recorded(r');
    assert Count(r'.votes, Success) == 1;
    assert [("a", Success)][1..] == [];
    EndedStays(r'.(status := Passed), []);
  }

  lemma TwoOfFour()
    ensures var votes := [Success, Success, NotYetVoted, NotYetVoted];
            Count(votes, Success) == 2 && Count(votes, NotYetVoted) == 2
  {
    var last := [NotYetVoted, NotYetVoted];
    assert Count(last, NotYetVoted) == 2 && Count(last, Success) == 0;
    var votes := [Success, Success, NotYetVoted, NotYetVoted];
    assert votes[1..][1..] == last;
  }
}
