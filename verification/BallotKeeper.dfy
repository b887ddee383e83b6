/**
The ballot keeper: the ballot table with its active, expired and finalized indexes, and
what every run of votes and recomputations keeps.
 */
module BallotKeeper {
  import opened Ballots

  datatype Store = Store(
    ballots: map<string, Ballot>,
    active: set<string>,
    expired: set<string>,
    finalized: set<string>)

  const EmptyStore := Store(map[], {}, {}, {})

  /** A vote as it reaches the keeper, with the voters and quorum to use if the ballot is new. */
  datatype VoteCall = VoteCall(
    id: string,
    voter: string,
    vote: VoteResult,
    voters: seq<string>,
    votesNeeded: int,
    expiryAfterBlocks: int,
    height: int)

  datatype VoteOutcome = Voted(isFinalized: bool, isNew: bool) | Denied(reason: Refusal)

  datatype RecomputeOutcome = NotFound | NotPendingBallot | Done(status: Status)

  // ---------- Steps ----------

  function SetBallot(st: Store, id: string, b: Ballot): Store
  {
    st.(ballots := st.ballots[id := b])
  }

  function MarkExpired(st: Store, id: string): Store
    requires id in st.ballots
  {
    Store(st.ballots[id := st.ballots[id].(status := Expired)], st.active - {id}, st.expired + {id}, st.finalized)
  }

  function MarkFinalized(st: Store, id: string, status: Status): Store
    requires id in st.ballots
  {
    Store(st.ballots[id := st.ballots[id].(status := status)], st.active - {id}, st.expired, st.finalized + {id})
  }

  function Due(st: Store, height: int): (ids: set<string>)
    ensures ids <= st.ballots.Keys
  {
    set id | id in st.active && id in st.ballots && st.ballots[id].expiry <= height
  }

  function ExpireAll(st: Store, ids: set<string>): Store
    requires ids <= st.ballots.Keys
  {
    Store(map id | id in st.ballots :: if id in ids then st.ballots[id].(status := Expired) else st.ballots[id],
          st.active - ids, st.expired + ids, st.finalized)
  }

  function NewBallot(c: VoteCall): Ballot
  {
    Ballot(c.voters, seq(|c.voters|, _ => NotYetVoted), c.votesNeeded, Pending, c.height, c.height + c.expiryAfterBlocks)
  }

  function Create(st: Store, c: VoteCall): Store
  {
    var st' := ExpireAll(st, Due(st, c.height));
    Store(st'.ballots[c.id := NewBallot(c)], st'.active + {c.id}, st'.expired, st'.finalized)
  }

  function VoteOn(st: Store, c: VoteCall): (Store, VoteOutcome)
    requires Inv(st)
  {
    var isNew := c.id !in st.ballots;
    var st1 := if isNew then Create(st, c) else st;
    var b := st1.ballots[c.id];
    if c.height >= b.expiry && b.status.Pending? then (MarkExpired(st1, c.id), Denied(LateVote))
    else if !b.status.Pending? then (st1, Denied(NotPending))
    else
      match AddVote(b, c.voter, c.vote)
      case Refused(r) => (st1, Denied(r))
      case Recorded(b') =>
        var st2 := SetBallot(st1, c.id, b');
        var s := Decide(b');
        if s.Pending? then (st2, Voted(false, isNew)) else (MarkFinalized(st2, c.id, s), Voted(true, isNew))
  }

  function Recompute(st: Store, id: string, eligible: seq<string>): (Store, RecomputeOutcome)
    requires Inv(st)
  {
    if id !in st.ballots then (st, NotFound)
    else if !st.ballots[id].status.Pending? then (st, NotPendingBallot)
    else if eligible == [] then (MarkExpired(st, id), Done(Expired))
    else (SetBallot(st, id, Recomputed(st.ballots[id], eligible)), Done(Pending))
  }

  // ---------- Invariant ----------

  /** A decided ballot shows the votes that decided it. */
  ghost predicate Justified(b: Ballot)
  {
    && Valid(b)
    && (b.status.Passed? ==> Count(b.votes, Success) >= b.threshold)
    && (b.status.Rejected? ==> Count(b.votes, Failure) >= b.threshold && Count(b.votes, Success) < b.threshold)
  }

  /** Each ballot stands in exactly the index of its status, and is justified. */
  ghost predicate Inv(st: Store)
  {
    && (forall id :: id in st.active <==> id in st.ballots && st.ballots[id].status.Pending?)
    && (forall id :: id in st.expired <==> id in st.ballots && st.ballots[id].status.Expired?)
    && (forall id :: id in st.finalized <==> id in st.ballots && Decided(st.ballots[id]))
    && (forall id :: id in st.ballots ==> Justified(st.ballots[id]))
  }

  lemma MarkExpiredKeeps(st: Store, id: string)
    requires Inv(st) && id in st.ballots && st.ballots[id].status.Pending?
    ensures Inv(MarkExpired(st, id))
  {
  }

  lemma SetPendingKeeps(st: Store, id: string, b: Ballot)
    requires Inv(st) && id in st.ballots && st.ballots[id].status.Pending? && b.status.Pending? && Valid(b)
    ensures Inv(SetBallot(st, id, b))
  {
  }

  lemma MarkFinalizedKeeps(st: Store, id: string)
    requires Inv(st) && id in st.ballots && st.ballots[id].status.Pending? && Decided(st.ballots[id].(status := Decide(st.ballots[id])))
    ensures Inv(MarkFinalized(st, id, Decide(st.ballots[id])))
  {
  }

  lemma CreateKeeps(st: Store, c: VoteCall)
    requires Inv(st) && c.id !in st.ballots
    ensures Inv(Create(st, c)) && Create(st, c).ballots[c.id] == NewBallot(c)
  {
  }

  lemma VoteKeeps(st: Store, c: VoteCall)
    requires Inv(st)
    ensures Inv(VoteOn(st, c).0)
  {
    hide Inv, Count;
    var isNew := c.id !in st.ballots;
    if isNew {
      CreateKeeps(st, c);
    }
    var st1 := if isNew then Create(st, c) else st;
    var b := st1.ballots[c.id];
    assert Valid(b) by { ValidIn(st1, c.id); }
    if b.status.Pending? {
      if c.height >= b.expiry {
        MarkExpiredKeeps(st1, c.id);
      } else {
        var r := AddVote(b, c.voter, c.vote);
        if r.Recorded? {
          SetPendingKeeps(st1, c.id, r.ballot);
          var st2 := SetBallot(st1, c.id, r.ballot);
          if !Decide(r.ballot).Pending? {
            MarkFinalizedKeeps(st2, c.id);
          }
        }
      }
    }
  }

  lemma ValidIn(st: Store, id: string)
    requires Inv(st) && id in st.ballots
    ensures Valid(st.ballots[id])
  {
  }

  lemma RecomputeKeeps(st: Store, id: string, eligible: seq<string>)
    requires Inv(st)
    ensures Inv(Recompute(st, id, eligible).0)
  {
    if id in st.ballots && st.ballots[id].status.Pending? {
      if eligible == [] {
        MarkExpiredKeeps(st, id);
      } else {
        SetPendingKeeps(st, id, Recomputed(st.ballots[id], eligible));
      }
    }
  }

  // ---------- Runs ----------

  datatype Event = Vote(call: VoteCall) | RecomputeQuorum(id: string, eligible: seq<string>)

  function Step(st: Store, ev: Event): Store
    requires Inv(st)
  {
    match ev
    case Vote(c) => VoteOn(st, c).0
    case RecomputeQuorum(id, eligible) => Recompute(st, id, eligible).0
  }

  lemma StepKeeps(st: Store, ev: Event)
    requires Inv(st)
    ensures Inv(Step(st, ev))
  {
    match ev
    case Vote(c) => VoteKeeps(st, c);
    case RecomputeQuorum(id, eligible) => RecomputeKeeps(st, id, eligible);
  }

  ghost function RunAll(st: Store, run: seq<Event>): (r: Store)
    requires Inv(st)
    ensures Inv(r)
    decreases |run|
  {
    if run == [] then st
    else
      StepKeeps(st, run[0]);
      RunAll(Step(st, run[0]), run[1..])
  }

  /** One step never touches a ballot that has ended, nor forgets any ballot. */
  lemma StepFreezes(st: Store, ev: Event, id: string)
    requires Inv(st) && id in st.ballots
    ensures id in Step(st, ev).ballots
    ensures !st.ballots[id].status.Pending? ==> Step(st, ev).ballots[id] == st.ballots[id]
  {
    hide Count;
  }

  /** Passed, rejected and expired are final: status, voters and votes never change again. */
  lemma {:induction false} EndedIsForever(st: Store, run: seq<Event>, id: string)
    requires Inv(st) && id in st.ballots && !st.ballots[id].status.Pending?
    ensures id in RunAll(st, run).ballots && RunAll(st, run).ballots[id] == st.ballots[id]
    decreases |run|
  {
    if run != [] {
      StepKeeps(st, run[0]);
      StepFreezes(st, run[0], id);
      EndedIsForever(Step(st, run[0]), run[1..], id);
    }
  }

  /** `i` is the first place of `voter` in the list. */
  ghost predicate FirstAt(voters: seq<string>, voter: string, i: nat)
  {
    i < |voters| && voters[i] == voter && forall k :: 0 <= k < i ==> voters[k] != voter
  }

  /** A vote on an existing ballot counts exactly when it is in time, eligible and the voter's first. */
  lemma VoteCountsIff(st: Store, c: VoteCall)
    requires Inv(st) && c.id in st.ballots
    ensures var b := st.ballots[c.id];
            VoteOn(st, c).1.Voted? <==>
            b.status.Pending? && c.height < b.expiry && exists i: nat :: FirstAt(b.voters, c.voter, i) && b.votes[i] == NotYetVoted
  {
    hide Inv, Count;
    ValidIn(st, c.id);
    var b := st.ballots[c.id];
    var k := VoterIndex(b.voters, c.voter);
    if k.Some? {
      assert FirstAt(b.voters, c.voter, k.value);
      assert forall i: nat :: FirstAt(b.voters, c.voter, i) ==> i == k.value;
    }
  }

  /**
  A vote that counts is written at the voter's first place and nowhere else, and decides the ballot
  exactly when its side reaches the threshold; no other ballot is touched.
   */
  lemma CountedVote(st: Store, c: VoteCall)
    requires Inv(st) && c.id in st.ballots && VoteOn(st, c).1.Voted?
    ensures var b, b' := st.ballots[c.id], VoteOn(st, c).0.ballots[c.id];
            exists i: nat :: FirstAt(b.voters, c.voter, i) && i < |b.votes|
              && b'.votes == b.votes[i := c.vote] && b'.voters == b.voters
              && b'.threshold == b.threshold && b'.expiry == b.expiry
    ensures var b' := VoteOn(st, c).0.ballots[c.id];
            && (b'.status.Passed? <==> Count(b'.votes, Success) >= b'.threshold)
            && (b'.status.Rejected? <==> Count(b'.votes, Success) < b'.threshold <= Count(b'.votes, Failure))
            && (b'.status.Pending? <==> Count(b'.votes, Success) < b'.threshold && Count(b'.votes, Failure) < b'.threshold)
            && VoteOn(st, c).1 == Voted(!b'.status.Pending?, false)
    ensures forall id :: id != c.id ==>
              (id in VoteOn(st, c).0.ballots <==> id in st.ballots)
              && (id in st.ballots ==> VoteOn(st, c).0.ballots[id] == st.ballots[id])
  {
    hide Inv, Count;
    ValidIn(st, c.id);
    var b := st.ballots[c.id];
    var k := VoterIndex(b.voters, c.voter).value;
    assert FirstAt(b.voters, c.voter, k);
  }

  /** A vote that does not count on an existing ballot: why, and what it leaves. */
  lemma UncountedVote(st: Store, c: VoteCall)
    requires Inv(st) && c.id in st.ballots && VoteOn(st, c).1.Denied?
    ensures var b, r := st.ballots[c.id], VoteOn(st, c).1.reason;
            && (r.LateVote? <==> b.status.Pending? && c.height >= b.expiry)
            && (r.NotPending? <==> !b.status.Pending?)
            && (r.NotEligible? <==> b.status.Pending? && c.height < b.expiry && c.voter !in b.voters)
            && (r.AlreadyVoted? <==> b.status.Pending? && c.height < b.expiry && c.voter in b.voters)
            && (!r.LateVote? ==> VoteOn(st, c).0 == st)
            && (r.LateVote? ==> VoteOn(st, c).0.ballots == st.ballots[c.id := b.(status := Expired)])
  {
    hide Inv, Count;
    ValidIn(st, c.id);
  }

  /**
  The opening vote of a listed voter counts exactly when the ballot lives past the block. It leaves a
  ballot with that vote alone, the voters and the threshold asked for, and the expiry asked for.
   */
  lemma OpeningVote(st: Store, c: VoteCall)
    requires Inv(st) && c.id !in st.ballots
    ensures VoteOn(st, c).1.Voted? <==> c.expiryAfterBlocks > 0 && c.voter in c.voters
    ensures VoteOn(st, c).1.Voted? ==> VoteOn(st, c).1.isNew
    ensures c.id in VoteOn(st, c).0.ballots
    ensures var b := VoteOn(st, c).0.ballots[c.id];
            && b.voters == c.voters && |b.votes| == |c.voters| && b.threshold == c.votesNeeded
            && b.created == c.height && b.expiry == c.height + c.expiryAfterBlocks
            && (VoteOn(st, c).1.Denied? ==> forall k :: 0 <= k < |b.votes| ==> b.votes[k] == NotYetVoted)
            && (VoteOn(st, c).1.Voted? ==>
                  exists i: nat :: FirstAt(b.voters, c.voter, i) && i < |b.votes| && b.votes[i] == c.vote
                    && forall k :: 0 <= k < |b.votes| && k != i ==> b.votes[k] == NotYetVoted)
    ensures var r, b := VoteOn(st, c).1, VoteOn(st, c).0.ballots[c.id];
            r.Voted? ==>
              && (b.status.Passed? <==> Count(b.votes, Success) >= b.threshold)
              && (b.status.Rejected? <==> Count(b.votes, Success) < b.threshold <= Count(b.votes, Failure))
              && (b.status.Pending? <==> Count(b.votes, Success) < b.threshold && Count(b.votes, Failure) < b.threshold)
              && r.isFinalized == !b.status.Pending?
  {
    hide Count;
    CreateKeeps(st, c);
    hide Inv, ExpireAll, Due;
    var k := VoterIndex(c.voters, c.voter);
    if k.Some? {
      assert FirstAt(c.voters, c.voter, k.value);
    }
  }

  /** An opening vote expires the other ballots that are due and touches none of the rest. */
  lemma OpeningLeavesOthers(st: Store, c: VoteCall, id: string)
    requires Inv(st) && c.id !in st.ballots && id in st.ballots
    ensures id in VoteOn(st, c).0.ballots
    ensures var b := st.ballots[id];
            VoteOn(st, c).0.ballots[id]
            == if b.status.Pending? && b.expiry <= c.height then b.(status := Expired) else b
  {
    hide Count, Decide;
    CreateKeeps(st, c);
  }

  /** Opening a ballot first expires every active ballot that is due. */
  lemma OpeningExpiresDue(st: Store, c: VoteCall, id: string)
    requires Inv(st) && c.id !in st.ballots && id in st.ballots
    ensures var b := Create(st, c).ballots[id];
            b.status.Pending? <==> st.ballots[id].status.Pending? && c.height < st.ballots[id].expiry
    ensures !Create(st, c).ballots[id].status.Pending? ==> id !in Create(st, c).active
  {
    CreateKeeps(st, c);
  }

  /** A recorded vote is never overwritten or moved by later votes, on this ballot or any other. */
  lemma VoteStays(st: Store, c: VoteCall, id: string, k: nat)
    requires Inv(st) && id in st.ballots && k < |st.ballots[id].votes| && st.ballots[id].votes[k] != NotYetVoted
    ensures id in VoteOn(st, c).0.ballots
    ensures var b := VoteOn(st, c).0.ballots[id];
            b.voters == st.ballots[id].voters && k < |b.votes| && b.votes[k] == st.ballots[id].votes[k]
  {
    hide Count, Decide;
    ValidIn(st, id);
    if c.id in st.ballots {
      hide Create, ExpireAll, Due;
    }
  }

  ghost predicate NeverRecomputed(run: seq<Event>, id: string)
  {
    forall ev :: ev in run && ev.RecomputeQuorum? ==> ev.id != id
  }

  /** Over any run that does not recompute the ballot, its voters stay and each cast vote stands. */
  lemma {:induction false} VoteStaysOverRun(st: Store, run: seq<Event>, id: string, k: nat)
    requires Inv(st) && id in st.ballots && k < |st.ballots[id].votes| && st.ballots[id].votes[k] != NotYetVoted
    requires NeverRecomputed(run, id)
    ensures id in RunAll(st, run).ballots
    ensures var b := RunAll(st, run).ballots[id];
            b.voters == st.ballots[id].voters && k < |b.votes| && b.votes[k] == st.ballots[id].votes[k]
    decreases |run|
  {
    if run != [] {
      StepKeeps(st, run[0]);
      assert run[0] in run;
      if run[0].Vote? {
        VoteStays(st, run[0].call, id, k);
      }
      VoteStaysOverRun(Step(st, run[0]), run[1..], id, k);
    }
  }

  // ---------- Where votes come from ----------

  /** The run holds a vote on this ballot by this voter with this result. */
  ghost predicate CastIn(run: seq<Event>, id: string, voter: string, vote: VoteResult)
  {
    exists ev :: ev in run && IsCast(ev, id, voter, vote)
  }

  predicate IsCast(ev: Event, id: string, voter: string, vote: VoteResult)
  {
    ev.Vote? && ev.call.id == id && ev.call.voter == voter && ev.call.vote == vote
  }

  /** Every vote a ballot holds is one that was cast. */
  ghost predicate VotesWereCast(st: Store, run: seq<Event>, id: string)
  {
    id in st.ballots ==>
      var b := st.ballots[id];
      forall k :: 0 <= k < |b.votes| && k < |b.voters| && b.votes[k] != NotYetVoted ==> CastIn(run, id, b.voters[k], b.votes[k])
  }

  lemma StepKeepsCast(st: Store, run: seq<Event>, ev: Event, id: string)
    requires Inv(st) && VotesWereCast(st, run, id)
    ensures VotesWereCast(Step(st, ev), run + [ev], id)
  {
    hide CastIn;
    StepKeeps(st, ev);
    var st' := Step(st, ev);
    if id in st'.ballots {
      var b' := st'.ballots[id];
      forall k | 0 <= k < |b'.votes| && k < |b'.voters| && b'.votes[k] != NotYetVoted
        ensures CastIn(run + [ev], id, b'.voters[k], b'.votes[k])
      {
        match ev
        case Vote(c) => VoteWasCast(st, run, c, id, k);
        case RecomputeQuorum(x, eligible) => RecomputedWasCast(st, run, x, eligible, id, k);
      }
    }
  }

  lemma CastMore(run: seq<Event>, ev: Event, id: string, voter: string, vote: VoteResult)
    ensures CastIn(run, id, voter, vote) ==> CastIn(run + [ev], id, voter, vote)
    ensures IsCast(ev, id, voter, vote) ==> CastIn(run + [ev], id, voter, vote)
  {
    if CastIn(run, id, voter, vote) {
      var e :| e in run && IsCast(e, id, voter, vote);
      assert e in run + [ev];
    }
    assert ev in run + [ev];
  }

  lemma VoteWasCast(st: Store, run: seq<Event>, c: VoteCall, id: string, k: nat)
    requires Inv(st) && VotesWereCast(st, run, id) && id in VoteOn(st, c).0.ballots
    requires var b' := VoteOn(st, c).0.ballots[id];
             k < |b'.votes| && k < |b'.voters| && b'.votes[k] != NotYetVoted
    ensures var b' := VoteOn(st, c).0.ballots[id];
            CastIn(run + [Vote(c)], id, b'.voters[k], b'.votes[k])
  {
    hide CastIn;
    var b' := VoteOn(st, c).0.ballots[id];
    CastMore(run, Vote(c), id, b'.voters[k], b'.votes[k]);
    if c.id == id && c.id !in st.ballots {
      OpeningVote(st, c);
    } else if id in st.ballots {
      OtherVotesStand(st, c, id, k);
    } else {
      VotesAddOne(st, c, id);
    }
  }

  lemma VotesAddOne(st: Store, c: VoteCall, id: string)
    requires Inv(st) && id != c.id
    ensures id in VoteOn(st, c).0.ballots <==> id in st.ballots
  {
    hide Count;
  }

  /** After a vote a place holds what it held, or the vote just cast by its voter. */
  lemma OtherVotesStand(st: Store, c: VoteCall, id: string, k: nat)
    requires Inv(st) && id in st.ballots && id in VoteOn(st, c).0.ballots
    requires k < |st.ballots[id].votes| || k < |VoteOn(st, c).0.ballots[id].votes|
    ensures var b, b' := st.ballots[id], VoteOn(st, c).0.ballots[id];
            && b'.voters == b.voters && |b'.votes| == |b.votes| == |b.voters|
            && (b'.votes[k] == b.votes[k] || (c.id == id && c.voter == b.voters[k] && c.vote == b'.votes[k]))
  {
    hide Count, Decide;
    ValidIn(st, id);
    if c.id in st.ballots {
      hide Create, ExpireAll, Due;
    }
  }

  lemma RecomputedWasCast(st: Store, run: seq<Event>, x: string, eligible: seq<string>, id: string, k: nat)
    requires Inv(st) && VotesWereCast(st, run, id) && id in Recompute(st, x, eligible).0.ballots
    requires var b' := Recompute(st, x, eligible).0.ballots[id];
             k < |b'.votes| && k < |b'.voters| && b'.votes[k] != NotYetVoted
    ensures var b' := Recompute(st, x, eligible).0.ballots[id];
            CastIn(run + [RecomputeQuorum(x, eligible)], id, b'.voters[k], b'.votes[k])
  {
    hide CastIn, Count, KeepVotes, VotesBy;
    var b' := Recompute(st, x, eligible).0.ballots[id];
    CastMore(run, RecomputeQuorum(x, eligible), id, b'.voters[k], b'.votes[k]);
    var b := st.ballots[id];
    ValidIn(st, id);
    if x == id && b.status.Pending? && eligible != [] {
      var i := RecomputedVoteWasThere(b, eligible, k);
    }
  }

  lemma {:induction false} RunKeepsCast(st: Store, before: seq<Event>, run: seq<Event>, id: string)
    requires Inv(st) && VotesWereCast(st, before, id)
    ensures VotesWereCast(RunAll(st, run), before + run, id)
    decreases |run|
  {
    hide VotesWereCast, Inv;
    if run == [] {
      assert before + run == before;
    } else {
      StepKeeps(st, run[0]);
      StepKeepsCast(st, before, run[0], id);
      RunKeepsCast(Step(st, run[0]), before + [run[0]], run[1..], id);
      assert before + [run[0]] + run[1..] == before + run;
    }
  }

  /**
  Over every run from the empty store, recomputations included, a vote that a ballot holds was cast
  in the run, on that ballot, by the voter at whose place it stands.
   */
  lemma EveryVoteWasCast(run: seq<Event>, id: string, k: nat)
    requires id in RunAll(EmptyStore, run).ballots && k < |RunAll(EmptyStore, run).ballots[id].votes|
    requires RunAll(EmptyStore, run).ballots[id].votes[k] != NotYetVoted
    ensures var b := RunAll(EmptyStore, run).ballots[id];
            && k < |b.voters|
            && exists ev :: ev in run && ev.Vote? && ev.call.id == id && ev.call.voter == b.voters[k] && ev.call.vote == b.votes[k]
  {
    RunKeepsCast(EmptyStore, [], run, id);
    assert [] + run == run;
    ValidIn(RunAll(EmptyStore, run), id);
    var b := RunAll(EmptyStore, run).ballots[id];
    var ev :| ev in run && IsCast(ev, id, b.voters[k], b.votes[k]);
  }

  // ---------- Why a ballot expires ----------

  /** The event can end the ballot: a vote at or after its expiry, or a recomputation that finds nobody. */
  predicate CanExpire(ev: Event, id: string, expiry: int)
  {
    match ev
    case Vote(c) => c.height >= expiry
    case RecomputeQuorum(x, eligible) => x == id && eligible == []
  }

  lemma StepExpires(st: Store, ev: Event, id: string)
    requires Inv(st) && id in st.ballots && st.ballots[id].status.Pending?
    ensures id in Step(st, ev).ballots && Step(st, ev).ballots[id].expiry == st.ballots[id].expiry
    ensures Step(st, ev).ballots[id].status.Expired? ==> CanExpire(ev, id, st.ballots[id].expiry)
  {
    hide Count;
  }

  /** A pending ballot expires over a run only by a vote event past its expiry or an empty recomputation. */
  lemma {:induction false} ExpiredHasCause(st: Store, run: seq<Event>, id: string)
    requires Inv(st) && id in st.ballots && st.ballots[id].status.Pending?
    requires id in RunAll(st, run).ballots && RunAll(st, run).ballots[id].status.Expired?
    ensures exists ev :: ev in run && CanExpire(ev, id, st.ballots[id].expiry)
    decreases |run|
  {
    hide Inv;
    if run != [] {
      StepKeeps(st, run[0]);
      StepExpires(st, run[0], id);
      assert run[0] in run && forall ev :: ev in run[1..] ==> ev in run;
      var st' := Step(st, run[0]);
      if st'.ballots[id].status.Pending? {
        ExpiredHasCause(st', run[1..], id);
      } else {
        EndedIsForever(st', run[1..], id);
      }
    }
  }

  // ---------- Quorum over runs ----------

  /** Every vote of the run on this ballot asks for a quorum of more than two thirds, or more. */
  ghost predicate QuorumRun(run: seq<Event>, id: string)
  {
    forall ev :: ev in run ==> QuorumVote(ev, id)
  }

  ghost predicate QuorumVote(ev: Event, id: string)
  {
    ev.Vote? && ev.call.id == id ==> ev.call.votesNeeded >= Quorum(|ev.call.voters|)
  }

  ghost predicate HasQuorum(st: Store, id: string)
  {
    id in st.ballots ==> st.ballots[id].threshold >= Quorum(|st.ballots[id].voters|)
  }

  lemma StepKeepsQuorum(st: Store, ev: Event, id: string)
    requires Inv(st) && HasQuorum(st, id) && QuorumVote(ev, id)
    ensures HasQuorum(Step(st, ev), id)
  {
    hide Count;
  }

  /** Recomputations included, the threshold of the ballot stays at a quorum of its voters. */
  lemma {:induction false} RunKeepsQuorum(st: Store, run: seq<Event>, id: string)
    requires Inv(st) && HasQuorum(st, id) && QuorumRun(run, id)
    ensures HasQuorum(RunAll(st, run), id)
    decreases |run|
  {
    if run != [] {
      StepKeeps(st, run[0]);
      assert run[0] in run;
      StepKeepsQuorum(st, run[0], id);
      RunKeepsQuorum(Step(st, run[0]), run[1..], id);
    }
  }

  /** In every reachable state a passed ballot carries yes votes of more than two thirds of its voters. */
  lemma PassedHasQuorum(run: seq<Event>, id: string)
    requires QuorumRun(run, id) && id in RunAll(EmptyStore, run).ballots
    ensures var b := RunAll(EmptyStore, run).ballots[id];
            && (b.status.Passed? ==> 3 * Count(b.votes, Success) > 2 * |b.voters|)
            && (b.status.Rejected? ==> 3 * Count(b.votes, Failure) > 2 * |b.voters|)
  {
    RunKeepsQuorum(EmptyStore, run, id);
  }

  /** Two passed ballots of the same voters share more than a third of them. */
  lemma ConflictNeedsAThird(run: seq<Event>, x: string, y: string)
    requires QuorumRun(run, x) && QuorumRun(run, y)
    requires var st := RunAll(EmptyStore, run);
             && x in st.ballots && y in st.ballots
             && st.ballots[x].status.Passed? && st.ballots[y].status.Passed?
             && st.ballots[x].voters == st.ballots[y].voters
    ensures var st := RunAll(EmptyStore, run);
            |st.ballots[x].votes| == |st.ballots[y].votes|
            && 3 * CountBoth(st.ballots[x].votes, st.ballots[y].votes) > |st.ballots[x].voters|
  {
    RunKeepsQuorum(EmptyStore, run, x);
    RunKeepsQuorum(EmptyStore, run, y);
    var st := RunAll(EmptyStore, run);
    QuorumIntersection(st.ballots[x], st.ballots[y]);
  }

  // ---------- Recomputing a stuck ballot ----------

  /** Recomputing expires a pending ballot exactly when no voter is eligible, and otherwise leaves it pending. */
  lemma RecomputeExpiresIff(st: Store, id: string, eligible: seq<string>)
    requires Inv(st) && id in st.ballots && st.ballots[id].status.Pending?
    ensures var r := Recompute(st, id, eligible);
            && (r.0.ballots[id].status.Expired? <==> eligible == [])
            && (r.0.ballots[id].status.Pending? <==> eligible != [])
            && r.1 == Done(r.0.ballots[id].status)
  {
  }

  ghost predicate OnlyRecomputes(run: seq<Event>)
  {
    forall ev :: ev in run ==> ev.RecomputeQuorum?
  }

  /** Over any recomputations a pending ballot expires exactly when one of them found no eligible voter. */
  lemma {:induction false} RecomputationsExpireIff(st: Store, run: seq<Event>, id: string)
    requires Inv(st) && id in st.ballots && st.ballots[id].status.Pending? && OnlyRecomputes(run)
    ensures id in RunAll(st, run).ballots
    ensures RunAll(st, run).ballots[id].status.Expired? <==> RecomputeQuorum(id, []) in run
    decreases |run|
  {
    hide Inv;
    if run != [] {
      assert run[0] in run && run == [run[0]] + run[1..];
      StepKeeps(st, run[0]);
      StepFreezes(st, run[0], id);
      var st' := Step(st, run[0]);
      if run[0] == RecomputeQuorum(id, []) {
        EndedIsForever(st', run[1..], id);
      } else {
        OtherRecomputeKeepsPending(st, run[0].id, run[0].eligible, id);
        RecomputationsExpireIff(st', run[1..], id);
      }
    }
  }

  lemma OtherRecomputeKeepsPending(st: Store, x: string, eligible: seq<string>, id: string)
    requires Inv(st) && id in st.ballots && st.ballots[id].status.Pending? && (x != id || eligible != [])
    ensures id in Recompute(st, x, eligible).0.ballots && Recompute(st, x, eligible).0.ballots[id].status.Pending?
  {
  }

  /** The stuck ballot of two voters, one gone: recomputing for the one who voted leaves it pending, so it cannot be reverted. */
  lemma StuckBallotStaysPending(st: Store, id: string)
    requires Inv(st) && id in st.ballots
    requires st.ballots[id] == Ballot(["a", "b"], [Success, NotYetVoted], Quorum(2), Pending, 1, 9)
    ensures var b := Recompute(st, id, ["a"]).0.ballots[id];
            b.status.Pending? && Valid(b) && !CanBeDecided(b)
  {
    RecomputedCanBeStuck();
  }

  // ---------- Ballots that need everyone ----------

  /** Every vote of the run on this ballot asks for all the voters it names. */
  ghost predicate AsksForAll(run: seq<Event>, id: string)
  {
    forall ev :: ev in run && ev.Vote? && ev.call.id == id ==> ev.call.votesNeeded == |ev.call.voters|
  }

  ghost predicate NeedsAll(st: Store, id: string)
  {
    id in st.ballots ==> st.ballots[id].threshold == |st.ballots[id].voters|
  }

  lemma VoteKeepsNeedsAll(st: Store, c: VoteCall, id: string)
    requires Inv(st) && NeedsAll(st, id) && (c.id == id ==> c.votesNeeded == |c.voters|)
    ensures NeedsAll(VoteOn(st, c).0, id)
  {
    hide Count;
  }

  lemma {:induction false} RunKeepsNeedsAll(st: Store, run: seq<Event>, id: string)
    requires Inv(st) && NeedsAll(st, id) && AsksForAll(run, id) && NeverRecomputed(run, id)
    ensures NeedsAll(RunAll(st, run), id)
    decreases |run|
  {
    if run != [] {
      StepKeeps(st, run[0]);
      assert run[0] in run;
      if run[0].Vote? {
        VoteKeepsNeedsAll(st, run[0].call, id);
      }
      RunKeepsNeedsAll(Step(st, run[0]), run[1..], id);
    }
  }

  /** A ballot that asks for everyone and is never recomputed passes only when every voter said yes. */
  lemma UnanimousOverRun(run: seq<Event>, id: string, k: nat)
    requires AsksForAll(run, id) && NeverRecomputed(run, id) && id in RunAll(EmptyStore, run).ballots
    requires RunAll(EmptyStore, run).ballots[id].status.Passed? && k < |RunAll(EmptyStore, run).ballots[id].voters|
    ensures k < |RunAll(EmptyStore, run).ballots[id].votes| && RunAll(EmptyStore, run).ballots[id].votes[k] == Success
  {
    RunKeepsNeedsAll(EmptyStore, run, id);
    var b := RunAll(EmptyStore, run).ballots[id];
    CountsCover(b.votes);
    if b.votes[k] != Success {
      CountPositive(b.votes, k);
    }
  }

  // ---------- The keeper object ----------

  class Keeper {
    var ballots: map<string, Ballot>
    var activeBallotIDs: set<string>
    var expiredBallotIDs: set<string>
    var finalizedBallotIDs: set<string>

    constructor ()
      ensures Value() == EmptyStore && Inv(Value())
    {
      ballots, activeBallotIDs, expiredBallotIDs, finalizedBallotIDs := map[], {}, {}, {};
    }

    function Value(): Store
      reads this
    {
      Store(ballots, activeBallotIDs, expiredBallotIDs, finalizedBallotIDs)
    }

    method MarkBallotExpired(id: string) returns (found: bool)
      modifies this
      ensures found <==> id in old(ballots)
      ensures Value() == if found then MarkExpired(old(Value()), id) else old(Value())
    {
      if id !in ballots {
        return false;
      }
      activeBallotIDs := activeBallotIDs - {id};
      expiredBallotIDs := expiredBallotIDs + {id};
      ballots := ballots[id := ballots[id].(status := Expired)];
      return true;
    }

    method MarkBallotFinalized(id: string, status: Status) returns (ok: bool)
      modifies this
      ensures ok <==> (status.Passed? || status.Rejected?) && id in old(ballots)
      ensures Value() == if ok then MarkFinalized(old(Value()), id, status) else old(Value())
    {
      if status != Passed && status != Rejected {
        return false;
      }
      if id !in ballots {
        return false;
      }
      activeBallotIDs := activeBallotIDs - {id};
      finalizedBallotIDs := finalizedBallotIDs + {id};
      ballots := ballots[id := ballots[id].(status := status)];
      return true;
    }

    /** Collects the due ballots, then expires them one by one. */
    method ExpireBallotsBeforeHeight(height: int)
      requires Inv(Value())
      modifies this
      ensures Value() == ExpireAll(old(Value()), Due(old(Value()), height))
    {
      hide ExpireAll, Inv, MarkExpired, Due;
      var toExpire := Due(Value(), height);
      ghost var before, all := Value(), toExpire;
      assert all - toExpire == {};
      ExpireNone(before);
      while toExpire != {}
        invariant toExpire <= all <= before.ballots.Keys
        invariant Value() == ExpireAll(before, all - toExpire)
        decreases |toExpire|
      {
        var id :| id in toExpire;
        ExpireOneMore(before, all - toExpire, id);
        assert all - toExpire + {id} == all - (toExpire - {id});
        var found := MarkBallotExpired(id);
        toExpire := toExpire - {id};
      }
      assert all - toExpire == all;
    }

    method CreateBallot(c: VoteCall)
      requires Inv(Value())
      modifies this
      ensures Value() == Create(old(Value()), c)
    {
      ExpireBallotsBeforeHeight(c.height);
      ballots := ballots[c.id := NewBallot(c)];
      activeBallotIDs := activeBallotIDs + {c.id};
    }

    /** Get or create, reject late votes, add the vote, and finalize when the count says so. */
    method VoteOnBallot(c: VoteCall) returns (r: VoteOutcome)
      requires Inv(Value())
      modifies this
      ensures Inv(Value())
      ensures Value() == VoteOn(old(Value()), c).0 && r == VoteOn(old(Value()), c).1
    {
      VoteKeeps(Value(), c);
      var isNew := c.id !in ballots;
      if isNew {
        CreateKeeps(Value(), c);
        CreateBallot(c);
      }
      hide Inv, Count, Create;
      var ballot := ballots[c.id];
      if c.height >= ballot.expiry {
        if ballot.status.Pending? {
          var _ := MarkBallotExpired(c.id);
          return Denied(LateVote);
        }
      }
      if !ballot.status.Pending? {
        return Denied(NotPending);
      }
      ValidIn(Value(), c.id);
      var cast := AddVote(ballot, c.voter, c.vote);
      if cast.Refused? {
        return Denied(cast.reason);
      }
      ballot := cast.ballot;
      ballots := ballots[c.id := ballot];
      var yes, no := CountVotes(ballot.votes);
      if yes >= ballot.threshold {
        var _ := MarkBallotFinalized(c.id, Passed);
        return Voted(true, isNew);
      }
      if no >= ballot.threshold {
        var _ := MarkBallotFinalized(c.id, Rejected);
        return Voted(true, isNew);
      }
      return Voted(false, isNew);
    }

    method RecomputeBallotQuorum(id: string, eligible: seq<string>) returns (r: RecomputeOutcome)
      requires Inv(Value())
      modifies this
      ensures Inv(Value())
      ensures Value() == Recompute(old(Value()), id, eligible).0 && r == Recompute(old(Value()), id, eligible).1
    {
      RecomputeKeeps(Value(), id, eligible);
      if id !in ballots {
        return NotFound;
      }
      var ballot := ballots[id];
      if !ballot.status.Pending? {
        return NotPendingBallot;
      }
      if |eligible| == 0 {
        var _ := MarkBallotExpired(id);
        return Done(Expired);
      }
      ballots := ballots[id := Recomputed(ballot, eligible)];
      return Done(Pending);
    }
  }

  lemma ExpireOneMore(st: Store, done: set<string>, id: string)
    requires done <= st.ballots.Keys && id in st.ballots && id !in done
    ensures ExpireAll(st, done).ballots.Keys == ExpireAll(st, done + {id}).ballots.Keys == st.ballots.Keys
    ensures MarkExpired(ExpireAll(st, done), id) == ExpireAll(st, done + {id})
  {
    var x, y := MarkExpired(ExpireAll(st, done), id), ExpireAll(st, done + {id});
    assert x.ballots == y.ballots;
    assert x.active == y.active;
    assert x.expired == y.expired;
  }

  lemma ExpireNone(st: Store)
    ensures ExpireAll(st, {}) == st
  {
    assert ExpireAll(st, {}).ballots == st.ballots;
  }
}
