/** The round/vote state controller of the page: six pieces of state and the four callbacks that
    change them (round tick, simulated vote, the start and the completion of the local user's
    vote). Each callback runs to completion before the next, so each is one atomic method. */
module Controller {
  import opened Battle
  import opened RecentVoters
  import opened Display

  /** A vote accepted in the current round, with whether the local user cast it. */
  datatype Ballot = Ballot(event: VoterEvent, byLocalUser: bool)

  /** Votes for `id` among `bs`. */
  function CountFor(bs: seq<Ballot>, id: ArtworkId): nat {
    if bs == [] then 0
    else CountFor(bs[..|bs| - 1], id) + (if bs[|bs| - 1].event.artworkId == id then 1 else 0)
  }

  /** Ballots of the local user among `bs`. */
  function LocalCount(bs: seq<Ballot>): nat {
    if bs == [] then 0
    else LocalCount(bs[..|bs| - 1]) + (if bs[|bs| - 1].byLocalUser then 1 else 0)
  }

  /** The events of `bs`, in the same order. */
  function Events(bs: seq<Ballot>): (es: seq<VoterEvent>)
    ensures |es| == |bs|
  {
    if bs == [] then [] else Events(bs[..|bs| - 1]) + [bs[|bs| - 1].event]
  }

  /** Every ballot is counted for exactly one of the two artworks. */
  lemma {:induction false} CountsCoverBallots(bs: seq<Ballot>)
    ensures CountFor(bs, 1) + CountFor(bs, 2) == |bs|
  {
    if bs != [] {
      CountsCoverBallots(bs[..|bs| - 1]);
    }
  }

  lemma AppendBallot(bs: seq<Ballot>, b: Ballot)
    ensures (bs + [b])[..|bs|] == bs
    ensures CountFor(bs + [b], b.event.artworkId) == CountFor(bs, b.event.artworkId) + 1
    ensures CountFor(bs + [b], Other(b.event.artworkId)) == CountFor(bs, Other(b.event.artworkId))
    ensures LocalCount(bs + [b]) == LocalCount(bs) + (if b.byLocalUser then 1 else 0)
    ensures Events(bs + [b]) == Events(bs) + [b.event]
  {
    assert (bs + [b])[..|bs|] == bs;
  }

  class Arena {
    /** Votes per artwork in this round. */
    var votes: Tally
    /** The artwork the local user voted for in this round, if any. */
    var userVote: Option<ArtworkId>
    /** Milliseconds left in the round. */
    var timeLeft: nat
    /** Ordinal of the current round, from 1. */
    var roundNumber: nat
    /** The recent-voters feed, newest first. */
    var recentVoters: seq<VoterEvent>
    /** A vote of the local user is waiting out its delay. */
    var isVoting: bool

    /** The votes accepted since the round began, oldest first. */
    ghost var ballots: seq<Ballot>
    /** The artwork the suspended vote of the local user is for. */
    ghost var pending: Option<ArtworkId>

    ghost predicate Valid()
      reads this
    {
      IsTally(votes) &&
      votes[1] == CountFor(ballots, 1) && votes[2] == CountFor(ballots, 2) &&
      recentVoters == Newest(Events(ballots)) &&
      (forall i :: 0 <= i < |recentVoters| ==> recentVoters[i].country in Countries) &&
      LocalCount(ballots) == (if userVote.Some? then 1 else 0) &&
      (isVoting <==> pending.Some?) &&
      (isVoting ==> userVote == None) &&
      0 < timeLeft <= RoundDuration && timeLeft % TickLength == 0 &&
      roundNumber >= 1
    }

    /** The vote buttons are disabled once the user has voted or while a vote is in flight. */
    predicate VoteDisabled()
      reads this
    {
      userVote.Some? || isVoting
    }

    /** The state the page starts in: round 1, a full hour, nothing voted. */
    constructor ()
      ensures Valid()
      ensures votes == EmptyTally && userVote == None && timeLeft == RoundDuration
      ensures roundNumber == 1 && recentVoters == [] && !isVoting
      ensures ballots == [] && pending == None
    {
      votes := EmptyTally;
      userVote := None;
      timeLeft := RoundDuration;
      roundNumber := 1;
      recentVoters := [];
      isVoting := false;
      ballots := [];
      pending := None;
    }

    /** The once-a-second round timer. With more than a second left it takes a second off and
        changes nothing else; otherwise it starts the next round. The reset leaves `isVoting`
        alone, so a vote in flight completes in the new round. */
    method Tick()
      requires Valid()
      modifies this
      ensures Valid()
      ensures isVoting == old(isVoting) && pending == old(pending)
      ensures old(timeLeft) > TickLength ==>
        timeLeft == old(timeLeft) - TickLength &&
        votes == old(votes) && userVote == old(userVote) && roundNumber == old(roundNumber) &&
        recentVoters == old(recentVoters) && ballots == old(ballots)
      ensures old(timeLeft) <= TickLength ==>
        timeLeft == RoundDuration &&
        votes == EmptyTally && userVote == None && roundNumber == old(roundNumber) + 1 &&
        recentVoters == [] && ballots == []
    {
      if timeLeft <= TickLength {
        votes := EmptyTally;
        userVote := None;
        roundNumber := roundNumber + 1;
        recentVoters := [];
        ballots := [];
        timeLeft := RoundDuration;
      } else {
        timeLeft := timeLeft - TickLength;
      }
    }

    /** Adds `e` to the round as a ballot and to the feed; shared by both kinds of vote. */
    method Record(e: VoterEvent, byLocalUser: bool)
      requires IsTally(votes)
      requires votes[1] == CountFor(ballots, 1) && votes[2] == CountFor(ballots, 2)
      requires recentVoters == Newest(Events(ballots))
      modifies this
      ensures votes == old(votes)[e.artworkId := old(votes)[e.artworkId] + 1]
      ensures votes[1] == CountFor(ballots, 1) && votes[2] == CountFor(ballots, 2)
      ensures recentVoters == Prepend10(e, old(recentVoters))
      ensures recentVoters == Newest(Events(ballots))
      ensures ballots == old(ballots) + [Ballot(e, byLocalUser)]
      ensures LocalCount(ballots) == old(LocalCount(ballots)) + (if byLocalUser then 1 else 0)
      ensures userVote == old(userVote) && timeLeft == old(timeLeft)
      ensures roundNumber == old(roundNumber) && isVoting == old(isVoting) && pending == old(pending)
    {
      var b := Ballot(e, byLocalUser);
      AppendBallot(ballots, b);
      PrependKeepsNewest(Events(ballots), e);
      votes := votes[e.artworkId := votes[e.artworkId] + 1];
      recentVoters := Prepend10(e, recentVoters);
      ballots := ballots + [b];
    }

    /** One vote of the simulated feed: artwork `artworkId`, origin `Countries[countryIdx]`,
        at time `timestamp`. */
    method SimulatedVote(artworkId: ArtworkId, countryIdx: nat, timestamp: int)
      requires Valid()
      requires countryIdx < |Countries|
      modifies this
      ensures Valid()
      ensures votes == old(votes)[artworkId := old(votes)[artworkId] + 1]
      ensures votes[Other(artworkId)] == old(votes)[Other(artworkId)]
      ensures recentVoters == Prepend10(VoterEvent(Countries[countryIdx], artworkId, timestamp), old(recentVoters))
      ensures ballots == old(ballots) + [Ballot(VoterEvent(Countries[countryIdx], artworkId, timestamp), false)]
      ensures userVote == old(userVote) && timeLeft == old(timeLeft) && roundNumber == old(roundNumber)
      ensures isVoting == old(isVoting) && pending == old(pending)
    {
      NewestFirst(Events(ballots));
      Record(VoterEvent(Countries[countryIdx], artworkId, timestamp), false);
    }

    /** The first half of the local user's vote: refused without any change when the user has
        already voted this round or a vote is in flight; otherwise only marks a vote in flight. */
    method BeginVote(artworkId: ArtworkId)
      requires Valid()
      modifies this
      ensures Valid()
      ensures old(VoteDisabled()) ==> isVoting == old(isVoting) && pending == old(pending)
      ensures !old(VoteDisabled()) ==> isVoting && pending == Some(artworkId)
      ensures votes == old(votes) && userVote == old(userVote) && timeLeft == old(timeLeft)
      ensures roundNumber == old(roundNumber) && recentVoters == old(recentVoters)
      ensures ballots == old(ballots)
    {
      if userVote.Some? || isVoting {
        return;
      }
      isVoting := true;
      pending := Some(artworkId);
    }

    /** The second half of the local user's vote, after the delay: counts the vote, records the
        choice, clears the in-flight flag and logs the vote under the local user's flag. It does
        not look at the guard again. */
    method CompleteVote(artworkId: ArtworkId, timestamp: int)
      requires Valid()
      requires pending == Some(artworkId)
      modifies this
      ensures Valid()
      ensures votes == old(votes)[artworkId := old(votes)[artworkId] + 1]
      ensures votes[Other(artworkId)] == old(votes)[Other(artworkId)]
      ensures userVote == Some(artworkId) && !isVoting && pending == None
      ensures recentVoters == Prepend10(VoterEvent(LocalUserCountry, artworkId, timestamp), old(recentVoters))
      ensures ballots == old(ballots) + [Ballot(VoterEvent(LocalUserCountry, artworkId, timestamp), true)]
      ensures LocalCount(ballots) == 1
      ensures timeLeft == old(timeLeft) && roundNumber == old(roundNumber)
    {
      NewestFirst(Events(ballots));
      Record(VoterEvent(LocalUserCountry, artworkId, timestamp), true);
      userVote := Some(artworkId);
      isVoting := false;
      pending := None;
    }

    /** Total votes of the round, which is the number of ballots accepted since it began. */
    method TotalVotesNow() returns (n: nat)
      requires Valid()
      ensures n == TotalVotes(votes) && n == |ballots|
    {
      CountsCoverBallots(ballots);
      n := votes[1] + votes[2];
    }
  }

  /** The first scenario of the page: one vote for artwork 1 from a fresh start. */
  method FirstVoteScenario()
  {
    var a := new Arena();
    a.BeginVote(1);
    assert a.isVoting && a.VoteDisabled();
    a.CompleteVote(1, 0);
    assert a.votes[1] == 1 && a.votes[2] == 0;
    assert a.userVote == Some(1);
    assert a.recentVoters == [VoterEvent(LocalUserCountry, 1, 0)];
    a.BeginVote(2);
    assert a.votes[2] == 0 && a.userVote == Some(1) && !a.isVoting;
  }
}
