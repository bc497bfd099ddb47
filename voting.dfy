/**
 * `BlockchainVotingSystem`: the voter roll, the set of voters who have voted
 * and the ledger, with the authentication decision, vote casting, counting
 * and the winner. Webcam scanning, spreadsheet I/O and console output are
 * outside the model; what they would supply comes in as parameters.
 */
module Voting {
  import opened Options
  import opened HashChain
  import opened Ledger
  import opened VoteTally

  /** Python's `if voter_id:` on a scanned id: `None` and the empty string are false. */
  predicate Truthy(voterId: Option<string>)
  {
    voterId.Some? && voterId.value != ""
  }

  class VotingSystem {
    const blockchain: Blockchain
    /** The voter roll: the ids that are keys of `voters`. */
    var voters: set<string>
    /** `voted_voters`. */
    var votedVoters: set<string>
    /** The votes cast so far, one per block after the genesis block. */
    ghost var ballots: seq<Ballot>

    ghost predicate Valid()
      reads this, blockchain
    {
      && blockchain.Valid()
      && Records(blockchain.chain[1..], ballots)
      && votedVoters == (set b | b in ballots :: b.voterId)
    }

    /** The intended rule: no voter has more than one ballot in the ledger. */
    ghost predicate OneBallotPerVoter()
      reads this
    {
      forall i, j | 0 <= i < j < |ballots| :: ballots[i].voterId != ballots[j].voterId
    }

    /** `BlockchainVotingSystem()` followed by loading the roll: a fresh ledger holding
        only its genesis block, the roll `voters`, and nobody marked as having voted. */
    constructor (digest: string -> string, voters: set<string>, genesisStored: Timestamp, genesisHashed: Timestamp)
      ensures Valid() && OneBallotPerVoter()
      ensures fresh(blockchain) && blockchain.digest == digest
      ensures blockchain.chain == [GenesisBlock(digest, genesisStored, genesisHashed)]
      ensures this.voters == voters && votedVoters == {} && ballots == []
    {
      blockchain := new Blockchain(digest, genesisStored, genesisHashed);
      this.voters := voters;
      votedVoters := {};
      ballots := [];
    }

    /** The decision `authenticate_voter` makes once the QR scan has produced `scanned`
        (`None` when the scan was abandoned): accept an id on the roll that has not voted. */
    function AuthenticateVoter(scanned: Option<string>): (r: Option<string>)
      reads this
      ensures r.Some? <==> scanned.Some? && scanned.value in voters && scanned.value !in votedVoters
      ensures r.Some? ==> r == scanned
    {
      match scanned
      case None => None
      case Some(id) =>
        if id in voters then
          if id !in votedVoters then Some(id) else None
        else None
    }

    /** `cast_vote`: for a truthy id, append a block with the vote payload and mark the id
        as having voted. It does not consult `voted_voters`, so casting again for an id
        that has voted appends a second ballot for that voter. */
    method CastVote(voterId: Option<string>, candidate: string, timestamp: Timestamp) returns (cast: bool)
      requires Valid()
      modifies this, blockchain
      ensures Valid()
      ensures cast == Truthy(voterId)
      ensures voters == old(voters)
      ensures !cast ==>
                && blockchain.chain == old(blockchain.chain)
                && votedVoters == old(votedVoters) && ballots == old(ballots)
      ensures cast ==>
                && blockchain.chain == old(blockchain.chain) +
                     [NextBlock(blockchain.digest, old(blockchain.LatestBlock()), timestamp, Payload(voterId.value, candidate))]
                && votedVoters == old(votedVoters) + {voterId.value}
                && ballots == old(ballots) + [Ballot(voterId.value, candidate)]
      ensures cast ==> AuthenticateVoter(voterId) == None
      ensures cast && voterId.value in old(votedVoters) ==> !OneBallotPerVoter()
    {
      if voterId.Some? && voterId.value != "" {
        var id := voterId.value;
        ghost var before := blockchain.chain;
        ghost var earlier := ballots;
        var voteData := Payload(id, candidate);
        blockchain.AddBlock(voteData, timestamp);
        votedVoters := votedVoters + {id};
        ballots := ballots + [Ballot(id, candidate)];
        assert blockchain.chain[1..] == before[1..] + [blockchain.chain[|before|]];
        if id in old(votedVoters) {
          var b :| b in earlier && b.voterId == id;
          var i :| 0 <= i < |earlier| && earlier[i] == b;
          assert ballots[i].voterId == ballots[|earlier|].voterId;
        }
        cast := true;
      } else {
        cast := false;
      }
    }

    /** One round of the voting loop: authenticate the scanned id and, when that yields a
        truthy id, cast its vote. Used this way, casting keeps one ballot per voter. */
    method AuthenticateAndCast(scanned: Option<string>, candidate: string, timestamp: Timestamp)
      returns (voterId: Option<string>)
      requires Valid() && OneBallotPerVoter()
      modifies this, blockchain
      ensures Valid() && OneBallotPerVoter()
      ensures voterId == old(AuthenticateVoter(scanned))
      ensures voters == old(voters)
      ensures Truthy(voterId) ==>
                && blockchain.chain == old(blockchain.chain) +
                     [NextBlock(blockchain.digest, old(blockchain.LatestBlock()), timestamp, Payload(voterId.value, candidate))]
                && votedVoters == old(votedVoters) + {voterId.value}
                && ballots == old(ballots) + [Ballot(voterId.value, candidate)]
      ensures !Truthy(voterId) ==>
                && blockchain.chain == old(blockchain.chain)
                && votedVoters == old(votedVoters) && ballots == old(ballots)
    {
      voterId := AuthenticateVoter(scanned);
      if Truthy(voterId) {
        ghost var earlier := ballots;
        var _ := CastVote(voterId, candidate, timestamp);
        forall i | 0 <= i < |earlier|
          ensures earlier[i].voterId != voterId.value
        {
          assert earlier[i] in earlier;
        }
      }
    }

    /** `count_votes` on this system's chain: the tally of the blocks after the genesis
        block. When every ballot is readable it counts exactly the ballots cast. */
    method CountVotes() returns (results: Option<Results>)
      requires Valid()
      ensures results == Tally(blockchain.chain[1..])
      ensures results.Some? ==> WellKept(results.value) && Total(results.value) == |blockchain.chain| - 1
      ensures (forall i | 0 <= i < |ballots| :: Readable(ballots[i])) ==>
                results == Some(Count(CandidateList(ballots)))
    {
      results := CountBlockVotes(blockchain.chain[1..]);
      if forall i | 0 <= i < |ballots| :: Readable(ballots[i]) {
        TallyOfCastVotes(blockchain.chain[1..], ballots);
      }
    }

    /** `determine_winner`: the first candidate with the largest count and that count,
        `(None, 0)` when no vote was cast; `None` where counting raises. */
    method DetermineWinner() returns (outcome: Option<Outcome>)
      requires Valid()
      ensures outcome.None? <==> Tally(blockchain.chain[1..]).None?
      ensures outcome.Some? ==> outcome.value == Winner(Tally(blockchain.chain[1..]).value)
      ensures (forall i | 0 <= i < |ballots| :: Readable(ballots[i])) ==>
                outcome == Some(Winner(Count(CandidateList(ballots))))
    {
      var results := CountVotes();
      match results
      case None =>
        outcome := None;
      case Some(r) =>
        outcome := Some(Winner(r));
    }
  }
}
