# Voting blockchain — a Dafny model

This project models the core of `Voting_Blockchain.py`. The core is a small, single-writer, in-memory ledger whose blocks are chained by hash, with a vote tally on top of it.

- **Ledger.** A `Blockchain` starts with a genesis block. `add_block` appends a block linked to the latest one by hash. `is_chain_valid` scans the chain and recomputes every hash and link after the genesis block.
- **Voting.** A `BlockchainVotingSystem` has a voter roll and a set of voters who have voted.
  - `authenticate_voter` accepts a scanned id that is on the roll and has not voted.
  - `cast_vote` stores `"Voter ID: {id}, Candidate: {candidate}"` as a new block.
  - `count_votes` splits each payload back apart and counts votes per candidate in a dict.
  - `determine_winner` takes the dict's `max`.

The model has four modules:

- `HashChain` (`hash_chain.dfy`) models `calculate_hash`.
  - The hashed text is `str(index) + previous_hash + str(timestamp) + data`.
  - The digest is any function `string -> string`, not SHA-256 specifically. Every result therefore holds for SHA-256.
  - Where a tamper-detection result needs more than the digest being a function, it concludes that the digest collides on two distinct texts. It never assumes the hash is injective.
- `Ledger` (`ledger.dfy`) holds:
  - the `Block` record;
  - the invariant `WellFormed`: a genesis block first, every index equal to its position, and every link checked;
  - the `Blockchain` class, whose `chain` field is a `seq<Block>` that `AddBlock` reassigns. `IsChainValid` is the index loop with early returns, proved equal to the predicate `ChainValid`.
- `VoteTally` (`tally.dfy`) holds:
  - Python's `str.split`, with its round trip through `join`;
  - the payload format and its parser;
  - the `results` dict, modelled as its keys in insertion order plus a map of counts;
  - `CountBlockVotes`, the counting loop, proved against the specification function `Tally`;
  - `Winner`, which is `max(results, key=results.get)` and returns the first maximal key.
- `Voting` (`voting.dfy`) holds the `VotingSystem` class.
  - It has the roll, `votedVoters`, the ledger, and a ghost list of the ballots cast so far.
  - Its invariant ties each block after the genesis block to its ballot, and `votedVoters` to the ballots' voter ids.

Several behaviours of the code are stated and proved as they are, not smoothed over:

- **Genesis clock.** The genesis block reads the clock twice. `GenesisBlock` takes one reading for the stored timestamp and one for the hashed timestamp. `GenesisHashNeedsEqualReadings` shows that the stored hash matches the stored fields only when the two readings render alike, or when the digest collides on the two hashed texts.
- **Genesis never recomputed.** Validation never recomputes the genesis block's hash from its fields and never reads its timestamp or data (`GenesisContentUnchecked`). The genesis hash is still compared, as the previous hash of the block at position 1, so rewriting it is caught on a chain of two or more blocks (`TamperedHashDetected`).
- **Double votes.** `cast_vote` does not consult `voted_voters`.
  - `CastVote` proves that casting again for an id that has already voted breaks `OneBallotPerVoter` (at most one ballot per voter).
  - `AuthenticateAndCast`, one round of the program's main loop, preserves that invariant.
- **Separators in names.** `count_votes` reads the text between the first and second `", "` of a payload, and takes the second `": "`-separated piece of that field. Names holding a separator therefore go wrong:
  - A candidate `x + ", " + y` is counted for `x` when the voter id holds no `", "` and `x` holds neither `", "` nor `": "` (`CommaInCandidateMiscounted`). For example, "A, B" counts for "A", but a candidate `"a: b, y"` is read back as `"a"`, not `"a: b"`.
  - A voter id `p + ", " + q`, with `p` and `q` free of `", "`, replaces the candidate by the second `": "`-separated piece of `q`, whatever was cast (`CommaInVoterIdReadsIdPart`). For example, the id `"a, b: c"` votes for `"c"`, and the id `"a, Candidate: Bob"` votes for `"Bob"` every time (`CandidateInVoterIdMisattributed`). Only when `q` also holds no `": "` does `count_votes` raise (`CommaInVoterIdUnreadable`). In the model, raising is `None`.

## Model

| member | source | states |
|---|---|---|
| HashChain.DecimalText | Voting_Blockchain.py:23 | `str(index)` is a non-empty string of decimal digits with no leading zero, and has a single digit exactly when the index is below 10 |
| HashChain.DecimalRoundTrip | Voting_Blockchain.py:23 | the decimal text of an index reads back as that index |
| HashChain.DecimalTextInjective | Voting_Blockchain.py:23 | distinct indices have distinct decimal texts |
| HashChain.HashInput | Voting_Blockchain.py:23 | the text that is hashed: the decimal text of the index, then the previous hash, the timestamp text and the data, concatenated in that order |
| HashChain.CalculateHash | Voting_Blockchain.py:22-24 | the digest applied to that text |
| HashChain.HashInputSeparatesIndex | Voting_Blockchain.py:22-23 | changing only the index changes the text that is hashed |
| HashChain.HashInputSeparatesPrevious | Voting_Blockchain.py:22-23 | changing only the previous hash changes the text that is hashed |
| HashChain.HashInputSeparatesTimestamp | Voting_Blockchain.py:22-23 | changing only the timestamp changes the text that is hashed |
| HashChain.HashInputSeparatesData | Voting_Blockchain.py:22-23 | changing only the data changes the text that is hashed |
| Ledger.GenesisBlock | Voting_Blockchain.py:19-20 | the genesis block has index 0, previous hash "0", data "Genesis Block" and the first clock reading as timestamp; its hash is that of the same fields with the second reading |
| Ledger.GenesisHashNeedsEqualReadings | Voting_Blockchain.py:20 | the genesis hash matches the genesis block's own fields only if the two clock readings are equal or the digest collides on the two hashed texts |
| Ledger.NextBlock | Voting_Blockchain.py:30-35 | the block `add_block` builds has index one more than the latest block, the latest block's hash as previous hash, the given timestamp and data, and a hash recomputable from its own fields |
| Ledger.AppendKeepsWellFormed | Voting_Blockchain.py:29-36 | appending the block `add_block` builds keeps the chain well formed (genesis first, index equals position, every link checked); the new block's index is the chain length, its previous hash is the last block's hash, and its hash is recomputable from its fields |
| Ledger.TamperedLinkDetected | Voting_Blockchain.py:46-47 | rewriting the previous hash of any block after the genesis block makes validation fail |
| Ledger.TamperedHashDetected | Voting_Blockchain.py:43-47 | rewriting the stored hash of any block makes validation fail, unless the chain has only its genesis block |
| Ledger.TamperedDataDetected | Voting_Blockchain.py:43-44 | rewriting the data of a block after the genesis block passes validation only if the digest collides on the old and new hashed texts |
| Ledger.TamperedTimestampDetected | Voting_Blockchain.py:43-44 | rewriting the timestamp of a block after the genesis block passes validation only if the digest collides |
| Ledger.TamperedIndexDetected | Voting_Blockchain.py:43-44 | rewriting the index of a block after the genesis block passes validation only if the digest collides |
| Ledger.GenesisContentUnchecked | Voting_Blockchain.py:39-49 | any timestamp and data may be put in the genesis block of a valid chain without making it invalid |
| Ledger.LinkOk | Voting_Blockchain.py:43-47 | the two checks at one position: the stored hash equals the hash recomputed from the block's fields, and the previous hash equals the preceding block's hash |
| Ledger.ChainValid | Voting_Blockchain.py:39-49 | both checks hold at every position from 1 to the end; the genesis block's own hash is never recomputed |
| Ledger.Blockchain.constructor | Voting_Blockchain.py:16-20 | a new ledger holds exactly the genesis block and is well formed |
| Ledger.Blockchain.LatestBlock | Voting_Blockchain.py:26-27 | the latest block is the last one, and on a well-formed chain its index is the length less one |
| Ledger.Blockchain.AddBlock | Voting_Blockchain.py:29-36 | the chain grows by exactly the linked block built from the latest block, the data and the timestamp; earlier blocks are unchanged and the chain stays well formed |
| Ledger.Blockchain.IsChainValid | Voting_Blockchain.py:38-49 | returns true exactly when every block after the genesis block has a hash equal to its recomputed hash and a previous hash equal to its predecessor's hash; true on every well-formed chain; changes nothing |
| VoteTally.Split | Voting_Blockchain.py:110-111 | `str.split` with a non-empty separator yields at least one piece |
| VoteTally.SplitJoin | Voting_Blockchain.py:110-111 | joining the pieces of a split with the separator gives the original text back |
| VoteTally.SplitFree | Voting_Blockchain.py:110-111 | text without the separator splits into itself alone |
| VoteTally.SplitAtFirst | Voting_Blockchain.py:110-111 | text whose first separator follows `a` splits into `a` followed by the pieces of the rest |
| VoteTally.Payload | Voting_Blockchain.py:99 | the vote payload: `"Voter ID: "`, the id, `", "`, `"Candidate: "`, the candidate |
| VoteTally.ParseCandidate | Voting_Blockchain.py:110-111 | the candidate read from a payload: the value of the second `", "`-separated field, `None` where the payload has only one field (IndexError) |
| VoteTally.FieldValue | Voting_Blockchain.py:111 | the second `": "`-separated piece of a field, `None` where the field has no `": "` (IndexError) |
| VoteTally.NoCommaUnreadable | Voting_Blockchain.py:110-111 | a payload without `", "` cannot be read, so counting raises on it |
| VoteTally.PayloadFields | Voting_Blockchain.py:99-110 | the first split of a payload whose id and candidate hold no `", "` yields exactly the labelled id field and the labelled candidate field |
| VoteTally.CandidateFieldParts | Voting_Blockchain.py:111 | the labelled candidate field of a candidate without `": "` splits into the label and the candidate |
| VoteTally.ParsePayload | Voting_Blockchain.py:99-111 | the candidate read back from a payload built by `cast_vote` is the candidate cast, whenever id and candidate hold no separator |
| VoteTally.CommaInCandidateMiscounted | Voting_Blockchain.py:99-111 | for a voter id without `", "` and a candidate `x + ", " + y` where `x` holds neither `", "` nor `": "`, the vote is read back as a vote for `x` |
| VoteTally.CommaInVoterIdReadsIdPart | Voting_Blockchain.py:99-111 | for a voter id `p + ", " + q` with `p` and `q` free of `", "`, the candidate read back is the value of the field `q` (its second `": "`-separated piece), whatever candidate was cast |
| VoteTally.CommaInVoterIdUnreadable | Voting_Blockchain.py:99-111 | for a voter id `p + ", " + q` with `p` and `q` free of `", "` and `q` free of `": "`, the payload cannot be read and counting raises on it |
| VoteTally.CandidateInVoterIdMisattributed | Voting_Blockchain.py:99-111 | for a voter id `p + ", Candidate: " + x` with `p` free of `", "` and `x` free of both separators, the vote is read back as a vote for `x`, whatever candidate was cast |
| VoteTally.Increment | Voting_Blockchain.py:112-115 | one loop step adds one to the count of the candidate and to no other; a new candidate becomes the last key, and an existing one leaves the keys as they were |
| VoteTally.IncrementKeepsDict | Voting_Blockchain.py:112-115 | one loop step keeps every key once and in step with the counts, and adds one to the total |
| VoteTally.Count | Voting_Blockchain.py:107-116 | the dict built from a list of candidates holds exactly the candidates voted for, each with its number of votes, each key once, and counts summing to the number of votes |
| VoteTally.Candidates | Voting_Blockchain.py:109-111 | the candidates read from the blocks, position by position, exist exactly when every payload can be read |
| VoteTally.Tally | Voting_Blockchain.py:107-116 | counting succeeds exactly when every payload can be read, and its counts then sum to the number of blocks counted |
| VoteTally.CountBlockVotes | Voting_Blockchain.py:107-116 | the counting loop returns the tally of the blocks, and raises (`None`) exactly where the tally does |
| VoteTally.TallyOfCastVotes | Voting_Blockchain.py:97-116 | for blocks written by `cast_vote` with readable ballots, the count for every candidate is the number of ballots cast for it, and the counts sum to the number of ballots |
| VoteTally.FirstMax | Voting_Blockchain.py:121 | `max(results, key=results.get)` picks a key whose count no key exceeds, and every key before it has a strictly smaller count |
| VoteTally.Winner | Voting_Blockchain.py:118-124 | `(None, 0)` exactly for an empty dict; otherwise the first key with the largest count, together with that count |
| VoteTally.WinnerIsKey | Voting_Blockchain.py:120-122 | on a non-empty dict the winner is a key, its vote count is the count stored under it, and no key has more |
| VoteTally.WinnerIsMostVoted | Voting_Blockchain.py:118-124 | over a list of votes, there is no winner exactly when there are no votes; otherwise the winner received votes, the count returned is its number of votes, and no candidate received more |
| VoteTally.CountInFirstVoteOrder | Voting_Blockchain.py:112-115 | the dict's keys are in the order of each candidate's first vote |
| VoteTally.EarlierKeyFirstVotedEarlier | Voting_Blockchain.py:112-115 | of two keys, the earlier one received its first vote earlier |
| VoteTally.TiedKeyLater | Voting_Blockchain.py:121 | any other key whose count ties the maximum comes after the key `max` picks |
| VoteTally.WinnerTieBreak | Voting_Blockchain.py:118-124 | among candidates tied at the winning count, the winner is the one whose first vote came earliest |
| Voting.VotingSystem.constructor | Voting_Blockchain.py:58-62 | a new system has a ledger holding only the genesis block, the given roll, and no voter marked as having voted |
| Voting.Truthy | Voting_Blockchain.py:98 | Python's truthiness of an id: false for `None` and for the empty string, true otherwise |
| Voting.VotingSystem.AuthenticateVoter | Voting_Blockchain.py:84-95 | a scanned id is returned exactly when it is on the roll and has not voted; in every other case the result is `None`; nothing changes |
| Voting.VotingSystem.CastVote | Voting_Blockchain.py:97-105 | for a falsy id nothing changes; otherwise exactly one block carrying the vote payload is appended and the id is added to `votedVoters`. It does this even for an id that has already voted, which then leaves that voter with two ballots |
| Voting.VotingSystem.AuthenticateAndCast | Voting_Blockchain.py:194-197 | authenticating and then casting keeps at most one ballot per voter; exactly when authentication returns a truthy id, the chain grows by exactly the linked block carrying the vote payload, earlier blocks unchanged, and the id is marked as having voted; otherwise nothing changes |
| Voting.VotingSystem.CountVotes | Voting_Blockchain.py:107-116 | the counts of the blocks after the genesis block sum to the chain length less one; with readable ballots they are exactly the ballots cast per candidate |
| Voting.VotingSystem.DetermineWinner | Voting_Blockchain.py:118-124 | the winner of the count, which raises exactly when the count does; with readable ballots it is the winner of the ballots cast |

## Left out

- Webcam scanning and QR decoding (`scan_qr_code`, lines 162-177) are device I/O. Their result is the `scanned` parameter of `AuthenticateVoter`. `None` stands for a scan that was abandoned.
- Reading the roll from a spreadsheet (`load_voters_from_excel`, lines 64-79) is file I/O. The roll is instead a set of ids given to the `VotingSystem` constructor. A `Voter`'s public key and name and the `voter_records` dict are only filled in and printed, so they are left out.
- Writing votes and the winner to a spreadsheet (`save_vote_to_excel`, `save_winner_to_excel`, lines 126-159) is file I/O. Neither changes the ledger.
- The main console loop and every `print` (lines 180-207) are interactive I/O. Only the body of one loop round (lines 194-197) is modelled, as `AuthenticateAndCast`.
- SHA-256 (`hashlib.sha256` over the UTF-8 bytes, hex-encoded, line 24) is a library call. The digest is a parameter of the ledger.
- Floating-point timestamps and their `str()` rendering (lines 20 and 32) are not modelled. A timestamp is the text of one clock reading, supplied by the caller.
- Ids are strings or `None`, since `scan_qr_code` only ever returns a decoded string or `None`. Python's truthiness of `voter_id` is therefore exactly "not `None` and not empty" (`Truthy`).
