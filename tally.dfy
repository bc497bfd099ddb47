/**
 * The vote payload and the tally: the text `cast_vote` stores in a block,
 * the string splitting `count_votes` uses to read the candidate back, the
 * per-candidate counts it accumulates in insertion order, and the maximum
 * `determine_winner` picks from them.
 */
module VoteTally {
  import opened Options
  import opened Ledger

  // ---------------------------------------------------------------------
  // Splitting text (Python's `str.split` with an explicit separator)
  // ---------------------------------------------------------------------

  /** `sep` occurs in `s` starting at position `i`. */
  predicate OccursAt(s: string, sep: string, i: int)
  {
    0 <= i && i + |sep| <= |s| && s[i..i + |sep|] == sep
  }

  /** `sep` does not occur anywhere in `s`. */
  predicate Free(s: string, sep: string)
  {
    forall i | 0 <= i < |s| :: !OccursAt(s, sep, i)
  }

  /** `s.split(sep)` for a non-empty separator: scanning left to right, cut at
      every occurrence of `sep` that does not overlap an earlier cut. */
  function Split(s: string, sep: string): (parts: seq<string>)
    requires |sep| > 0
    ensures |parts| >= 1
    decreases |s|
  {
    if |s| < |sep| then [s]
    else if s[..|sep|] == sep then [""] + Split(s[|sep|..], sep)
    else
      var rest := Split(s[1..], sep);
      [[s[0]] + rest[0]] + rest[1..]
  }

  /** `sep.join(parts)`. */
  function Join(parts: seq<string>, sep: string): string
    requires |parts| >= 1
  {
    if |parts| == 1 then parts[0] else parts[0] + sep + Join(parts[1..], sep)
  }

  /** Prefixing the first piece with a character prefixes the joined text with it. */
  lemma JoinConsFirst(ch: char, parts: seq<string>, sep: string)
    requires |parts| >= 1
    ensures Join([[ch] + parts[0]] + parts[1..], sep) == [ch] + Join(parts, sep)
  {
    var longer := [[ch] + parts[0]] + parts[1..];
    assert longer[1..] == parts[1..];
  }

  /** Splitting loses nothing: joining the pieces with the separator gives the text back. */
  lemma {:induction false} SplitJoin(s: string, sep: string)
    requires |sep| > 0
    ensures Join(Split(s, sep), sep) == s
    decreases |s|
  {
    if |s| < |sep| {
    } else if s[..|sep|] == sep {
      var rest := Split(s[|sep|..], sep);
      assert Split(s, sep) == [""] + rest;
      assert ([""] + rest)[1..] == rest;
      SplitJoin(s[|sep|..], sep);
      assert s == sep + s[|sep|..];
    } else {
      var rest := Split(s[1..], sep);
      assert Split(s, sep) == [[s[0]] + rest[0]] + rest[1..];
      JoinConsFirst(s[0], rest, sep);
      SplitJoin(s[1..], sep);
      assert s == [s[0]] + s[1..];
    }
  }

  /** Text without the separator is one piece. */
  lemma {:induction false} SplitFree(s: string, sep: string)
    requires |sep| > 0 && Free(s, sep)
    ensures Split(s, sep) == [s]
    decreases |s|
  {
    if |s| >= |sep| {
      assert !OccursAt(s, sep, 0);
      forall i | 0 <= i < |s[1..]|
        ensures !OccursAt(s[1..], sep, i)
      {
        assert !OccursAt(s, sep, i + 1);
        if i + |sep| <= |s[1..]| {
          assert s[1..][i..i + |sep|] == s[i + 1..i + 1 + |sep|];
        }
      }
      SplitFree(s[1..], sep);
      assert s == [s[0]] + s[1..];
    }
  }

  /** When the first occurrence of `sep` in `a + sep + b` is the one after `a`,
      the first piece is `a`. */
  lemma {:induction false} SplitAtFirst(a: string, sep: string, b: string)
    requires |sep| > 0
    requires forall i | 0 <= i < |a| :: !OccursAt(a + sep + b, sep, i)
    ensures Split(a + sep + b, sep) == [a] + Split(b, sep)
    decreases |a|
  {
    var s := a + sep + b;
    if a == [] {
      assert s == sep + b;
      assert s[..|sep|] == sep && s[|sep|..] == b;
    } else {
      assert !OccursAt(s, sep, 0);
      assert s[1..] == a[1..] + sep + b;
      forall i | 0 <= i < |a[1..]|
        ensures !OccursAt(a[1..] + sep + b, sep, i)
      {
        assert !OccursAt(s, sep, i + 1);
        if i + |sep| <= |s[1..]| {
          assert s[1..][i..i + |sep|] == s[i + 1..i + 1 + |sep|];
        }
      }
      SplitAtFirst(a[1..], sep, b);
      assert s[0] == a[0] && [a[0]] + a[1..] == a;
    }
  }

  /** A literal prefix whose characters never start the separator adds no occurrence. */
  lemma LiteralPrefixFree(lit: string, x: string, sep: string)
    requires |sep| > 0 && sep[0] !in lit && Free(x, sep)
    ensures Free(lit + x, sep)
  {
    var s := lit + x;
    forall i | 0 <= i < |s|
      ensures !OccursAt(s, sep, i)
    {
      if i < |lit| {
        assert s[i] == lit[i];
        if i + |sep| <= |s| {
          assert s[i..i + |sep|][0] == s[i];
        }
      } else {
        assert !OccursAt(x, sep, i - |lit|);
        if i + |sep| <= |s| {
          assert s[i..i + |sep|] == x[i - |lit|..i - |lit| + |sep|];
        }
      }
    }
  }

  // ---------------------------------------------------------------------
  // The vote payload
  // ---------------------------------------------------------------------

  const VoterIdLabel: string := "Voter ID: "
  const CandidateLabel: string := "Candidate: "

  /** The payload `cast_vote` stores: `"Voter ID: {voter_id}, Candidate: {candidate}"`. */
  function Payload(voterId: string, candidate: string): string
  {
    VoterIdLabel + voterId + ", " + CandidateLabel + candidate
  }

  /** One vote as cast: the voter and the candidate. */
  datatype Ballot = Ballot(voterId: string, candidate: string)

  /** A ballot whose payload `count_votes` reads back correctly: the voter id holds no
      `", "`, and the candidate holds neither `", "` nor `": "`. */
  predicate Readable(b: Ballot)
  {
    Free(b.voterId, ", ") && Free(b.candidate, ", ") && Free(b.candidate, ": ")
  }

  /** The candidate `count_votes` reads from a payload: `data.split(", ")[1].split(": ")[1]`;
      `None` where either index is out of range (Python raises IndexError there). */
  function ParseCandidate(data: string): Option<string>
  {
    var parts := Split(data, ", ");
    if |parts| < 2 then None else FieldValue(parts[1])
  }

  /** The value `field.split(": ")[1]` of one field, `None` where the index is out of range. */
  function FieldValue(field: string): Option<string>
  {
    var pieces := Split(field, ": ");
    if |pieces| < 2 then None else Some(pieces[1])
  }

  /** A payload without `", "` has no second field, so reading it raises. */
  lemma NoCommaUnreadable(data: string)
    requires Free(data, ", ")
    ensures ParseCandidate(data) == None
  {
    SplitFree(data, ", ");
  }

  /** In `a + ", " + b` with `a` free of `", "`, no occurrence starts inside `a`. */
  lemma NoCommaBefore(a: string, b: string)
    requires Free(a, ", ")
    ensures forall i | 0 <= i < |a| :: !OccursAt(a + ", " + b, ", ", i)
  {
    var s := a + ", " + b;
    forall i | 0 <= i < |a|
      ensures !OccursAt(s, ", ", i)
    {
      if i + 2 <= |a| {
        assert s[i..i + 2] == a[i..i + 2];
        assert !OccursAt(a, ", ", i);
      } else {
        assert s[i + 1] == ',';
      }
    }
  }

  /** The first split of a payload cuts it after the voter id. */
  lemma PayloadFields(v: string, c: string)
    requires Free(v, ", ") && Free(c, ", ")
    ensures Split(Payload(v, c), ", ") == [VoterIdLabel + v, CandidateLabel + c]
  {
    var a := VoterIdLabel + v;
    var rest := CandidateLabel + c;
    assert Payload(v, c) == a + ", " + rest;
    LiteralPrefixFree(VoterIdLabel, v, ", ");
    NoCommaBefore(a, rest);
    SplitAtFirst(a, ", ", rest);
    LiteralPrefixFree(CandidateLabel, c, ", ");
    SplitFree(rest, ", ");
  }

  /** The second split of the candidate field cuts it after the label. */
  lemma CandidateFieldParts(c: string)
    requires Free(c, ": ")
    ensures Split(CandidateLabel + c, ": ") == ["Candidate", c]
  {
    var rest := CandidateLabel + c;
    assert rest == "Candidate" + ": " + c;
    forall i | 0 <= i < |"Candidate"|
      ensures !OccursAt(rest, ": ", i)
    {
      assert rest[i] == "Candidate"[i];
      assert rest[i] in "Candidate";
    }
    SplitAtFirst("Candidate", ": ", c);
    SplitFree(c, ": ");
  }

  /** Parsing undoes `Payload` for every readable ballot. */
  lemma ParsePayload(b: Ballot)
    requires Readable(b)
    ensures ParseCandidate(Payload(b.voterId, b.candidate)) == Some(b.candidate)
  {
    PayloadFields(b.voterId, b.candidate);
    CandidateFieldParts(b.candidate);
  }

  /** A candidate name holding `", "` is cut at its first `", "`: a vote for `x + ", " + y`
      is counted for `x` (a vote for "A, B" counts for "A"). */
  lemma CommaInCandidateMiscounted(v: string, x: string, y: string)
    requires Free(v, ", ") && Free(x, ", ") && Free(x, ": ")
    ensures ParseCandidate(Payload(v, x + ", " + y)) == Some(x)
  {
    var a, b := VoterIdLabel + v, CandidateLabel + x;
    assert Payload(v, x + ", " + y) == a + ", " + (b + ", " + y);
    LiteralPrefixFree(VoterIdLabel, v, ", ");
    NoCommaBefore(a, b + ", " + y);
    SplitAtFirst(a, ", ", b + ", " + y);
    LiteralPrefixFree(CandidateLabel, x, ", ");
    NoCommaBefore(b, y);
    SplitAtFirst(b, ", ", y);
    CandidateFieldParts(x);
  }

  /** A voter id `p + ", " + q` with `p` and `q` free of `", "` puts `q` in the second
      field, so the candidate read back is the value of `q`, whatever was cast. */
  lemma CommaInVoterIdReadsIdPart(p: string, q: string, c: string)
    requires Free(p, ", ") && Free(q, ", ")
    ensures ParseCandidate(Payload(p + ", " + q, c)) == FieldValue(q)
  {
    var a, rest := VoterIdLabel + p, CandidateLabel + c;
    assert Payload(p + ", " + q, c) == a + ", " + (q + ", " + rest);
    LiteralPrefixFree(VoterIdLabel, p, ", ");
    NoCommaBefore(a, q + ", " + rest);
    SplitAtFirst(a, ", ", q + ", " + rest);
    NoCommaBefore(q, rest);
    SplitAtFirst(q, ", ", rest);
  }

  /** When that part of the id also holds no `": "`, the payload cannot be read and
      `count_votes` raises on it. */
  lemma CommaInVoterIdUnreadable(p: string, q: string, c: string)
    requires Free(p, ", ") && Free(q, ", ") && Free(q, ": ")
    ensures ParseCandidate(Payload(p + ", " + q, c)) == None
  {
    CommaInVoterIdReadsIdPart(p, q, c);
    SplitFree(q, ": ");
  }

  /** A voter id `p + ", Candidate: " + x` casts its vote for `x`, whatever candidate
      was chosen. */
  lemma CandidateInVoterIdMisattributed(p: string, x: string, c: string)
    requires Free(p, ", ") && Free(x, ", ") && Free(x, ": ")
    ensures ParseCandidate(Payload(p + ", " + (CandidateLabel + x), c)) == Some(x)
  {
    LiteralPrefixFree(CandidateLabel, x, ", ");
    CommaInVoterIdReadsIdPart(p, CandidateLabel + x, c);
    CandidateFieldParts(x);
  }

  // ---------------------------------------------------------------------
  // The results dict of `count_votes`
  // ---------------------------------------------------------------------

  /** The `results` dict: its keys in insertion order (Python dicts keep that order)
      and the count stored under each key. */
  datatype Results = Results(keys: seq<string>, counts: map<string, nat>)

  predicate Distinct(ks: seq<string>)
  {
    forall i, j | 0 <= i < j < |ks| :: ks[i] != ks[j]
  }

  /** What every dict satisfies: each key once, and the keys are the mapped ones. */
  ghost predicate WellKept(r: Results)
  {
    Distinct(r.keys) && forall c :: c in r.counts <==> c in r.keys
  }

  /** `results.get(c, 0)`. */
  function CountOf(r: Results, c: string): nat
  {
    if c in r.counts then r.counts[c] else 0
  }

  /** The sum of the counts stored under `ks`. */
  function Sum(ks: seq<string>, counts: map<string, nat>): nat
  {
    if ks == [] then 0
    else Sum(ks[..|ks| - 1], counts) + (if ks[|ks| - 1] in counts then counts[ks[|ks| - 1]] else 0)
  }

  /** The sum of all counts in the dict. */
  function Total(r: Results): nat
  {
    Sum(r.keys, r.counts)
  }

  /** Storing under a key outside `ks` does not change the sum over `ks`. */
  lemma {:induction false} SumUnaffected(ks: seq<string>, counts: map<string, nat>, c: string, v: nat)
    requires c !in ks
    ensures Sum(ks, counts[c := v]) == Sum(ks, counts)
  {
    if ks != [] {
      SumUnaffected(ks[..|ks| - 1], counts, c, v);
    }
  }

  /** Adding one to the count of a key that occurs once in `ks` adds one to the sum. */
  lemma {:induction false} SumBump(ks: seq<string>, counts: map<string, nat>, c: string)
    requires Distinct(ks) && c in ks && c in counts
    ensures Sum(ks, counts[c := counts[c] + 1]) == Sum(ks, counts) + 1
  {
    var prefix, last := ks[..|ks| - 1], ks[|ks| - 1];
    assert ks == prefix + [last];
    if last == c {
      assert c !in prefix;
      SumUnaffected(prefix, counts, c, counts[c] + 1);
    } else {
      SumBump(prefix, counts, c);
    }
  }

  /** One pass of the loop body of `count_votes`: `results[c] += 1` when `c` is a key,
      otherwise `results[c] = 1`, which adds `c` as the last key. */
  function Increment(r: Results, c: string): (r': Results)
    ensures forall d :: CountOf(r', d) == CountOf(r, d) + (if d == c then 1 else 0)
    ensures c in r.counts ==> r'.keys == r.keys
    ensures c !in r.counts ==> r'.keys == r.keys + [c]
  {
    if c in r.counts then Results(r.keys, r.counts[c := r.counts[c] + 1])
    else Results(r.keys + [c], r.counts[c := 1])
  }

  /** Appending a new key keeps the keys distinct. */
  lemma AppendNewKeepsDistinct(ks: seq<string>, c: string)
    requires Distinct(ks) && c !in ks
    ensures Distinct(ks + [c])
  {
    var longer := ks + [c];
    forall i, j | 0 <= i < j < |longer|
      ensures longer[i] != longer[j]
    {
      assert longer[i] == ks[i];
    }
  }

  /** Adding a key with count one keeps the dict well kept and adds one to the total. */
  lemma AddKeyKeepsDict(r: Results, c: string)
    requires WellKept(r) && c !in r.counts
    ensures WellKept(Results(r.keys + [c], r.counts[c := 1]))
    ensures Total(Results(r.keys + [c], r.counts[c := 1])) == Total(r) + 1
  {
    var ks := r.keys + [c];
    assert ks[..|r.keys|] == r.keys;
    SumUnaffected(r.keys, r.counts, c, 1);
    AppendNewKeepsDistinct(r.keys, c);
  }

  /** Incrementing keeps the dict well kept and adds one to the total. */
  lemma IncrementKeepsDict(r: Results, c: string)
    requires WellKept(r)
    ensures WellKept(Increment(r, c)) && Total(Increment(r, c)) == Total(r) + 1
  {
    if c in r.counts {
      SumBump(r.keys, r.counts, c);
    } else {
      AddKeyKeepsDict(r, c);
    }
  }

  /** The `results` dict after the loop of `count_votes` has seen the candidates `cs` in order:
      one key per candidate voted for, holding the number of votes for it. */
  function Count(cs: seq<string>): (r: Results)
    ensures WellKept(r)
    ensures Total(r) == |cs|
    ensures forall c :: CountOf(r, c) == multiset(cs)[c]
    ensures forall c :: c in r.keys <==> c in cs
  {
    if cs == [] then Results([], map[])
    else
      var prefix, last := cs[..|cs| - 1], cs[|cs| - 1];
      assert cs == prefix + [last];
      IncrementKeepsDict(Count(prefix), last);
      Increment(Count(prefix), last)
  }

  /** The candidates read from `blocks` in order, or `None` when some payload does not parse. */
  function Candidates(blocks: seq<Block>): (r: Option<seq<string>>)
    ensures r.Some? <==> forall i | 0 <= i < |blocks| :: ParseCandidate(blocks[i].data).Some?
    ensures r.Some? ==> |r.value| == |blocks|
    ensures r.Some? ==> forall i | 0 <= i < |blocks| :: ParseCandidate(blocks[i].data) == Some(r.value[i])
  {
    if blocks == [] then Some([])
    else
      var prefix := blocks[..|blocks| - 1];
      match Candidates(prefix)
      case None =>
        assert exists i | 0 <= i < |prefix| :: ParseCandidate(prefix[i].data).None?;
        None
      case Some(cs) =>
        match ParseCandidate(blocks[|blocks| - 1].data)
        case None => None
        case Some(c) => Some(cs + [c])
  }

  /** What `count_votes` returns for the blocks after the genesis block: the counts in
      order of each candidate's first vote, or `None` where it raises. */
  function Tally(blocks: seq<Block>): (r: Option<Results>)
    ensures r.Some? <==> forall i | 0 <= i < |blocks| :: ParseCandidate(blocks[i].data).Some?
    ensures r.Some? ==> WellKept(r.value) && Total(r.value) == |blocks|
  {
    match Candidates(blocks)
    case None => None
    case Some(cs) => Some(Count(cs))
  }

  /** One more parsed block extends the candidates read so far. */
  lemma CandidatesExtend(blocks: seq<Block>, k: nat, seen: seq<string>, c: string)
    requires k < |blocks| && Candidates(blocks[..k]) == Some(seen)
    requires ParseCandidate(blocks[k].data) == Some(c)
    ensures Candidates(blocks[..k + 1]) == Some(seen + [c])
  {
    assert blocks[..k + 1][..k] == blocks[..k];
  }

  /** One more vote is one more increment. */
  lemma CountExtend(cs: seq<string>, c: string)
    ensures Count(cs + [c]) == Increment(Count(cs), c)
  {
    assert (cs + [c])[..|cs|] == cs;
  }

  /** The loop of `count_votes` over `blocks` (the chain without its genesis block):
      split each payload, read the candidate and count it in the `results` dict;
      `None` where a payload lacks a field (Python raises IndexError there). */
  method CountBlockVotes(blocks: seq<Block>) returns (results: Option<Results>)
    ensures results == Tally(blocks)
  {
    var r := Results([], map[]);
    ghost var seen: seq<string> := [];
    for k := 0 to |blocks|
      invariant Candidates(blocks[..k]) == Some(seen)
      invariant r == Count(seen)
    {
      var data := Split(blocks[k].data, ", ");
      if |data| < 2 {
        assert ParseCandidate(blocks[k].data).None?;
        return None;
      }
      var fields := Split(data[1], ": ");
      if |fields| < 2 {
        assert ParseCandidate(blocks[k].data).None?;
        return None;
      }
      var candidate := fields[1];
      ghost var before := r;
      if candidate in r.counts {
        r := Results(r.keys, r.counts[candidate := r.counts[candidate] + 1]);
      } else {
        r := Results(r.keys + [candidate], r.counts[candidate := 1]);
      }
      assert r == Increment(before, candidate);
      CandidatesExtend(blocks, k, seen, candidate);
      CountExtend(seen, candidate);
      seen := seen + [candidate];
    }
    assert blocks[..|blocks|] == blocks;
    return Some(r);
  }

  /** The candidates named by a list of ballots, in order. */
  function CandidateList(ballots: seq<Ballot>): (cs: seq<string>)
    ensures |cs| == |ballots| && forall i | 0 <= i < |ballots| :: cs[i] == ballots[i].candidate
  {
    seq(|ballots|, i requires 0 <= i < |ballots| => ballots[i].candidate)
  }

  /** Blocks whose payloads are the payloads of `ballots`, in the same order. */
  predicate Records(blocks: seq<Block>, ballots: seq<Ballot>)
  {
    |blocks| == |ballots| &&
    forall i | 0 <= i < |blocks| :: blocks[i].data == Payload(ballots[i].voterId, ballots[i].candidate)
  }

  /** On payloads written by `cast_vote` for readable ballots, the tally counts, for every
      candidate, exactly the ballots cast for it, and the counts add up to the number of ballots. */
  lemma TallyOfCastVotes(blocks: seq<Block>, ballots: seq<Ballot>)
    requires Records(blocks, ballots)
    requires forall i | 0 <= i < |ballots| :: Readable(ballots[i])
    ensures Tally(blocks) == Some(Count(CandidateList(ballots)))
    ensures forall c :: CountOf(Tally(blocks).value, c) == multiset(CandidateList(ballots))[c]
    ensures Total(Tally(blocks).value) == |ballots|
  {
    var cs := CandidateList(ballots);
    forall i | 0 <= i < |blocks|
      ensures ParseCandidate(blocks[i].data) == Some(cs[i])
    {
      ParsePayload(ballots[i]);
    }
    var found := Candidates(blocks);
    assert found.Some?;
    assert found.value == cs;
  }

  // ---------------------------------------------------------------------
  // The winner
  // ---------------------------------------------------------------------

  /** `max(results, key=results.get)`: Python's `max` walks the keys in order, keeps the
      first it has seen and replaces it only by a strictly larger one, so the first
      maximal key wins. The result is its position among the keys. */
  function FirstMax(r: Results): (k: nat)
    requires |r.keys| > 0
    decreases |r.keys|
    ensures k < |r.keys|
    ensures forall j | 0 <= j < |r.keys| :: CountOf(r, r.keys[j]) <= CountOf(r, r.keys[k])
    ensures forall j | 0 <= j < k :: CountOf(r, r.keys[j]) < CountOf(r, r.keys[k])
  {
    var n := |r.keys|;
    if n == 1 then 0
    else
      var k := FirstMax(Results(r.keys[..n - 1], r.counts));
      if CountOf(r, r.keys[n - 1]) > CountOf(r, r.keys[k]) then n - 1 else k
  }

  /** The pair `determine_winner` returns; `winner == None` stands for Python's `None`. */
  datatype Outcome = Outcome(winner: Option<string>, votes: nat)

  /** `determine_winner` on a computed `results` dict: `(None, 0)` for an empty dict,
      otherwise the first key with the largest count, and `results[winner]`. */
  function Winner(r: Results): (o: Outcome)
    ensures o.winner.None? <==> r.keys == []
    ensures o.winner.None? ==> o.votes == 0
    ensures forall j | 0 <= j < |r.keys| :: CountOf(r, r.keys[j]) <= o.votes
    ensures o.winner.Some? ==>
              exists k | 0 <= k < |r.keys| ::
                && r.keys[k] == o.winner.value && CountOf(r, r.keys[k]) == o.votes
                && forall j | 0 <= j < k :: CountOf(r, r.keys[j]) < o.votes
  {
    if r.keys == [] then Outcome(None, 0)
    else
      var k := FirstMax(r);
      Outcome(Some(r.keys[k]), CountOf(r, r.keys[k]))
  }

  /** The position of the first vote for `c`. */
  function FirstIndex(cs: seq<string>, c: string): (k: nat)
    requires c in cs
    ensures k < |cs| && cs[k] == c
    ensures forall m | 0 <= m < k :: cs[m] != c
  {
    if cs[0] == c then 0 else 1 + FirstIndex(cs[1..], c)
  }

  /** Appending a vote leaves the first vote of an earlier candidate where it was. */
  lemma FirstIndexOfEarlier(prefix: seq<string>, last: string, c: string)
    requires c in prefix
    ensures FirstIndex(prefix + [last], c) == FirstIndex(prefix, c)
  {
    var k := FirstIndex(prefix, c);
    assert (prefix + [last])[k] == c;
    assert forall m | 0 <= m < k :: (prefix + [last])[m] == prefix[m];
  }

  /** A candidate's first vote, appended after votes for others only, is the last position. */
  lemma FirstIndexOfNew(prefix: seq<string>, last: string)
    requires last !in prefix
    ensures FirstIndex(prefix + [last], last) == |prefix|
  {
    assert (prefix + [last])[|prefix|] == last;
    assert forall m | 0 <= m < |prefix| :: (prefix + [last])[m] == prefix[m];
  }

  /** Keys listed in the order of each one's first vote in `cs`. */
  predicate InFirstVoteOrder(ks: seq<string>, cs: seq<string>)
  {
    && (forall i | 0 <= i < |ks| :: ks[i] in cs)
    && forall i, j | 0 <= i < j < |ks| :: FirstIndex(cs, ks[i]) < FirstIndex(cs, ks[j])
  }

  /** A vote appended after `prefix` keeps earlier first votes in place; if it is the
      first vote for its candidate, that candidate comes after all earlier ones. */
  lemma FirstVoteOrderExtend(ks: seq<string>, prefix: seq<string>, last: string)
    requires InFirstVoteOrder(ks, prefix)
    ensures last in prefix ==> InFirstVoteOrder(ks, prefix + [last])
    ensures last !in prefix && last !in ks ==> InFirstVoteOrder(ks + [last], prefix + [last])
  {
    var cs := prefix + [last];
    forall i | 0 <= i < |ks|
      ensures ks[i] in cs && FirstIndex(cs, ks[i]) == FirstIndex(prefix, ks[i])
    {
      FirstIndexOfEarlier(prefix, last, ks[i]);
    }
    if last !in prefix && last !in ks {
      var longer := ks + [last];
      FirstIndexOfNew(prefix, last);
      forall i, j | 0 <= i < j < |longer|
        ensures FirstIndex(cs, longer[i]) < FirstIndex(cs, longer[j])
      {
        assert longer[i] == ks[i];
        if j < |ks| {
          assert longer[j] == ks[j];
        }
      }
    }
  }

  /** The keys of the `results` dict are in the order of each candidate's first vote. */
  lemma {:induction false} CountInFirstVoteOrder(cs: seq<string>)
    ensures InFirstVoteOrder(Count(cs).keys, cs)
  {
    if cs != [] {
      var prefix, last := cs[..|cs| - 1], cs[|cs| - 1];
      assert cs == prefix + [last];
      CountInFirstVoteOrder(prefix);
      CountExtend(prefix, last);
      FirstVoteOrderExtend(Count(prefix).keys, prefix, last);
    }
  }

  /** On a nonempty dict the winner is a key, its vote count is the count stored under it,
      and no key holds more. */
  lemma WinnerIsKey(r: Results)
    requires r.keys != []
    ensures var o := Winner(r);
            && o.winner.Some? && o.winner.value in r.keys && o.votes == CountOf(r, o.winner.value)
            && forall c | c in r.keys :: CountOf(r, c) <= o.votes
  {
    var k := FirstMax(r);
    forall c | c in r.keys
      ensures CountOf(r, c) <= CountOf(r, r.keys[k])
    {
      var j :| 0 <= j < |r.keys| && r.keys[j] == c;
    }
  }

  /** `determine_winner` over the votes `cs` gives `(None, 0)` exactly when there is no
      vote, and otherwise a candidate with the most votes, together with its vote count. */
  lemma WinnerIsMostVoted(cs: seq<string>)
    ensures var o := Winner(Count(cs));
            && (o.winner.None? <==> cs == [])
            && (o.winner.None? ==> o.votes == 0)
            && (o.winner.Some? ==>
                  && o.winner.value in cs
                  && o.votes == multiset(cs)[o.winner.value]
                  && forall d | d in cs :: multiset(cs)[d] <= o.votes)
  {
    var r := Count(cs);
    if cs != [] {
      assert cs[0] in r.keys;
      WinnerIsKey(r);
      var o := Winner(r);
      forall d | d in cs
        ensures multiset(cs)[d] <= o.votes
      {
        assert d in r.keys;
      }
    }
  }

  /** Another key tied with the first maximal one comes after it. */
  lemma TiedKeyLater(r: Results, j: nat)
    requires j < |r.keys|
    requires r.keys[j] != r.keys[FirstMax(r)]
    requires CountOf(r, r.keys[j]) == CountOf(r, r.keys[FirstMax(r)])
    ensures FirstMax(r) < j
  {
    var k := FirstMax(r);
    assert !(j < k);
    assert j != k;
  }

  /** Of two keys of the `results` dict, the earlier one was first voted for earlier. */
  lemma EarlierKeyFirstVotedEarlier(cs: seq<string>, i: nat, j: nat)
    requires i < j < |Count(cs).keys|
    ensures Count(cs).keys[i] in cs && Count(cs).keys[j] in cs
    ensures FirstIndex(cs, Count(cs).keys[i]) < FirstIndex(cs, Count(cs).keys[j])
  {
    CountInFirstVoteOrder(cs);
  }

  /** Among candidates tied at the winning count, `determine_winner` picks the one whose
      first vote came earliest in the chain. */
  lemma WinnerTieBreak(cs: seq<string>, d: string)
    requires d in cs
    ensures var o := Winner(Count(cs));
            o.winner.Some? && d != o.winner.value && multiset(cs)[d] == o.votes ==>
              o.winner.value in cs && FirstIndex(cs, o.winner.value) < FirstIndex(cs, d)
  {
    var r := Count(cs);
    assert d in r.keys && CountOf(r, d) == multiset(cs)[d];
    var j :| 0 <= j < |r.keys| && r.keys[j] == d;
    var k := FirstMax(r);
    assert Winner(r) == Outcome(Some(r.keys[k]), CountOf(r, r.keys[k]));
    if r.keys[j] != r.keys[k] && CountOf(r, r.keys[j]) == CountOf(r, r.keys[k]) {
      TiedKeyLater(r, j);
      EarlierKeyFirstVotedEarlier(cs, k, j);
    }
  }
}
