/**
 * The ledger: `Block` records chained by hash, and the `Blockchain` object
 * that owns the list of blocks, creates the genesis block, appends blocks
 * and validates the whole chain.
 */
module Ledger {
  import opened HashChain

  /** One block. Python never mutates a block after building it. */
  datatype Block = Block(index: nat, previousHash: string, timestamp: Timestamp, data: string, hash: string)

  const GenesisPreviousHash: string := "0"
  const GenesisData: string := "Genesis Block"

  /** The hash that a block's own four content fields produce. */
  function RecomputedHash(digest: string -> string, b: Block): string
  {
    CalculateHash(digest, b.index, b.previousHash, b.timestamp, b.data)
  }

  /** The fixed content of the genesis block. */
  predicate IsGenesis(b: Block)
  {
    b.index == 0 && b.previousHash == GenesisPreviousHash && b.data == GenesisData
  }

  /**
   * `create_genesis_block`. The clock is read twice: `stored` is the value
   * kept in the block, `hashed` the one the hash was computed over, so the
   * genesis hash matches the genesis fields only when the readings render alike.
   */
  function GenesisBlock(digest: string -> string, stored: Timestamp, hashed: Timestamp): (g: Block)
    ensures IsGenesis(g) && g.timestamp == stored
    ensures g.hash == RecomputedHash(digest, g.(timestamp := hashed))
  {
    Block(0, GenesisPreviousHash, stored, GenesisData, CalculateHash(digest, 0, GenesisPreviousHash, hashed, GenesisData))
  }

  /** The genesis block's stored hash agrees with its stored fields only when both clock
      readings render alike, or when the digest collides on the two hashed texts. */
  lemma GenesisHashNeedsEqualReadings(digest: string -> string, stored: Timestamp, hashed: Timestamp)
    ensures var g := GenesisBlock(digest, stored, hashed);
            g.hash == RecomputedHash(digest, g) ==>
              stored == hashed ||
              Collision(digest, HashInput(0, GenesisPreviousHash, stored, GenesisData),
                                HashInput(0, GenesisPreviousHash, hashed, GenesisData))
  {
    if stored != hashed {
      HashInputSeparatesTimestamp(0, GenesisPreviousHash, stored, hashed, GenesisData);
    }
  }

  /** The block `add_block` builds on top of `latest` for `data` at `timestamp`. */
  function NextBlock(digest: string -> string, latest: Block, timestamp: Timestamp, data: string): (b: Block)
    ensures b.index == latest.index + 1 && b.previousHash == latest.hash
    ensures b.timestamp == timestamp && b.data == data
    ensures b.hash == RecomputedHash(digest, b)
  {
    var index := latest.index + 1;
    Block(index, latest.hash, timestamp, data, CalculateHash(digest, index, latest.hash, timestamp, data))
  }

  /** The two checks `is_chain_valid` makes at position `i`. */
  predicate LinkOk(digest: string -> string, chain: seq<Block>, i: nat)
    requires 1 <= i < |chain|
  {
    chain[i].hash == RecomputedHash(digest, chain[i]) && chain[i].previousHash == chain[i - 1].hash
  }

  /** What `is_chain_valid` accepts: every block after the genesis block passes both checks.
      The genesis block itself is never checked. */
  predicate ChainValid(digest: string -> string, chain: seq<Block>)
  {
    forall i | 1 <= i < |chain| :: LinkOk(digest, chain, i)
  }

  /** Every block's index is its position in the list. */
  predicate IndexedByPosition(chain: seq<Block>)
  {
    forall i | 0 <= i < |chain| :: chain[i].index == i
  }

  /** The invariant the ledger keeps from construction on. */
  predicate WellFormed(digest: string -> string, chain: seq<Block>)
  {
    && |chain| >= 1
    && IsGenesis(chain[0])
    && IndexedByPosition(chain)
    && ChainValid(digest, chain)
  }

  /** Appending the block `add_block` builds keeps the chain well formed, keeps
      every earlier block, and puts the new block at the position of its index. */
  lemma AppendKeepsWellFormed(digest: string -> string, chain: seq<Block>, timestamp: Timestamp, data: string)
    requires WellFormed(digest, chain)
    ensures var next := NextBlock(digest, chain[|chain| - 1], timestamp, data);
            && WellFormed(digest, chain + [next])
            && next.index == |chain|
            && next.previousHash == chain[|chain| - 1].hash
            && next.hash == RecomputedHash(digest, next)
  {
    var next := NextBlock(digest, chain[|chain| - 1], timestamp, data);
    var longer := chain + [next];
    forall i | 1 <= i < |longer|
      ensures LinkOk(digest, longer, i)
    {
      if i < |chain| {
        assert LinkOk(digest, chain, i);
      }
    }
  }

  /** Rewriting the previous-hash field of a block after the genesis block is always detected. */
  lemma TamperedLinkDetected(digest: string -> string, chain: seq<Block>, i: nat, p: string)
    requires ChainValid(digest, chain) && 1 <= i < |chain|
    requires p != chain[i].previousHash
    ensures !ChainValid(digest, chain[i := chain[i].(previousHash := p)])
  {
    var tampered := chain[i := chain[i].(previousHash := p)];
    assert LinkOk(digest, chain, i);
    assert !LinkOk(digest, tampered, i);
  }

  /** Rewriting the stored hash of any block is detected, unless it is the genesis block of a one-block chain. */
  lemma TamperedHashDetected(digest: string -> string, chain: seq<Block>, i: nat, h: string)
    requires ChainValid(digest, chain) && i < |chain| && (1 <= i || 2 <= |chain|)
    requires h != chain[i].hash
    ensures !ChainValid(digest, chain[i := chain[i].(hash := h)])
  {
    var tampered := chain[i := chain[i].(hash := h)];
    if 1 <= i {
      assert LinkOk(digest, chain, i);
      assert !LinkOk(digest, tampered, i);
    } else {
      assert LinkOk(digest, chain, 1);
      assert !LinkOk(digest, tampered, 1);
    }
  }

  /** Rewriting the payload of a block after the genesis block goes undetected
      only if the digest collides on the old and the new hashed text. */
  lemma TamperedDataDetected(digest: string -> string, chain: seq<Block>, i: nat, d: string)
    requires ChainValid(digest, chain) && 1 <= i < |chain|
    requires d != chain[i].data
    ensures var b := chain[i];
            ChainValid(digest, chain[i := b.(data := d)]) ==>
              Collision(digest, HashInput(b.index, b.previousHash, b.timestamp, b.data),
                                HashInput(b.index, b.previousHash, b.timestamp, d))
  {
    var b := chain[i];
    var tampered := chain[i := b.(data := d)];
    assert LinkOk(digest, chain, i);
    HashInputSeparatesData(b.index, b.previousHash, b.timestamp, b.data, d);
    if ChainValid(digest, tampered) {
      assert LinkOk(digest, tampered, i);
    }
  }

  /** Rewriting the timestamp of a block after the genesis block goes undetected
      only if the digest collides on the old and the new hashed text. */
  lemma TamperedTimestampDetected(digest: string -> string, chain: seq<Block>, i: nat, t: Timestamp)
    requires ChainValid(digest, chain) && 1 <= i < |chain|
    requires t != chain[i].timestamp
    ensures var b := chain[i];
            ChainValid(digest, chain[i := b.(timestamp := t)]) ==>
              Collision(digest, HashInput(b.index, b.previousHash, b.timestamp, b.data),
                                HashInput(b.index, b.previousHash, t, b.data))
  {
    var b := chain[i];
    var tampered := chain[i := b.(timestamp := t)];
    assert LinkOk(digest, chain, i);
    HashInputSeparatesTimestamp(b.index, b.previousHash, b.timestamp, t, b.data);
    if ChainValid(digest, tampered) {
      assert LinkOk(digest, tampered, i);
    }
  }

  /** Rewriting the index of a block after the genesis block goes undetected
      only if the digest collides on the old and the new hashed text. */
  lemma TamperedIndexDetected(digest: string -> string, chain: seq<Block>, i: nat, k: nat)
    requires ChainValid(digest, chain) && 1 <= i < |chain|
    requires k != chain[i].index
    ensures var b := chain[i];
            ChainValid(digest, chain[i := b.(index := k)]) ==>
              Collision(digest, HashInput(b.index, b.previousHash, b.timestamp, b.data),
                                HashInput(k, b.previousHash, b.timestamp, b.data))
  {
    var b := chain[i];
    var tampered := chain[i := b.(index := k)];
    assert LinkOk(digest, chain, i);
    HashInputSeparatesIndex(b.index, k, b.previousHash, b.timestamp, b.data);
    if ChainValid(digest, tampered) {
      assert LinkOk(digest, tampered, i);
    }
  }

  /** The genesis block's timestamp and payload are outside what validation looks at. */
  lemma GenesisContentUnchecked(digest: string -> string, chain: seq<Block>, t: Timestamp, d: string)
    requires ChainValid(digest, chain) && |chain| >= 1
    ensures ChainValid(digest, chain[0 := chain[0].(timestamp := t, data := d)])
  {
    var tampered := chain[0 := chain[0].(timestamp := t, data := d)];
    forall i | 1 <= i < |tampered|
      ensures LinkOk(digest, tampered, i)
    {
      assert LinkOk(digest, chain, i);
    }
  }

  /** `Blockchain`: the list of blocks, owned and appended to by a single writer. */
  class Blockchain {
    /** The digest `calculate_hash` applies (SHA-256 in `calculate_hash`). */
    const digest: string -> string
    var chain: seq<Block>

    ghost predicate Valid()
      reads this
    {
      WellFormed(digest, chain)
    }

    /** `Blockchain()`: a list holding only the genesis block. */
    constructor (digest: string -> string, genesisStored: Timestamp, genesisHashed: Timestamp)
      ensures Valid()
      ensures this.digest == digest
      ensures chain == [GenesisBlock(digest, genesisStored, genesisHashed)]
    {
      this.digest := digest;
      chain := [GenesisBlock(digest, genesisStored, genesisHashed)];
    }

    /** `get_latest_block`: `chain[-1]`; on a well-formed chain its index is the chain length less one. */
    function LatestBlock(): (b: Block)
      reads this
      requires |chain| > 0
      ensures b == chain[|chain| - 1]
      ensures Valid() ==> b.index == |chain| - 1
    {
      chain[|chain| - 1]
    }

    /** `add_block`: append the block linked to the latest one. */
    method AddBlock(data: string, timestamp: Timestamp)
      requires Valid()
      modifies this
      ensures Valid()
      ensures chain == old(chain) + [NextBlock(digest, old(LatestBlock()), timestamp, data)]
    {
      AppendKeepsWellFormed(digest, chain, timestamp, data);
      var latest := LatestBlock();
      var index := latest.index + 1;
      var previousHash := latest.hash;
      var hash := CalculateHash(digest, index, previousHash, timestamp, data);
      chain := chain + [Block(index, previousHash, timestamp, data, hash)];
    }

    /** `is_chain_valid`: a left-to-right scan from position 1 that stops at the first failed check. */
    method IsChainValid() returns (valid: bool)
      ensures valid <==> ChainValid(digest, chain)
      ensures Valid() ==> valid
    {
      var i := 1;
      while i < |chain|
        invariant 1 <= i <= |chain| + 1
        invariant forall j | 1 <= j < i && j < |chain| :: LinkOk(digest, chain, j)
      {
        var current := chain[i];
        var previous := chain[i - 1];
        if current.hash != CalculateHash(digest, current.index, current.previousHash, current.timestamp, current.data) {
          assert !LinkOk(digest, chain, i);
          return false;
        }
        if current.previousHash != previous.hash {
          assert !LinkOk(digest, chain, i);
          return false;
        }
        i := i + 1;
      }
      return true;
    }
  }
}
