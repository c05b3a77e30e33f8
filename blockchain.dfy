/**
 * Model of class_code/blockchain/class_1.py: a `Block` record whose hash is
 * computed once over its own fields, and `StudentBlockChain`, an append-only
 * list of blocks, each linked to its predecessor's hash.
 *
 * The SHA-256 hex digest over the f-string of a block's fields cannot be seen
 * into: it is the function-valued parameter `Hasher`, applied to the fields
 * in the order the f-string lists them. The wall-clock timestamp is an input.
 */
module Blockchain {
  import opened Wrappers

  /** `sha256(f"{index}{prior_hash}{timestamp}{data}").hexdigest()`, deterministic and opaque. */
  type Hasher = (int, string, string, string) -> string

  /** A block; the source never changes its fields after the constructor has set them. */
  datatype Block = Block(index: int, data: string, priorHash: string, timestamp: string, hash: string)

  /** `Block.create_hash` (lines 16-18): the hash of the block's own fields. */
  function CreateHash(b: Block, H: Hasher): string
  {
    H(b.index, b.priorHash, b.timestamp, b.data)
  }

  /** `Block.__init__` (lines 9-14): stores the fields, then the hash computed over them. */
  function NewBlock(index: int, data: string, priorHash: string, timestamp: string, H: Hasher): (b: Block)
    ensures b.index == index && b.data == data && b.priorHash == priorHash && b.timestamp == timestamp
    ensures b.hash == CreateHash(b, H)
  {
    Block(index, data, priorHash, timestamp, H(index, priorHash, timestamp, data))
  }

  const GenesisData: string := "MyFirstBlockChainUVV.br"
  const GenesisPriorHash: string := "0"

  /** `create_genesis_block` (lines 24-29). */
  function GenesisBlock(H: Hasher, timestamp: string): (b: Block)
    ensures b.index == 0 && b.data == GenesisData && b.priorHash == GenesisPriorHash
    ensures b.timestamp == timestamp && b.hash == CreateHash(b, H)
  {
    NewBlock(0, GenesisData, GenesisPriorHash, timestamp, H)
  }

  /** What `validate_chain` checks (lines 46-57): from the second block on, every block's
      stored hash is its recomputed hash and its prior hash is its predecessor's hash. */
  predicate LinksHold(chain: seq<Block>, H: Hasher)
  {
    forall i :: 1 <= i < |chain| ==>
      chain[i].hash == CreateHash(chain[i], H) && chain[i].priorHash == chain[i - 1].hash
  }

  /** Every block sits at the position its index names. */
  predicate Indexed(chain: seq<Block>)
  {
    forall i :: 0 <= i < |chain| ==> chain[i].index == i
  }

  /** The list that `add_block` (lines 36-44) leaves: one new block linked to the last one. */
  function Extend(chain: seq<Block>, data: string, timestamp: string, H: Hasher): (r: seq<Block>)
    requires chain != []
    ensures |r| == |chain| + 1 && r[..|chain|] == chain
    ensures r[|chain|].index == chain[|chain| - 1].index + 1 && r[|chain|].data == data
    ensures r[|chain|].priorHash == chain[|chain| - 1].hash && r[|chain|].timestamp == timestamp
  {
    var last := chain[|chain| - 1];
    chain + [NewBlock(last.index + 1, data, last.hash, timestamp, H)]
  }

  /** A new chain after `add_block` has been called once per entry (payload, timestamp), in order. */
  function BuildChain(H: Hasher, genesisTime: string, entries: seq<(string, string)>): (r: seq<Block>)
    ensures |r| == |entries| + 1 && r[0] == GenesisBlock(H, genesisTime)
  {
    if entries == [] then [GenesisBlock(H, genesisTime)]
    else
      var last := entries[|entries| - 1];
      Extend(BuildChain(H, genesisTime, entries[..|entries| - 1]), last.0, last.1, H)
  }

  /** The chain with block `i`'s stored hash overwritten out of band. */
  function TamperHash(chain: seq<Block>, i: nat, h: string): (r: seq<Block>)
    requires i < |chain|
    ensures |r| == |chain| && r[i].hash == h
  {
    chain[i := chain[i].(hash := h)]
  }

  class StudentBlockChain {
    /** The opaque hash that every block of this chain uses. */
    const hasher: Hasher
    var chain: seq<Block>

    /** The shape that the constructor and `add_block` keep: never empty, indices are positions. */
    ghost predicate Valid()
      reads this
    {
      chain != [] && Indexed(chain)
    }

    /** `StudentBlockChain.__init__` (lines 21-22). */
    constructor (hasher: Hasher, genesisTime: string)
      ensures this.hasher == hasher && chain == [GenesisBlock(hasher, genesisTime)]
      ensures Valid() && LinksHold(chain, hasher)
    {
      this.hasher := hasher;
      chain := [GenesisBlock(hasher, genesisTime)];
    }

    /** `get_last_block` (lines 31-34). */
    function GetLastBlock(): (r: Option<Block>)
      reads this
      ensures r == None <==> chain == []
      ensures r != None ==> r.value == chain[|chain| - 1]
    {
      if |chain| == 0 then None else Some(chain[|chain| - 1])
    }

    /** `add_block` (lines 36-44). */
    method AddBlock(data: string, timestamp: string)
      requires Valid()
      modifies this
      ensures Valid() && chain == Extend(old(chain), data, timestamp, hasher)
      ensures GetLastBlock() == Some(NewBlock(|old(chain)|, data, old(chain)[|old(chain)| - 1].hash, timestamp, hasher))
      ensures LinksHold(old(chain), hasher) ==> LinksHold(chain, hasher)
    {
      var last := GetLastBlock().value;
      var block := NewBlock(last.index + 1, data, last.hash, timestamp, hasher);
      ExtendKeepsLinks(chain, data, timestamp, hasher);
      chain := chain + [block];
    }

    /** `validate_chain` (lines 46-57): the loop stops at the first block that fails a check. */
    method ValidateChain() returns (ok: bool)
      ensures ok == LinksHold(chain, hasher)
    {
      var i := 1;
      while i < |chain|
        invariant 1 <= i
        invariant forall k :: 1 <= k < i && k < |chain| ==>
          chain[k].hash == CreateHash(chain[k], hasher) && chain[k].priorHash == chain[k - 1].hash
      {
        var current := chain[i];
        var previous := chain[i - 1];
        if current.hash != CreateHash(current, hasher) {
          return false;
        }
        if current.priorHash != previous.hash {
          return false;
        }
        i := i + 1;
      }
      return true;
    }
  }

  // ---------------------------------------------------------------------------
  // Properties of the chain

  /** `add_block` keeps the links valid and the indices equal to positions. */
  lemma ExtendKeepsLinks(chain: seq<Block>, data: string, timestamp: string, H: Hasher)
    requires chain != []
    ensures LinksHold(chain, H) ==> LinksHold(Extend(chain, data, timestamp, H), H)
    ensures Indexed(chain) ==> Indexed(Extend(chain, data, timestamp, H))
  {
    var r := Extend(chain, data, timestamp, H);
    assert forall i :: 0 <= i < |chain| ==> r[i] == chain[i];
  }

  /** A new chain validates and stays valid after any sequence of `add_block` calls. */
  lemma {:induction false} BuiltChainValid(H: Hasher, genesisTime: string, entries: seq<(string, string)>)
    ensures LinksHold(BuildChain(H, genesisTime, entries), H)
    ensures Indexed(BuildChain(H, genesisTime, entries))
  {
    if entries != [] {
      var init := entries[..|entries| - 1];
      var last := entries[|entries| - 1];
      BuiltChainValid(H, genesisTime, init);
      ExtendKeepsLinks(BuildChain(H, genesisTime, init), last.0, last.1, H);
    }
  }

  /**
   * Overwriting a stored hash with a different value is detected: through the
   * recomputation for a later block, through the link check for the genesis
   * block when a second block exists.
   */
  lemma TamperedHashDetected(chain: seq<Block>, H: Hasher, i: nat, h: string)
    requires LinksHold(chain, H)
    requires i < |chain| && h != chain[i].hash
    requires i >= 1 || |chain| >= 2
    ensures !LinksHold(TamperHash(chain, i, h), H)
  {
    var t := TamperHash(chain, i, h);
    if i >= 1 {
      assert t[i].hash != CreateHash(t[i], H);
    } else {
      assert t[1].priorHash != t[0].hash;
    }
  }

  /** The genesis block's own fields are never checked: only its stored hash is ever read. */
  lemma GenesisFieldsUnchecked(chain: seq<Block>, H: Hasher, index: int, data: string, priorHash: string, timestamp: string)
    requires chain != [] && LinksHold(chain, H)
    ensures LinksHold(chain[0 := chain[0].(index := index, data := data, priorHash := priorHash, timestamp := timestamp)], H)
  {
    var t := chain[0 := chain[0].(index := index, data := data, priorHash := priorHash, timestamp := timestamp)];
    assert forall i :: 0 <= i < |chain| ==> t[i].hash == chain[i].hash;
    assert forall i :: 1 <= i < |chain| ==> t[i] == chain[i];
  }

  /** Changing a later block's data is detected whenever the hash of the new fields differs from the stored one. */
  lemma TamperedDataDetected(chain: seq<Block>, H: Hasher, i: nat, data: string)
    requires LinksHold(chain, H)
    requires 1 <= i < |chain|
    requires H(chain[i].index, chain[i].priorHash, chain[i].timestamp, data) != chain[i].hash
    ensures !LinksHold(chain[i := chain[i].(data := data)], H)
  {
    var t := chain[i := chain[i].(data := data)];
    assert t[i].hash != CreateHash(t[i], H);
  }
}
