/**
 * The node: its chain, its pool of pending transactions, and the operations
 * that change them.
 */
module Node {
  import opened Ledger
  import opened ProofOfWork
  import opened ChainValidation

  /**
   * The shape of a chain built by the constructor and repeated mining: a
   * genesis block with no transactions and predecessor "0", every block at
   * position i carries index i + 1 and passes the difficulty predicate (the
   * genesis block included), and every later block names its predecessor's digest.
   */
  predicate Mined(hash: Hasher, difficulty: int, c: seq<Block>)
  {
    && |c| >= 1
    && c[0].transactions == []
    && c[0].previousHash == "0"
    && (forall i :: 0 <= i < |c| ==> c[i].index == i + 1 && MeetsDifficulty(hash, difficulty, c[i]))
    && (forall i :: 1 <= i < |c| ==> c[i].previousHash == hash(c[i - 1]))
  }

  /** The block the mining loop settles on for a given tip, pool and proof. */
  function MinedBlock(hash: Hasher, c: seq<Block>, txs: seq<Transaction>, proof: nat): Block
    requires |c| >= 1
  {
    Block(|c| + 1, txs, proof, hash(c[|c| - 1]))
  }

  /** A mined chain passes the validator. */
  lemma MinedIsValid(hash: Hasher, difficulty: int, c: seq<Block>)
    requires Mined(hash, difficulty, c)
    ensures ValidChain(hash, difficulty, c)
  {
  }

  /** The chain the constructor builds is mined. */
  lemma GenesisMined(hash: Hasher, difficulty: int, proof: nat)
    requires Passes(hash, difficulty, 1, [], "0", proof)
    ensures Mined(hash, difficulty, [Block(1, [], proof, "0")])
  {
  }

  /** Appending the block a mining round finds keeps a chain mined. */
  lemma MineExtends(hash: Hasher, difficulty: int, c: seq<Block>, txs: seq<Transaction>, proof: nat)
    requires Mined(hash, difficulty, c)
    requires MeetsDifficulty(hash, difficulty, MinedBlock(hash, c, txs, proof))
    ensures Mined(hash, difficulty, c + [MinedBlock(hash, c, txs, proof)])
  {
    var c' := c + [MinedBlock(hash, c, txs, proof)];
    forall i | 0 <= i < |c'| ensures c'[i].index == i + 1 && MeetsDifficulty(hash, difficulty, c'[i]) {
      if i < |c| { assert c'[i] == c[i]; }
    }
    forall i | 1 <= i < |c'| ensures c'[i].previousHash == hash(c'[i - 1]) {
      if i < |c| { assert c'[i] == c[i] && c'[i - 1] == c[i - 1]; }
    }
  }

  /** Every non-empty prefix of a mined chain is mined, so the validator accepts the chain at every earlier length. */
  lemma MinedPrefixesValid(hash: Hasher, difficulty: int, c: seq<Block>, n: int)
    requires Mined(hash, difficulty, c)
    requires 1 <= n <= |c|
    ensures Mined(hash, difficulty, c[..n]) && ValidChain(hash, difficulty, c[..n])
  {
  }

  /**
   * validate_chain as written never returns on a node that has mined at least
   * once: position 1 of a mined chain passes its checks, and the loop repeats them.
   */
  lemma AsWrittenHangsAfterMining(hash: Hasher, difficulty: int, local: seq<Block>, candidate: seq<Block>)
    requires Mined(hash, difficulty, local) && |local| >= 2
    ensures ValidateChainAsWritten(hash, difficulty, local, candidate) == None
  {
  }

  /**
   * add_block checks only the proof: when it accepts a passing block that
   * names the wrong predecessor, the chain it builds is no longer valid.
   */
  lemma AddBlockIgnoresLinkage(hash: Hasher, difficulty: int, c: seq<Block>, b: Block)
    requires Mined(hash, difficulty, c)
    requires MeetsDifficulty(hash, difficulty, b)
    requires b.previousHash != hash(c[|c| - 1])
    ensures !ValidChain(hash, difficulty, c + [b])
  {
    var c' := c + [b];
    assert c'[|c|] == b && c'[|c| - 1] == c[|c| - 1];
    assert !LinkOk(hash, difficulty, c', |c|);
  }

  class Blockchain {
    const address: string
    const difficulty: int
    const miningReward: real
    /** The digest function the node hashes blocks with. */
    const hash: Hasher
    var chain: seq<Block>
    var currentTransactions: seq<Transaction>

    /** A genesis block always exists. */
    predicate Valid()
      reads this
    {
      |chain| >= 1
    }

    /** The reward transaction `mine` puts at the head of the pool. */
    function Reward(): (t: Transaction)
      ensures t.sender == RewardSender && t.recipient == address && t.amount == miningReward
    {
      Transaction(RewardSender, address, miningReward)
    }

    /**
     * Builds the genesis block: index 1, no transactions, predecessor "0",
     * and the least proof that passes. The pool starts empty.
     */
    constructor (address: string, difficulty: int, miningReward: real, hash: Hasher)
      requires exists p: nat :: Passes(hash, difficulty, 1, [], "0", p)
      ensures this.address == address && this.difficulty == difficulty
      ensures this.miningReward == miningReward && this.hash == hash
      ensures Valid() && |chain| == 1 && currentTransactions == []
      ensures chain[0].index == 1 && chain[0].transactions == [] && chain[0].previousHash == "0"
      ensures chain[0].proof >= 0 && IsLeastProof(hash, difficulty, 1, [], "0", chain[0].proof)
      ensures Mined(hash, difficulty, chain)
    {
      this.address := address;
      this.difficulty := difficulty;
      this.miningReward := miningReward;
      this.hash := hash;
      var proof := FindProof(hash, difficulty, 1, [], "0");
      var firstBlock := Block(1, [], proof, "0");
      chain := [firstBlock];
      currentTransactions := [];
      GenesisMined(hash, difficulty, proof);
    }

    /** current_block: the tip of the chain. */
    function CurrentBlock(): (b: Block)
      reads this
      requires Valid()
      ensures b in chain && b == chain[|chain| - 1]
    {
      chain[|chain| - 1]
    }

    function GetLength(): (n: nat)
      reads this
      ensures n == |chain|
    {
      |chain|
    }

    /** next_index: the index the next block on this chain will carry. */
    function NextIndex(): (n: int)
      reads this
      ensures n == GetLength() + 1 && n >= 1
    {
      |chain| + 1
    }

    /** add_transaction: one new transaction at the end of the pool, nothing else changes. */
    method AddTransaction(sender: string, recipient: string, amount: real)
      requires Valid()
      modifies this
      ensures Valid()
      ensures currentTransactions == old(currentTransactions) + [Transaction(sender, recipient, amount)]
      ensures chain == old(chain)
    {
      currentTransactions := currentTransactions + [Transaction(sender, recipient, amount)];
    }

    /**
     * add_block: appends the block when its proof passes and otherwise does
     * nothing. Its previous_hash is not consulted.
     */
    method AddBlock(block: Block)
      requires Valid()
      modifies this
      ensures Valid()
      ensures chain == if MeetsDifficulty(hash, difficulty, block) then old(chain) + [block] else old(chain)
      ensures currentTransactions == old(currentTransactions)
    {
      var ok := CheckProof(hash, difficulty, block);
      if ok {
        chain := chain + [block];
      }
    }

    /** The block mining would build next, with proof `p`, passes. */
    predicate NextBlockPasses(p: nat)
      reads this
      requires Valid()
    {
      Passes(hash, difficulty, NextIndex(), [Reward()] + currentTransactions, hash(CurrentBlock()), p)
    }

    /**
     * mine: puts the reward at the head of the pool, searches for the least
     * passing proof for the next block on the current tip, appends that block
     * and empties the pool. The search only ends when some proof passes.
     */
    method Mine()
      requires Valid()
      requires exists p: nat :: NextBlockPasses(p)
      modifies this
      ensures Valid()
      ensures |chain| == old(|chain|) + 1 && chain[..old(|chain|)] == old(chain)
      ensures var b := chain[|chain| - 1];
              && b.index == old(|chain|) + 1
              && b.previousHash == hash(old(chain[|chain| - 1]))
              && b.transactions == [Transaction(RewardSender, address, miningReward)] + old(currentTransactions)
              && b.proof >= 0
              && IsLeastProof(hash, difficulty, b.index, b.transactions, b.previousHash, b.proof)
      ensures currentTransactions == []
      ensures old(Mined(hash, difficulty, chain)) ==> Mined(hash, difficulty, chain)
    {
      ghost var w: nat :| NextBlockPasses(w);
      ghost var before := chain;
      currentTransactions := [Reward()] + currentTransactions;
      var prevBlock := CurrentBlock();
      var prevHashValue := hash(prevBlock);
      assert Passes(hash, difficulty, NextIndex(), currentTransactions, prevHashValue, w);
      var powGuess := FindProof(hash, difficulty, NextIndex(), currentTransactions, prevHashValue);
      var testBlock := Block(NextIndex(), currentTransactions, powGuess, prevHashValue);
      assert testBlock == MinedBlock(hash, before, currentTransactions, powGuess);
      assert MeetsDifficulty(hash, difficulty, testBlock);
      AddBlock(testBlock);
      assert chain == before + [testBlock];
      if Mined(hash, difficulty, before) {
        MineExtends(hash, difficulty, before, currentTransactions, powGuess);
      }
      currentTransactions := [];
    }

    /**
     * receive_chain: adopts the candidate when it is valid and strictly longer
     * than the local chain; otherwise leaves the chain as it was.
     */
    method ReceiveChain(candidate: seq<Block>) returns (accepted: bool)
      requires Valid()
      modifies this
      ensures Valid()
      ensures accepted == (ValidChain(hash, difficulty, candidate) && |candidate| > old(|chain|))
      ensures chain == if accepted then candidate else old(chain)
      ensures currentTransactions == old(currentTransactions)
    {
      var valid := ValidateChain(hash, difficulty, candidate);
      if valid && |candidate| > GetLength() {
        chain := candidate;
        return true;
      }
      return false;
    }
  }

}
