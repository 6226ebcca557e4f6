# Hash-chained proof-of-work ledger

A model of a single-node blockchain (`blockchain.py`): a `Blockchain` node keeps
a chain of blocks and a pool of pending transactions. It can

- pool transactions (`add_transaction`);
- mine the pool into a block, paying itself a reward, by searching for the
  least proof whose block digest ends in enough `'0'` characters (`mine`);
- append a block whose proof passes (`add_block`);
- validate a chain: linkage of every block to its predecessor's digest, and
  proofs (`validate_chain`);
- adopt a received chain when it is valid and strictly longer (`receive_chain`).

Files and modules:

- `ledger.dfy` (`Ledger`): `Transaction`, `Block`, and `Hasher`, the digest
  function. `create_block` and `create_transaction` are the datatype
  constructors `Block(...)` and `Transaction(...)`. A block holds its
  transactions as a value, so it keeps the snapshot `copy.copy` takes.
- `proof_of_work.dfy` (`ProofOfWork`): the difficulty predicate, using Python's
  slicing rules for `hashed[-difficulty_number:]`. It has a specification
  (`MeetsDifficulty`) and the scanning method `CheckProof`. It also holds the
  nonce search `FindProof`, shared by the genesis loop and the mining loop.
- `chain_validation.dfy` (`ChainValidation`): the validator. It has a
  specification (`ValidChain`), the position where a forward scan stops
  (`FirstViolation`), and the scanning method `ValidateChain`. It also holds
  `ValidateChainAsWritten`, the validator exactly as the code has it (see Findings).
- `blockchain.dfy` (`Node`): the `Blockchain` class, with fields `chain` and
  `currentTransactions`. It also holds the predicate `Mined`: the shape of a
  chain built by the constructor and repeated mining.
  The accessors `current_block`, `get_length` and `next_index` are the class
  functions `CurrentBlock`, `GetLength` and `NextIndex`. `Mine` and
  `ReceiveChain` state what callers rely on from them.

The digest (SHA-256 of the block's printed form) is a parameter: the node is
given a `Hasher` and nothing is assumed about it.

The model follows the code:

- `add_block` checks only the proof, not the link to the predecessor.
- `add_block` and `mine` return nothing, and `receive_chain` returns a bool,
  not a four-way outcome.
- The reward is an ordinary transaction whose sender is the string `"Block reward"`.

## Model

| member | source | states |
|---|---|---|
| ProofOfWork.SliceFromSuffix | blockchain.py:71 | Python `s[start:]`: the result is always a suffix; for a negative start it has `-start` characters (all of `s` when `-start` is at least its length); otherwise it has `start` fewer characters than `s` (none when `start` is at least its length) |
| ProofOfWork.ZeroWindowCases | blockchain.py:70-71 | the inspected window is the whole digest when the difficulty is 0 or at least the digest length; otherwise it is the last `difficulty` characters; a negative difficulty drops that many leading characters |
| ProofOfWork.AllZerosIff | blockchain.py:72-75 | the recursive "every character is '0'" predicate agrees with the per-position statement |
| ProofOfWork.MeetsDifficultyTrailingZeros | blockchain.py:68-75 | for difficulty `d >= 0`: a block passes iff its digest's last `d` characters are `'0'` (when `d` is positive and below the digest length), and iff the whole digest is zeros (when `d` is 0 or at least the digest length) |
| ProofOfWork.CheckProof | blockchain.py:68-75 | the scan with early return yields true exactly when every character of the window is `'0'` (`MeetsDifficulty`) |
| ProofOfWork.FindProof | blockchain.py:86-91 | the search from 0 upwards returns a proof that passes, and every smaller non-negative guess failed |
| ProofOfWork.LeastProofUnique | blockchain.py:86-91 | the least passing proof is unique, so the search's answer is determined by the candidate block |
| ChainValidation.FirstViolationFrom | blockchain.py:110-117 | the scan from a position stops at a failing position with all earlier ones passing, or passes everything from there on |
| ChainValidation.FirstViolation | blockchain.py:99-119 | the scan finds no failure iff the chain is valid (every block after the first is linked and passes its proof); a failure it reports is the first one |
| ChainValidation.ValidateChain | blockchain.py:99-119 | the forward scan over its argument returns true iff every block after the first names its predecessor's digest and passes the difficulty predicate; a single block is valid and the genesis proof is not checked |
| ChainValidation.TamperDetected | blockchain.py:110-117 | changing a block of a valid chain so that its digest changes is caught at that block if its proof now fails (and it is not the genesis block), otherwise exactly at its successor; this covers every block except the tip, which has no successor (see the next row) |
| ChainValidation.TamperedTipDetectedOnlyByProof | blockchain.py:110-117 | the tip of a valid chain has no successor that names its digest, so a changed tip (keeping its own link) is caught at its position only when its proof fails, and the chain still validates when the proof passes |
| ChainValidation.ValidateChainAsWritten | blockchain.py:104-119 | as written: true for a local chain of at most one block; false when position 1 fails; no answer (the loop never ends) when position 1 passes |
| ChainValidation.AsWrittenIgnoresCandidate | blockchain.py:105-116 | as written, the answer is the same for every candidate chain |
| ChainValidation.AsWrittenAcceptsUnlinkedCandidate | blockchain.py:104-126 | as written, a node with one block gets true for every candidate, so it adopts any longer one, even one whose second block is not linked and so is not valid |
| Node.MinedIsValid | blockchain.py:99-119 | a chain built by the constructor and mining passes the validator |
| Node.GenesisMined | blockchain.py:31-35 | the one-block chain the constructor builds has the mined shape (index 1, no transactions, predecessor "0", passing proof) |
| Node.MineExtends | blockchain.py:83-94 | appending the block a mining round finds (index length + 1, predecessor the tip's digest, passing proof) keeps the chain's mined shape |
| Node.MinedPrefixesValid | blockchain.py:77-97 | every non-empty prefix of a mined chain is mined and valid, so the chain was valid at every earlier length |
| Node.AsWrittenHangsAfterMining | blockchain.py:110-117 | as written, the validator never returns on a node whose mined chain has two or more blocks, whatever the candidate |
| Node.AddBlockIgnoresLinkage | blockchain.py:58-60 | when add_block accepts a passing block that names the wrong predecessor onto a mined chain, the result is not a valid chain |
| Node.Blockchain.constructor | blockchain.py:23-35 | the chain is exactly one block: index 1, no transactions, predecessor "0", the least passing proof; the pool is empty; the chain has the mined shape |
| Node.Blockchain.AddTransaction | blockchain.py:49-50 | the pool gains exactly one transaction, at its end; earlier entries and the chain are unchanged |
| Node.Blockchain.AddBlock | blockchain.py:58-60 | the block becomes the new last block iff its proof passes, otherwise the chain is unchanged; the predecessor hash is not consulted; the pool is unchanged |
| Node.Blockchain.Mine | blockchain.py:77-97 | the chain grows by one block (old blocks kept): index old length + 1, predecessor the old tip's digest, transactions the reward (sender "Block reward", the node's address, the mining reward) then the old pool, the least passing proof; the pool is empty afterwards; a mined chain stays mined |
| Node.Blockchain.ReceiveChain | blockchain.py:121-126 | the candidate replaces the chain and true is returned iff it is valid and strictly longer; otherwise false and the chain is unchanged; the pool is unchanged |

## Findings

| source | as written | input that shows it | evidently intended | confidence | as-written member | corrected member |
|---|---|---|---|---|---|---|
| blockchain.py:105-116 | `validate_chain` reads `self.chain`, not its `chain` argument | a node holding only its genesis block receives a longer chain whose second block names a forged predecessor: it is adopted | validate the candidate chain passed in | high, not executed | ChainValidation.AsWrittenAcceptsUnlinkedCandidate | ChainValidation.ValidateChain |
| blockchain.py:110-117 | the loop `while i in range(chain_len)` never increments `i` | any node that has mined once (a valid local chain of 2 or more blocks) calls `receive_chain`: the call never returns | one forward pass over positions 1 to length - 1 | high, not executed | Node.AsWrittenHangsAfterMining | ChainValidation.ValidateChain |

`ValidateChainAsWritten` gives the as-written behaviour for both rows. `ReceiveChain` uses the corrected `ValidateChain`.

## Left out

- SHA-256 over `str(block)` (blockchain.py:65-66) is a hash library plus Python's dataclass printing. It is the `Hasher` parameter, so no proof depends on its values.
- ProofOfWork.FindProof: requires that some non-negative proof passes. The source's search is unbounded and never ends when no proof passes.
- Node.Blockchain.Mine: requires that some proof passes for the next block. The source's search is unbounded and never ends when none passes.
- Node.Blockchain.constructor: requires that some proof passes for the genesis block (index 1, no transactions, predecessor "0"). The source's search is unbounded and never ends when none passes.
- `dacite.from_dict` in `receive_chain` (blockchain.py:122) is a foreign deserialiser. The candidate is taken as a sequence of blocks, so a malformed payload (an exception in the source) is not modelled.
- `players` and `add_player` (blockchain.py:29, 62-63) are bookkeeping that nothing else reads.
- `get_transactions` (blockchain.py:43-44) returns the live pool list. Sequences are values here, so that aliasing is not modelled.
- `amount` is a Python float. It is a `real` here: nothing computes with it, and its printed form matters only to the digest.
- The `time` import is unused. The code is sequential, so there is no concurrency or cancellation.
