/**
 * The records of the ledger: transactions, blocks, and the digest function
 * that every other module is parameterised by.
 */
module Ledger {

  datatype Option<T> = None | Some(value: T)

  /** A transfer of `amount` from `sender` to `recipient`; the amount is only stored, never computed with. */
  datatype Transaction = Transaction(sender: string, recipient: string, amount: real)

  /**
   * A block. `transactions` is a value, so the block keeps the snapshot of the
   * pool it was built from whatever happens to the pool later.
   */
  datatype Block = Block(index: int, transactions: seq<Transaction>, proof: int, previousHash: string)

  /**
   * The digest of a block (the hex SHA-256 of the block's printed form).
   * It is left uninterpreted: a node is given one, and nothing is assumed about it
   * except that it is a function of the block.
   */
  type Hasher = Block -> string

  /** The sender that marks the reward transaction a miner pays itself. */
  const RewardSender: string := "Block reward"
}
