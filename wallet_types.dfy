/** The rows of the three tables the wallet service works on (wallets,
    balances, transactions), its results and its error messages.

    Amounts are integers counting hundredths of a token unit, so "100.25"
    is 10025; the service itself parses decimal strings as floating point. */
module WalletTypes {

  type UserId = string
  type WalletId = nat
  type Address = string
  type Token = string

  datatype Option<+T> = None | Some(value: T)

  /** One constructor per distinct `throw` of the service. */
  datatype Error =
    | WalletNotFound            // 'Wallet not found'
    | BalanceNotFound           // 'Balance not found'
    | InsufficientBalance       // 'Insufficient balance'
    | TransactionRecordFailed   // 'Transaction record failed'
    | WalletLookupError         // getWalletInfo rethrows the store's own error
    | InvalidMembershipType     // 'Invalid membership type'

  datatype Result<+T> = Ok(value: T) | Err(error: Error)

  /** A row of `wallets`, keyed by its wallet id. */
  datatype Wallet = Wallet(userId: UserId, address: Address)

  /** A row of `balances`, keyed by (wallet id, token). `usdValue` is a
      display column that no operation of the service writes. */
  datatype BalanceRow = BalanceRow(balance: int, usdValue: string)

  type BalanceKey = (WalletId, Token)

  datatype Status = Pending | Completed

  /** A row of `transactions`. `createdAt` is the store's insertion time,
      modelled as a counter. */
  datatype Transaction = Transaction(
    senderId: WalletId,
    recipientAddress: Address,
    token: Token,
    amount: int,
    memo: Option<string>,
    status: Status,
    createdAt: nat)

  /** What transferFunds returns to its caller. */
  datatype Receipt = Receipt(txHash: string, status: Status, estimatedFee: string)

  const MockTxHash: string := "mock_tx_hash"
  const EstimatedFee: string := "0.001 ETH"

  /** The whole store: the three tables and the clock that stamps
      `created_at` on the next inserted transaction. */
  datatype Db = Db(
    wallets: map<WalletId, Wallet>,
    balances: map<BalanceKey, BalanceRow>,
    transactions: seq<Transaction>,
    clock: nat)

  /** The store after an operation, and what the operation returned. */
  datatype Outcome = Outcome(db: Db, result: Result<Receipt>)
}
