/** WalletService: the three tables as fields, and the two operations that
    change them, transferFunds and payOrder, written step by step as the
    service runs them. Each is proved to compute Transfers.Transfer. */
module Service {
  import opened WalletTypes
  import opened Tables
  import opened Transfers

  /** The fixed recipient and memo of payOrder. */
  const SettlementAddress: Address := "0x1234567890abcdef1234567890abcdef12345678"
  const PaymentMemo: string := "Payment for Discord membership"

  class WalletService {
    var wallets: map<WalletId, Wallet>
    var balances: map<BalanceKey, BalanceRow>
    var transactions: seq<Transaction>
    var clock: nat

    /** The store as a value. */
    function State(): Db
      reads this
    {
      Db(wallets, balances, transactions, clock)
    }

    ghost predicate Valid()
      reads this
    {
      Tables.Valid(State())
    }

    /** A service over the given wallets and balance rows and an empty log. */
    constructor (initialWallets: map<WalletId, Wallet>, initialBalances: map<BalanceKey, BalanceRow>)
      requires Tables.Valid(Db(initialWallets, initialBalances, [], 0))
      ensures Valid()
      ensures State() == Db(initialWallets, initialBalances, [], 0)
    {
      wallets := initialWallets;
      balances := initialBalances;
      transactions := [];
      clock := 0;
    }

    /** transferFunds(userId, toAddress, token, amount, memo); `insertFails`
        stands for the store refusing the insert into `transactions`. */
    method TransferFunds(userId: UserId, toAddress: Address, token: Token, amount: int,
                         memo: Option<string>, insertFails: bool) returns (r: Result<Receipt>)
      requires Valid()
      modifies this
      ensures Valid()
      ensures Outcome(State(), r) == Transfer(old(State()), userId, toAddress, token, amount, memo, insertFails)
      ensures old(NonNegative(balances)) && amount >= 0 ==> NonNegative(balances)
    {
      ghost var db := State();
      TransferPreservesValid(db, userId, toAddress, token, amount, memo, insertFails);

      if !exists w :: w in wallets && wallets[w].userId == userId {
        assert WalletOfUser(db.wallets, userId).None?;
        return Err(WalletNotFound);
      }
      var w :| w in wallets && wallets[w].userId == userId;
      assert WalletOfUser(db.wallets, userId) == Some(w);

      var key := (w, token);
      if key !in balances {
        return Err(BalanceNotFound);
      }
      var currentBalance := balances[key].balance;
      if currentBalance < amount {
        return Err(InsufficientBalance);
      }
      r := DebitRecordCreditSteps(w, toAddress, token, amount, memo, insertFails);
    }

    /** The steps of transferFunds after its checks have passed for the
        sender's wallet w. */
    method DebitRecordCreditSteps(w: WalletId, toAddress: Address, token: Token, amount: int,
                                  memo: Option<string>, insertFails: bool) returns (r: Result<Receipt>)
      requires UniqueAddresses(wallets)
      requires (w, token) in balances
      modifies this
      ensures Outcome(State(), r) == DebitRecordCredit(old(State()), w, toAddress, token, amount, memo, insertFails)
    {
      ghost var db := State();
      ghost var expected := DebitRecordCredit(db, w, toAddress, token, amount, memo, insertFails);
      var key := (w, token);

      // debit the sender
      balances := balances[key := balances[key].(balance := balances[key].balance - amount)];

      var recipientFound := exists v :: v in wallets && wallets[v].address == toAddress;
      if insertFails {
        return Err(TransactionRecordFailed);
      }
      transactions := transactions +
        [Transaction(w, toAddress, token, amount, memo, if recipientFound then Completed else Pending, clock)];
      clock := clock + 1;

      // credit the recipient, re-reading its row after the debit
      if recipientFound {
        var v :| v in wallets && wallets[v].address == toAddress;
        assert WalletAt(db.wallets, toAddress) == Some(v);
        var recipientKey := (v, token);
        if recipientKey !in balances {
          assert expected.db.balances == balances;
          assert expected.db.transactions == transactions;
          return Ok(Receipt(MockTxHash, Pending, EstimatedFee));
        }
        var recipientCurrentBalance := balances[recipientKey].balance;
        balances := balances[recipientKey := balances[recipientKey].(balance := recipientCurrentBalance + amount)];
        assert expected.db.balances == balances;
        assert expected.db.transactions == transactions;
      } else {
        assert WalletAt(db.wallets, toAddress).None?;
        assert expected.db.balances == balances;
        assert expected.db.transactions == transactions;
      }
      return Ok(Receipt(MockTxHash, Completed, EstimatedFee));
    }

    /** payOrder(userId, currency, amount): a transfer to the fixed
        settlement address with the fixed memo. */
    method PayOrder(userId: UserId, currency: Token, amount: int, insertFails: bool) returns (r: Result<Receipt>)
      requires Valid()
      modifies this
      ensures Valid()
      ensures Outcome(State(), r) == Transfer(old(State()), userId, SettlementAddress, currency, amount, Some(PaymentMemo), insertFails)
      ensures old(NonNegative(balances)) && amount >= 0 ==> NonNegative(balances)
    {
      r := TransferFunds(userId, SettlementAddress, currency, amount, Some(PaymentMemo), insertFails);
    }
  }
}
