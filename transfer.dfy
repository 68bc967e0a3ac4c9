/** transferFunds as a function from the store before the call to the store
    after it and the call's result, with what it promises stated as lemmas.
    The class method Service.WalletService.TransferFunds is proved to
    compute exactly this function. */
module Transfers {
  import opened WalletTypes
  import opened Tables

  /** The three guards before the debit pass: the user has a wallet, that
      wallet has a row for the token, and the row holds at least `amount`. */
  ghost predicate PassesChecks(db: Db, userId: UserId, token: Token, amount: int)
  {
    var w := WalletOfUser(db.wallets, userId);
    w.Some? && (w.value, token) in db.balances && db.balances[(w.value, token)].balance >= amount
  }

  /** The recipient is credited: the checks pass, the record is inserted,
      the address names a wallet, and that wallet has a row for the token. */
  ghost predicate Credited(db: Db, userId: UserId, toAddress: Address, token: Token, amount: int, insertFails: bool)
  {
    var r := WalletAt(db.wallets, toAddress);
    PassesChecks(db, userId, token, amount) && !insertFails && r.Some? && (r.value, token) in db.balances
  }

  /** Row k is the sender's or the recipient's row for the token. */
  ghost predicate MayWrite(db: Db, userId: UserId, toAddress: Address, token: Token, k: BalanceKey)
  {
    var s := WalletOfUser(db.wallets, userId);
    var r := WalletAt(db.wallets, toAddress);
    (s.Some? && k == (s.value, token)) || (r.Some? && k == (r.value, token))
  }

  /** transferFunds(userId, toAddress, token, amount, memo). `insertFails`
      stands for the store refusing the insert into `transactions`. */
  ghost function Transfer(db: Db, userId: UserId, toAddress: Address, token: Token, amount: int,
                          memo: Option<string>, insertFails: bool): (o: Outcome)
    ensures o.result == Err(WalletNotFound) <==> WalletOfUser(db.wallets, userId).None?
    ensures o.result == Err(BalanceNotFound) <==>
              var w := WalletOfUser(db.wallets, userId);
              w.Some? && (w.value, token) !in db.balances
    ensures o.result == Err(InsufficientBalance) <==>
              var w := WalletOfUser(db.wallets, userId);
              w.Some? && (w.value, token) in db.balances && db.balances[(w.value, token)].balance < amount
    ensures o.result == Err(TransactionRecordFailed) <==> PassesChecks(db, userId, token, amount) && insertFails
    ensures o.result.Ok? <==> PassesChecks(db, userId, token, amount) && !insertFails
    ensures !PassesChecks(db, userId, token, amount) ==> o.db == db
  {
    match WalletOfUser(db.wallets, userId)
    case None => Outcome(db, Err(WalletNotFound))
    case Some(w) =>
      var key := (w, token);
      if key !in db.balances then Outcome(db, Err(BalanceNotFound))
      else
        var currentBalance := db.balances[key].balance;
        if currentBalance < amount then Outcome(db, Err(InsufficientBalance))
        else DebitRecordCredit(db, w, toAddress, token, amount, memo, insertFails)
  }

  /** The steps after the checks have passed for the sender's wallet w:
      debit, resolve the recipient, insert the record, credit. */
  ghost function DebitRecordCredit(db: Db, w: WalletId, toAddress: Address, token: Token, amount: int,
                                   memo: Option<string>, insertFails: bool): Outcome
    requires (w, token) in db.balances
  {
    var key := (w, token);
    var debited := db.balances[key := db.balances[key].(balance := db.balances[key].balance - amount)];
    var recipient := WalletAt(db.wallets, toAddress);
    if insertFails then Outcome(db.(balances := debited), Err(TransactionRecordFailed))
    else
      var record := Transaction(w, toAddress, token, amount, memo,
                                if recipient.Some? then Completed else Pending, db.clock);
      var logged := db.(balances := debited, transactions := db.transactions + [record], clock := db.clock + 1);
      if recipient.None? then
        Outcome(logged, Ok(Receipt(MockTxHash, Completed, EstimatedFee)))
      else
        var rkey := (recipient.value, token);
        if rkey !in debited then
          Outcome(logged, Ok(Receipt(MockTxHash, Pending, EstimatedFee)))
        else
          var recipientCurrentBalance := debited[rkey].balance;
          Outcome(logged.(balances := debited[rkey := debited[rkey].(balance := recipientCurrentBalance + amount)]),
                  Ok(Receipt(MockTxHash, Completed, EstimatedFee)))
  }

  /** Once the checks pass the sender's row holds exactly old - amount,
      which is not negative when amount is not, unless the sender is its
      own recipient and is credited back. */
  lemma TransferDebitsSender(db: Db, userId: UserId, toAddress: Address, token: Token, amount: int,
                             memo: Option<string>, insertFails: bool)
    requires PassesChecks(db, userId, token, amount)
    requires insertFails || WalletAt(db.wallets, toAddress) != WalletOfUser(db.wallets, userId)
    ensures var key := (WalletOfUser(db.wallets, userId).value, token);
            var o := Transfer(db, userId, toAddress, token, amount, memo, insertFails);
            && key in o.db.balances
            && o.db.balances[key].balance == db.balances[key].balance - amount
            && (amount >= 0 ==> 0 <= o.db.balances[key].balance <= db.balances[key].balance)
  {
  }

  /** A transfer past the checks appends exactly one record, copied from the
      arguments, stamped with the clock, `completed` iff the address names a
      wallet; a failed insert appends nothing. */
  lemma TransferAppendsRecord(db: Db, userId: UserId, toAddress: Address, token: Token, amount: int,
                              memo: Option<string>, insertFails: bool)
    requires PassesChecks(db, userId, token, amount)
    ensures var o := Transfer(db, userId, toAddress, token, amount, memo, insertFails);
            var w := WalletOfUser(db.wallets, userId).value;
            if insertFails then
              o.db.transactions == db.transactions && o.db.clock == db.clock
            else
              && o.db.transactions == db.transactions +
                   [Transaction(w, toAddress, token, amount, memo,
                                if WalletAt(db.wallets, toAddress).Some? then Completed else Pending, db.clock)]
              && o.db.clock == db.clock + 1
  {
  }

  /** Recipient found with a row, and not the sender: its row gains exactly
      amount, the pair's total is conserved, and the call reports `completed`. */
  lemma TransferCreditsRecipient(db: Db, userId: UserId, toAddress: Address, token: Token, amount: int,
                                 memo: Option<string>)
    requires Credited(db, userId, toAddress, token, amount, false)
    requires WalletAt(db.wallets, toAddress) != WalletOfUser(db.wallets, userId)
    ensures var skey := (WalletOfUser(db.wallets, userId).value, token);
            var rkey := (WalletAt(db.wallets, toAddress).value, token);
            var o := Transfer(db, userId, toAddress, token, amount, memo, false);
            && skey in o.db.balances && rkey in o.db.balances
            && o.db.balances[rkey].balance == db.balances[rkey].balance + amount
            && o.db.balances[skey].balance + o.db.balances[rkey].balance
               == db.balances[skey].balance + db.balances[rkey].balance
            && o.result == Ok(Receipt(MockTxHash, Completed, EstimatedFee))
  {
  }

  /** Sending to one's own address: the credit re-reads the debited row, so
      no balance changes, yet one `completed` record is appended. */
  lemma SelfTransferKeepsBalances(db: Db, userId: UserId, token: Token, amount: int, memo: Option<string>)
    requires UniqueAddresses(db.wallets)
    requires PassesChecks(db, userId, token, amount)
    ensures var w := WalletOfUser(db.wallets, userId).value;
            var o := Transfer(db, userId, db.wallets[w].address, token, amount, memo, false);
            && o.db.balances == db.balances
            && o.result == Ok(Receipt(MockTxHash, Completed, EstimatedFee))
            && |o.db.transactions| == |db.transactions| + 1
            && o.db.transactions[|db.transactions|].status == Completed
  {
    var w := WalletOfUser(db.wallets, userId).value;
    var key := (w, token);
    var row := db.balances[key];
    var toAddress := db.wallets[w].address;
    assert WalletAt(db.wallets, toAddress) == Some(w);
    assert row.(balance := row.balance - amount).(balance := row.balance - amount + amount) == row;
  }

  /** Unknown address: the sender is debited, nothing is credited, the record
      says `pending`, but the call reports `completed`. */
  lemma UnresolvedRecipientLeavesPending(db: Db, userId: UserId, toAddress: Address, token: Token, amount: int,
                                         memo: Option<string>)
    requires PassesChecks(db, userId, token, amount)
    requires WalletAt(db.wallets, toAddress).None?
    ensures var skey := (WalletOfUser(db.wallets, userId).value, token);
            var o := Transfer(db, userId, toAddress, token, amount, memo, false);
            && o.result == Ok(Receipt(MockTxHash, Completed, EstimatedFee))
            && o.db.transactions[|db.transactions|].status == Pending
            && o.db.balances == db.balances[skey := db.balances[skey].(balance := db.balances[skey].balance - amount)]
  {
  }

  /** Recipient found but without a row for the token: the sender is debited,
      nothing is credited, the record says `completed`, but the call
      reports `pending`. */
  lemma RecipientWithoutRowLeavesPending(db: Db, userId: UserId, toAddress: Address, token: Token, amount: int,
                                         memo: Option<string>)
    requires PassesChecks(db, userId, token, amount)
    requires WalletAt(db.wallets, toAddress).Some? && (WalletAt(db.wallets, toAddress).value, token) !in db.balances
    ensures var skey := (WalletOfUser(db.wallets, userId).value, token);
            var o := Transfer(db, userId, toAddress, token, amount, memo, false);
            && o.result == Ok(Receipt(MockTxHash, Pending, EstimatedFee))
            && o.db.transactions[|db.transactions|].status == Completed
            && o.db.balances == db.balances[skey := db.balances[skey].(balance := db.balances[skey].balance - amount)]
  {
  }

  /** The status the call reports and the status it records agree exactly
      when the recipient is credited. */
  lemma ReceiptMatchesRecordIffCredited(db: Db, userId: UserId, toAddress: Address, token: Token, amount: int,
                                        memo: Option<string>)
    requires PassesChecks(db, userId, token, amount)
    ensures var o := Transfer(db, userId, toAddress, token, amount, memo, false);
            && o.result.Ok? && |o.db.transactions| == |db.transactions| + 1
            && (o.result.value.status == o.db.transactions[|db.transactions|].status
                <==> Credited(db, userId, toAddress, token, amount, false))
  {
  }

  /** Nothing else changes: wallets, the set of balance rows, every usd_value,
      every row other than the sender's and the recipient's for the token,
      and every earlier record; at most one record is added. */
  lemma TransferFrame(db: Db, userId: UserId, toAddress: Address, token: Token, amount: int,
                      memo: Option<string>, insertFails: bool)
    ensures var o := Transfer(db, userId, toAddress, token, amount, memo, insertFails);
            && o.db.wallets == db.wallets
            && o.db.balances.Keys == db.balances.Keys
            && (forall k :: k in db.balances ==> o.db.balances[k].usdValue == db.balances[k].usdValue)
            && (forall k :: k in db.balances && !MayWrite(db, userId, toAddress, token, k) ==> o.db.balances[k] == db.balances[k])
            && |db.transactions| <= |o.db.transactions| <= |db.transactions| + 1
            && o.db.transactions[..|db.transactions|] == db.transactions
  {
  }

  /** The supply of every token is conserved, except that the supply of the
      transferred token drops by `amount` when the sender is debited and
      nobody is credited (unknown address, recipient without a row, or a
      failed insert). */
  lemma TransferSupply(db: Db, userId: UserId, toAddress: Address, token: Token, amount: int,
                       memo: Option<string>, insertFails: bool, t: Token)
    ensures var o := Transfer(db, userId, toAddress, token, amount, memo, insertFails);
            Supply(o.db.balances, t) == Supply(db.balances, t) -
              (if t == token && PassesChecks(db, userId, token, amount)
                  && !Credited(db, userId, toAddress, token, amount, insertFails)
               then amount else 0)
  {
    if PassesChecks(db, userId, token, amount) {
      var w := WalletOfUser(db.wallets, userId).value;
      var key := (w, token);
      var debited := db.balances[key := db.balances[key].(balance := db.balances[key].balance - amount)];
      SupplyAfterUpdate(db.balances, key, debited[key], t);
      if Credited(db, userId, toAddress, token, amount, insertFails) {
        var rkey := (WalletAt(db.wallets, toAddress).value, token);
        SupplyAfterUpdate(debited, rkey, debited[rkey].(balance := debited[rkey].balance + amount), t);
      }
    }
  }

  /** The store stays well formed, and no row turns negative when the
      amount is not negative. */
  lemma TransferPreservesValid(db: Db, userId: UserId, toAddress: Address, token: Token, amount: int,
                               memo: Option<string>, insertFails: bool)
    requires Valid(db)
    ensures var o := Transfer(db, userId, toAddress, token, amount, memo, insertFails);
            && Valid(o.db)
            && (NonNegative(db.balances) && amount >= 0 ==> NonNegative(o.db.balances))
  {
    var o := Transfer(db, userId, toAddress, token, amount, memo, insertFails);
    TransferFrame(db, userId, toAddress, token, amount, memo, insertFails);
    if PassesChecks(db, userId, token, amount) {
      TransferAppendsRecord(db, userId, toAddress, token, amount, memo, insertFails);
      if !insertFails {
        ChronologicalAppend(db.transactions, db.clock, o.db.transactions[|db.transactions|]);
      }
      if NonNegative(db.balances) && amount >= 0 {
        TransferKeepsNonNegative(db, userId, toAddress, token, amount, memo, insertFails);
      }
    }
  }

  /** Appending a record stamped with the clock, then advancing the clock,
      keeps the log chronological. */
  lemma ChronologicalAppend(txs: seq<Transaction>, clock: nat, record: Transaction)
    requires Chronological(txs, clock)
    requires record.createdAt == clock
    ensures Chronological(txs + [record], clock + 1)
  {
  }

  lemma TransferKeepsNonNegative(db: Db, userId: UserId, toAddress: Address, token: Token, amount: int,
                                 memo: Option<string>, insertFails: bool)
    requires NonNegative(db.balances) && amount >= 0
    ensures NonNegative(Transfer(db, userId, toAddress, token, amount, memo, insertFails).db.balances)
  {
    var o := Transfer(db, userId, toAddress, token, amount, memo, insertFails);
    if PassesChecks(db, userId, token, amount) {
      var key := (WalletOfUser(db.wallets, userId).value, token);
      var debited := db.balances[key := db.balances[key].(balance := db.balances[key].balance - amount)];
      assert NonNegative(debited);
      if Credited(db, userId, toAddress, token, amount, insertFails) {
        var rkey := (WalletAt(db.wallets, toAddress).value, token);
        assert o.db.balances == debited[rkey := debited[rkey].(balance := debited[rkey].balance + amount)];
      } else {
        assert o.db.balances == debited;
      }
    }
  }

  /** The source never checks amount > 0: a negative amount passes the
      balance check of any non-negative row. */
  lemma NegativeAmountPassesCheck(db: Db, userId: UserId, token: Token, amount: int)
    requires NonNegative(db.balances)
    requires amount < 0
    requires WalletOfUser(db.wallets, userId).Some? && (WalletOfUser(db.wallets, userId).value, token) in db.balances
    ensures PassesChecks(db, userId, token, amount)
  {
  }

  /** ... and then moves funds from the recipient to the sender, driving the
      recipient's row negative when it holds less than -amount. */
  lemma NegativeAmountOverdrawsRecipient(db: Db, userId: UserId, toAddress: Address, token: Token, amount: int,
                                         memo: Option<string>)
    requires Credited(db, userId, toAddress, token, amount, false)
    requires WalletAt(db.wallets, toAddress) != WalletOfUser(db.wallets, userId)
    requires db.balances[(WalletAt(db.wallets, toAddress).value, token)].balance < -amount
    ensures !NonNegative(Transfer(db, userId, toAddress, token, amount, memo, false).db.balances)
  {
    var rkey := (WalletAt(db.wallets, toAddress).value, token);
    TransferCreditsRecipient(db, userId, toAddress, token, amount, memo);
    assert Transfer(db, userId, toAddress, token, amount, memo, false).db.balances[rkey].balance < 0;
  }
}
