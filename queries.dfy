/** The read-only queries getWalletInfo and getTransactions. Both are
    functions of the store, so neither changes it. */
module Queries {
  import opened WalletTypes
  import opened Tables
  import opened Transfers

  /** What getWalletInfo returns: the wallet's address and its balance rows
      by token. */
  datatype WalletInfo = WalletInfo(walletAddress: Address, balances: map<Token, BalanceRow>)

  /** What getTransactions returns. */
  datatype TransactionPage = TransactionPage(total: nat, transactions: seq<Transaction>)

  /** getWalletInfo(userId). */
  ghost function GetWalletInfo(db: Db, userId: UserId): (r: Result<WalletInfo>)
    ensures r.Err? <==> WalletOfUser(db.wallets, userId).None?
    ensures r.Err? ==> r.error == WalletLookupError
    ensures r.Ok? ==>
              var w := WalletOfUser(db.wallets, userId).value;
              && r.value.walletAddress == db.wallets[w].address
              && (forall t :: t in r.value.balances <==> (w, t) in db.balances)
              && (forall t :: t in r.value.balances ==> r.value.balances[t] == db.balances[(w, t)])
  {
    match WalletOfUser(db.wallets, userId)
    case None => Err(WalletLookupError)
    case Some(w) =>
      Ok(WalletInfo(db.wallets[w].address, map k | k in db.balances && k.0 == w :: k.1 := db.balances[k]))
  }

  /** The filter `sender_id = w OR recipient_address = addr`. */
  predicate Involves(tx: Transaction, w: WalletId, addr: Address)
  {
    tx.senderId == w || tx.recipientAddress == addr
  }

  /** The records that involve the wallet, in log order. */
  function Involving(txs: seq<Transaction>, w: WalletId, addr: Address): (r: seq<Transaction>)
    ensures |r| <= |txs|
    ensures forall x :: multiset(r)[x] == if Involves(x, w, addr) then multiset(txs)[x] else 0
    ensures forall x :: x in r <==> x in txs && Involves(x, w, addr)
  {
    if txs == [] then []
    else
      var last := txs[|txs| - 1];
      assert txs == txs[..|txs| - 1] + [last];
      Involving(txs[..|txs| - 1], w, addr) + (if Involves(last, w, addr) then [last] else [])
  }

  function Reverse<T>(s: seq<T>): (r: seq<T>)
    ensures |r| == |s|
    ensures forall i :: 0 <= i < |s| ==> r[i] == s[|s| - 1 - i]
  {
    if s == [] then [] else [s[|s| - 1]] + Reverse(s[..|s| - 1])
  }

  /** `.order('created_at', { ascending: false })` applied to the matches.
      The log is chronological (Tables.Chronological), so this is the
      matches reversed; NewestFirstSorted and NewestFirstPermutes prove it. */
  function NewestFirst(txs: seq<Transaction>, w: WalletId, addr: Address): seq<Transaction>
  {
    Reverse(Involving(txs, w, addr))
  }

  function PageStart(page: int, limit: int): int
  {
    (page - 1) * limit
  }

  function Clamp(x: int, lo: int, hi: int): (r: int)
    requires lo <= hi
    ensures lo <= r <= hi
    ensures lo <= x <= hi ==> r == x
  {
    if x < lo then lo else if x > hi then hi else x
  }

  /** `.range((page - 1) * limit, page * limit - 1)`: the positions from
      PageStart through page * limit - 1 that exist. */
  function Page<T>(s: seq<T>, page: int, limit: int): (r: seq<T>)
    ensures |r| == if limit > 0 && page >= 1 && PageStart(page, limit) < |s|
                   then (if |s| - PageStart(page, limit) < limit then |s| - PageStart(page, limit) else limit)
                   else 0
    ensures forall i :: 0 <= i < |r| ==> 0 <= PageStart(page, limit) + i < |s| && r[i] == s[PageStart(page, limit) + i]
  {
    var from := (page - 1) * limit;
    var to := page * limit - 1;
    assert to + 1 == from + limit;
    var lo := Clamp(from, 0, |s|);
    var hi := Clamp(to + 1, lo, |s|);
    assert limit > 0 && page >= 1 ==> from >= 0;
    assert limit > 0 && page < 1 ==> to + 1 <= 0;
    s[lo..hi]
  }

  /** getTransactions(userId, page, limit, token). The token argument is
      accepted and not applied. */
  ghost function GetTransactions(db: Db, userId: UserId, page: int, limit: int, token: Option<Token>): (r: Result<TransactionPage>)
    ensures r.Err? <==> WalletOfUser(db.wallets, userId).None?
    ensures r.Err? ==> r.error == WalletNotFound
    ensures r.Ok? ==> |r.value.transactions| <= (if limit > 0 then limit else 0)
    ensures r.Ok? ==>
              var w := WalletOfUser(db.wallets, userId).value;
              forall tx :: tx in r.value.transactions ==> tx in db.transactions && Involves(tx, w, db.wallets[w].address)
  {
    match WalletOfUser(db.wallets, userId)
    case None => Err(WalletNotFound)
    case Some(w) =>
      var matches := Involving(db.transactions, w, db.wallets[w].address);
      var listed := Page(Reverse(matches), page, limit);
      assert forall tx :: tx in listed ==> tx in matches;
      Ok(TransactionPage(|matches|, listed))
  }

  // ----- Ordering, counting and paging -----

  ghost predicate Descending(txs: seq<Transaction>)
  {
    forall i, j :: 0 <= i < j < |txs| ==> txs[i].createdAt > txs[j].createdAt
  }

  /** Filtering keeps the log's order. */
  lemma {:induction false} InvolvingAscending(txs: seq<Transaction>, w: WalletId, addr: Address)
    requires Ascending(txs)
    ensures Ascending(Involving(txs, w, addr))
  {
    if txs != [] {
      var init := txs[..|txs| - 1];
      var last := txs[|txs| - 1];
      assert Ascending(init) by {
        forall i, j | 0 <= i < j < |init| ensures init[i].createdAt < init[j].createdAt {
          assert init[i] == txs[i] && init[j] == txs[j];
        }
      }
      InvolvingAscending(init, w, addr);
      var prefix := Involving(init, w, addr);
      if Involves(last, w, addr) {
        forall x | x in prefix ensures x.createdAt < last.createdAt {
          var k :| 0 <= k < |init| && init[k] == x;
          assert txs[k] == x;
        }
        AscendingSnoc(prefix, last);
      }
    }
  }

  lemma AscendingSnoc(s: seq<Transaction>, last: Transaction)
    requires Ascending(s)
    requires forall x :: x in s ==> x.createdAt < last.createdAt
    ensures Ascending(s + [last])
  {
    var r := s + [last];
    forall i, j | 0 <= i < j < |r| ensures r[i].createdAt < r[j].createdAt {
      assert r[i] == s[i];
      if j < |s| {
        assert r[j] == s[j];
      }
    }
  }

  /** Reversing keeps the elements. */
  lemma {:induction false} ReversePermutes<T>(s: seq<T>)
    ensures multiset(Reverse(s)) == multiset(s)
  {
    if s != [] {
      ReversePermutes(s[..|s| - 1]);
      assert s == s[..|s| - 1] + [s[|s| - 1]];
    }
  }

  /** On a chronological log NewestFirst is sorted by created_at, newest first ... */
  lemma NewestFirstSorted(txs: seq<Transaction>, clock: nat, w: WalletId, addr: Address)
    requires Chronological(txs, clock)
    ensures Descending(NewestFirst(txs, w, addr))
  {
    InvolvingAscending(txs, w, addr);
  }

  /** ... and holds each involving record exactly as often as the log does. */
  lemma NewestFirstPermutes(txs: seq<Transaction>, w: WalletId, addr: Address)
    ensures forall x :: multiset(NewestFirst(txs, w, addr))[x] == if Involves(x, w, addr) then multiset(txs)[x] else 0
  {
    ReversePermutes(Involving(txs, w, addr));
  }

  /** getTransactions on a well-formed store: total counts every involving
      record, and the listed ones are the newest-first matches at positions
      PageStart onward, themselves newest first, as many as the window of
      limit positions holds. */
  lemma GetTransactionsListsPage(db: Db, userId: UserId, page: int, limit: int, token: Option<Token>)
    requires Valid(db)
    requires WalletOfUser(db.wallets, userId).Some?
    ensures var w := WalletOfUser(db.wallets, userId).value;
            var all := NewestFirst(db.transactions, w, db.wallets[w].address);
            var r := GetTransactions(db, userId, page, limit, token);
            && r.Ok?
            && r.value.total == |multiset(all)|
            && (forall x :: multiset(all)[x] == if Involves(x, w, db.wallets[w].address) then multiset(db.transactions)[x] else 0)
            && Descending(all)
            && Descending(r.value.transactions)
            && |r.value.transactions| ==
                 (if limit > 0 && page >= 1 && PageStart(page, limit) < |all| then
                    (if |all| - PageStart(page, limit) < limit then |all| - PageStart(page, limit) else limit)
                  else 0)
            && (forall i :: 0 <= i < |r.value.transactions| ==>
                  0 <= PageStart(page, limit) + i < |all| && r.value.transactions[i] == all[PageStart(page, limit) + i])
  {
    var w := WalletOfUser(db.wallets, userId).value;
    var addr := db.wallets[w].address;
    NewestFirstSorted(db.transactions, db.clock, w, addr);
    NewestFirstPermutes(db.transactions, w, addr);
    ReversePermutes(Involving(db.transactions, w, addr));
  }

  /** With limit >= 1 every match is listed on exactly one page: position j
      is item j % limit of page j / limit + 1. */
  lemma EveryMatchOnItsPage<T>(s: seq<T>, limit: int, j: int)
    requires limit >= 1 && 0 <= j < |s|
    ensures var p := Page(s, j / limit + 1, limit);
            j % limit < |p| && p[j % limit] == s[j]
  {
    assert PageStart(j / limit + 1, limit) == j - j % limit;
  }

  /** The optional token argument does not change the answer. */
  lemma TokenFilterIgnored(db: Db, userId: UserId, page: int, limit: int, t1: Option<Token>, t2: Option<Token>)
    ensures GetTransactions(db, userId, page, limit, t1) == GetTransactions(db, userId, page, limit, t2)
  {
  }

  // ----- Transfers seen through getTransactions -----

  lemma InvolvingAppend(txs: seq<Transaction>, record: Transaction, w: WalletId, addr: Address)
    requires Involves(record, w, addr)
    ensures Involving(txs + [record], w, addr) == Involving(txs, w, addr) + [record]
  {
    assert (txs + [record])[..|txs|] == txs;
  }

  lemma ReverseAppend<T>(s: seq<T>, x: T)
    ensures Reverse(s + [x]) == [x] + Reverse(s)
  {
    assert (s + [x])[..|s|] == s;
  }

  /** Appending a record that involves u's wallet puts it first on page 1
      of u's listing and adds one to u's total. */
  lemma ListedFirstAfterAppend(db: Db, db': Db, record: Transaction, u: UserId, limit: int, filter: Option<Token>)
    requires db'.wallets == db.wallets && db'.transactions == db.transactions + [record]
    requires WalletOfUser(db.wallets, u).Some?
    requires var v := WalletOfUser(db.wallets, u).value; Involves(record, v, db.wallets[v].address)
    requires limit >= 1
    ensures var before := GetTransactions(db, u, 1, limit, filter);
            var after := GetTransactions(db', u, 1, limit, filter);
            && after.Ok? && after.value.total == before.value.total + 1
            && |after.value.transactions| >= 1 && after.value.transactions[0] == record
  {
    var v := WalletOfUser(db.wallets, u).value;
    var addr := db.wallets[v].address;
    NewestFirstAfterAppend(db.transactions, record, v, addr);
    PageOneStartsAtHead(NewestFirst(db'.transactions, v, addr), limit);
  }

  lemma NewestFirstAfterAppend(txs: seq<Transaction>, record: Transaction, w: WalletId, addr: Address)
    requires Involves(record, w, addr)
    ensures |Involving(txs + [record], w, addr)| == |Involving(txs, w, addr)| + 1
    ensures NewestFirst(txs + [record], w, addr) == [record] + NewestFirst(txs, w, addr)
  {
    InvolvingAppend(txs, record, w, addr);
    ReverseAppend(Involving(txs, w, addr), record);
  }

  lemma PageOneStartsAtHead<T>(s: seq<T>, limit: int)
    requires limit >= 1 && |s| >= 1
    ensures |Page(s, 1, limit)| >= 1 && Page(s, 1, limit)[0] == s[0]
  {
    assert PageStart(1, limit) == 0;
  }

  /** The record a successful transfer appends is the first one listed on
      page 1 for user u, whose wallet is involved in it, and u's total grows
      by one. */
  lemma ListedFirstAfterTransfer(db: Db, userId: UserId, toAddress: Address, token: Token, amount: int,
                                 memo: Option<string>, u: UserId, limit: int, filter: Option<Token>)
    requires Transfer(db, userId, toAddress, token, amount, memo, false).result.Ok?
    requires WalletOfUser(db.wallets, u).Some?
    requires var v := WalletOfUser(db.wallets, u).value;
             v == WalletOfUser(db.wallets, userId).value || db.wallets[v].address == toAddress
    requires limit >= 1
    ensures var o := Transfer(db, userId, toAddress, token, amount, memo, false);
            var before := GetTransactions(db, u, 1, limit, filter);
            var after := GetTransactions(o.db, u, 1, limit, filter);
            && |o.db.transactions| == |db.transactions| + 1
            && after.Ok? && after.value.total == before.value.total + 1
            && |after.value.transactions| >= 1
            && after.value.transactions[0] == o.db.transactions[|db.transactions|]
  {
    var o := Transfer(db, userId, toAddress, token, amount, memo, false);
    TransferFrame(db, userId, toAddress, token, amount, memo, false);
    TransferAppendsRecord(db, userId, toAddress, token, amount, memo, false);
    var record := o.db.transactions[|db.transactions|];
    ListedFirstAfterAppend(db, o.db, record, u, limit, filter);
  }

  /** A successful transfer to an address that names a wallet is listed
      first for that wallet's owner too. */
  lemma TransferListedForRecipient(db: Db, userId: UserId, toAddress: Address, token: Token, amount: int,
                                   memo: Option<string>, limit: int, filter: Option<Token>)
    requires UniqueUsers(db.wallets)
    requires Transfer(db, userId, toAddress, token, amount, memo, false).result.Ok?
    requires WalletAt(db.wallets, toAddress).Some?
    requires limit >= 1
    ensures var o := Transfer(db, userId, toAddress, token, amount, memo, false);
            var owner := db.wallets[WalletAt(db.wallets, toAddress).value].userId;
            var after := GetTransactions(o.db, owner, 1, limit, filter);
            && |o.db.transactions| == |db.transactions| + 1
            && after.Ok? && |after.value.transactions| >= 1
            && after.value.transactions[0] == o.db.transactions[|db.transactions|]
  {
    var v := WalletAt(db.wallets, toAddress).value;
    var owner := db.wallets[v].userId;
    assert WalletOfUser(db.wallets, owner) == Some(v);
    ListedFirstAfterTransfer(db, userId, toAddress, token, amount, memo, owner, limit, filter);
  }
}
