# Wallet ledger of the wallet service, in Dafny

This project models `WalletService` (`src/wallet/wallet.service.ts`), the
wallet ledger behind the HTTP API. The service keeps three tables in a
hosted store:

- `wallets`: wallet id ↦ (user id, address);
- `balances`: (wallet id, token) ↦ balance, plus a display `usd_value`;
- `transactions`: an append-only log of transfer records.

It offers five operations:

- `getWalletInfo` and `getTransactions` are read-only queries.
- `transferFunds` moves an amount of a token from the caller's wallet to an address.
- `payOrder` is a transfer to a fixed settlement address with a fixed memo.
- `createPaymentOrder` prices a membership.

The model's files:

- `wallet_types.dfy` (module `WalletTypes`): the rows, results and error messages. Amounts are integers counting hundredths of a token unit.
- `tables.dfy` (module `Tables`):
  - what a well-formed store is (`Valid`): one wallet per user and per address, and a chronological log;
  - the two `.single()` wallet lookups;
  - `Supply`, the amount of a token summed over all balance rows.
- `transfer.dfy` (module `Transfers`): `Transfer`, a function from the store before the call to the store after it and the call's result. Every promise of `transferFunds` is a lemma about it.
- `wallet_service.dfy` (module `Service`): class `WalletService` holds the tables as fields. Its methods `TransferFunds` and `PayOrder` run the service's steps one by one on those fields, and each is proved to compute `Transfer`.
- `queries.dfy` (module `Queries`): `GetWalletInfo` and `GetTransactions` are functions of the store, so they change nothing. The lemmas cover the filter, the newest-first order, the page window and the count, and show that a transfer's record can be found afterwards.
- `pricing.dfy` (module `Pricing`): the price table of `createPaymentOrder`.

Things the model shows about the service as written:

- A failed insert into `transactions` happens after the debit. The call then fails with `Transaction record failed`, the sender stays debited, and the supply of the token drops by the amount (`TransferSupply`).
- Two cases debit the sender, credit nobody, and also lose the amount from the supply. In both, the status returned disagrees with the status recorded (`ReceiptMatchesRecordIffCredited`):
  - An unknown address is recorded `pending` but returned as `completed` (`UnresolvedRecipientLeavesPending`).
  - A recipient with no row for the token is recorded `completed` but returned as `pending` (`RecipientWithoutRowLeavesPending`).
- For an unknown address the code records `pending` (`src/wallet/wallet.service.ts:98`) but returns `completed` (lines 135-139); the model follows the code.
- The credit re-reads the recipient's row after the debit, so a transfer to one's own address changes no balance but still appends a `completed` record (`SelfTransferKeepsBalances`).
- `amount > 0` and `durationMonths > 0` are never checked. The model adds no precondition for either and proves the consequences instead:
  - a negative amount passes the balance check (`NegativeAmountPassesCheck`);
  - it then takes funds from the recipient and can drive the recipient's row negative (`NegativeAmountOverdrawsRecipient`);
  - non-negativity of balances is kept only for amounts ≥ 0 (`TransferPreservesValid`);
  - a duration of zero or less gives a price of zero or less (`OrderPriceSign`).
- The `token` argument of `getTransactions` is accepted but not applied (`TokenFilterIgnored`).

## Model

| member | source | states |
|---|---|---|
| `Tables.WalletOfUser` | src/wallet/wallet.service.ts:34-43 | the lookup by user id yields a wallet of that user, or none exactly when no wallet has that user; with one wallet per user it yields that wallet |
| `Tables.WalletAt` | src/wallet/wallet.service.ts:73-86 | the lookup by address yields a wallet at that address, or none exactly when no wallet has it; with one wallet per address it yields that wallet |
| `Transfers.Transfer` | src/wallet/wallet.service.ts:32-140 | fails with `Wallet not found`, `Balance not found` or `Insufficient balance` exactly in the three guard cases, and then leaves the store unchanged; fails with `Transaction record failed` exactly when the checks pass and the insert fails; succeeds otherwise |
| `Transfers.TransferDebitsSender` | src/wallet/wallet.service.ts:57-70 | once the checks pass, the sender's row holds exactly old − amount, which lies in [0, old] when amount ≥ 0 (unless the sender is credited back as its own recipient) |
| `Transfers.TransferAppendsRecord` | src/wallet/wallet.service.ts:88-103 | past the checks, exactly one record is appended, carrying the sender's wallet id and the given address, token, amount and memo, stamped with the clock, and `completed` iff some wallet has the address; a failed insert appends nothing |
| `Transfers.TransferCreditsRecipient` | src/wallet/wallet.service.ts:105-133 | a recipient with a row, other than the sender, gains exactly amount; the sender-plus-recipient total is conserved; the call returns `completed` |
| `Transfers.SelfTransferKeepsBalances` | src/wallet/wallet.service.ts:64-132 | a transfer to one's own address leaves every balance as it was, returns `completed` and appends one `completed` record |
| `Transfers.UnresolvedRecipientLeavesPending` | src/wallet/wallet.service.ts:80-139 | for an unknown address only the sender's row changes (debited by amount), the record says `pending`, and the call returns `completed` with `mock_tx_hash` |
| `Transfers.RecipientWithoutRowLeavesPending` | src/wallet/wallet.service.ts:105-121 | for a recipient with no row for the token only the sender's row changes, the record says `completed`, and the call returns `pending` |
| `Transfers.ReceiptMatchesRecordIffCredited` | src/wallet/wallet.service.ts:88-139 | the status returned equals the status recorded if and only if the recipient is credited |
| `Transfers.TransferFrame` | src/wallet/wallet.service.ts:64-133 | wallets, the set of balance rows and every `usd_value` are unchanged; only the sender's and the recipient's rows for the token may change; earlier records are unchanged and at most one is added |
| `Transfers.TransferSupply` | src/wallet/wallet.service.ts:64-133 | the supply of every token is conserved, except that the transferred token's supply drops by amount when the sender is debited and nobody is credited |
| `Transfers.TransferPreservesValid` | src/wallet/wallet.service.ts:64-99 | a well-formed store stays well formed, and balances stay non-negative when amount ≥ 0 |
| `Transfers.ChronologicalAppend` | src/wallet/wallet.service.ts:89-99 | appending a record stamped with the clock and advancing the clock keeps the log chronological |
| `Transfers.TransferKeepsNonNegative` | src/wallet/wallet.service.ts:57-132 | with amount ≥ 0, no balance row becomes negative |
| `Transfers.NegativeAmountPassesCheck` | src/wallet/wallet.service.ts:57-62 | a negative amount passes the balance check of any non-negative row |
| `Transfers.NegativeAmountOverdrawsRecipient` | src/wallet/wallet.service.ts:124-132 | a negative amount credited to a recipient holding less than −amount leaves a negative balance |
| `Service.WalletService.TransferFunds` | src/wallet/wallet.service.ts:32-140 | the step-by-step transfer on the tables computes exactly `Transfer`, keeps the store well formed, and keeps balances non-negative for amount ≥ 0 |
| `Service.WalletService.DebitRecordCreditSteps` | src/wallet/wallet.service.ts:64-133 | debit, recipient lookup, insert and credit, run in place, compute exactly the corresponding part of `Transfer` |
| `Service.WalletService.PayOrder` | src/wallet/wallet.service.ts:202-208 | behaves exactly as `Transfer` to address `0x1234567890abcdef1234567890abcdef12345678` with memo `Payment for Discord membership` |
| `Queries.GetWalletInfo` | src/wallet/wallet.service.ts:8-30 | fails exactly when the user has no wallet; otherwise returns that wallet's address and exactly its balance rows, by token |
| `Queries.Involving` | src/wallet/wallet.service.ts:156-160 | keeps each record that has the wallet as sender or its address as recipient, as often as the log holds it, and drops every other |
| `Queries.Page` | src/wallet/wallet.service.ts:161 | returns the elements at positions (page−1)·limit through page·limit−1 that exist, so at most limit of them |
| `Queries.GetTransactions` | src/wallet/wallet.service.ts:142-179 | fails with `Wallet not found` exactly when the user has no wallet; otherwise lists at most limit records, each from the log and involving the wallet |
| `Queries.InvolvingAscending` | src/wallet/wallet.service.ts:156-160 | filtering a log in creation order keeps creation order |
| `Queries.ReversePermutes` | src/wallet/wallet.service.ts:162 | reversing keeps every element with its multiplicity |
| `Queries.NewestFirstSorted` | src/wallet/wallet.service.ts:162 | on a chronological log the matches are listed with `created_at` strictly descending |
| `Queries.NewestFirstPermutes` | src/wallet/wallet.service.ts:156-162 | the newest-first list holds each matching record exactly as often as the log does |
| `Queries.GetTransactionsListsPage` | src/wallet/wallet.service.ts:156-177 | on a well-formed store `total` counts all matches whatever page and limit are; the listed records are the newest-first matches from position (page−1)·limit on, newest first, and there are min(limit, matches − (page−1)·limit) of them when page ≥ 1, limit ≥ 1 and that position exists, none otherwise |
| `Queries.EveryMatchOnItsPage` | src/wallet/wallet.service.ts:161 | with limit ≥ 1, match j is item j mod limit of page j div limit + 1 |
| `Queries.TokenFilterIgnored` | src/wallet/wallet.service.ts:142-173 | the answer does not depend on the token argument |
| `Queries.ListedFirstAfterAppend` | src/wallet/wallet.service.ts:156-173 | a record appended that involves u's wallet is listed first on u's page 1, and u's total grows by one |
| `Queries.ListedFirstAfterTransfer` | src/wallet/wallet.service.ts:89-99 | after a successful transfer its record is listed first on page 1 for the sender, or for the owner of the wallet at the address, and their total grows by one |
| `Queries.TransferListedForRecipient` | src/wallet/wallet.service.ts:92-94 | a successful transfer to an address that names a wallet is listed first for that wallet's owner |
| `Pricing.CreatePaymentOrder` | src/wallet/wallet.service.ts:181-200 | fails with `Invalid membership type` exactly for tiers other than `basic` and `premium`; `basic` is priced in USDT and `premium` in ETH |
| `Pricing.OrderPriceAdditive` | src/wallet/wallet.service.ts:186-191 | the price of d1 + d2 months is the sum of the prices of d1 and d2 months |
| `Pricing.OrderPriceSign` | src/wallet/wallet.service.ts:181-191 | the price is positive, zero or negative as the duration is |
| `Pricing.OrderPriceExamples` | src/wallet/wallet.service.ts:186-194 | 3 months of basic cost 60 USDT, 2 months of premium cost 0.02 ETH, and tier `gold` is refused |

## Left out

- Calls to the hosted store (`.from/.select/.eq/.single/.update/.insert/.range/.order`) are network I/O. They are replaced by maps and a sequence in memory.
- Read failures of the store are not modelled. These are the balance query error of `getWalletInfo` and the `Error fetching transactions` path of `getTransactions`. The transfer's lookups treat a store error like a missing row, as the source does. Only the insert failure of `transferFunds` is modelled, as the `insertFails` flag.
- The source never checks the two `update` calls for errors. The model applies both updates unconditionally.
- The store's schema is not available, so the uniqueness of `user_id` and of `address` is taken as a table invariant (`Tables.Valid`). `.single()` on duplicate rows is therefore not modelled.
- Floating point is not modelled: `parseFloat`, `toString`, `NaN` amounts, and `0.01 * durationMonths`. Amounts are exact integers in hundredths, so the premium price is 1 and the basic price 2000 per month.
- Concurrency is not modelled. The source reads and then writes without atomicity and runs in cluster mode, but the model covers sequential calls only.
- `created_at` is a counter that each inserted record advances. The store's wall-clock time is not modelled.
- The model does not follow the store's treatment of negative range offsets. For any page and limit, `Queries.Page` keeps the positions of the window that exist.
- `getWalletInfo` returns the wallet's balance rows as a map by token. The store returns a list in no particular order.
- Logging (`console.warn`) is not modelled.
- src/wallet/wallet.controller.ts, src/auth/ and the bootstrap files are not part of this model. They are HTTP adapters, identity verification delegated to an external library, and wiring.
- The code writes only `pending` and `completed` (`src/wallet/wallet.service.ts:98`), so `Status` has only these two.
- The defaults `page = 1` and `limit = 20` of `getTransactions` (`src/wallet/wallet.service.ts:142`) are not modelled: `GetTransactions` takes both explicitly, as the controller always passes both.
