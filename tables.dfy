/** Integrity of the store, the `.single()` wallet lookups, and the total
    supply of a token summed over all balance rows. */
module Tables {
  import opened WalletTypes

  /** At most one wallet per user. */
  ghost predicate UniqueUsers(ws: map<WalletId, Wallet>)
  {
    forall w1, w2 :: w1 in ws && w2 in ws && ws[w1].userId == ws[w2].userId ==> w1 == w2
  }

  /** At most one wallet per address. */
  ghost predicate UniqueAddresses(ws: map<WalletId, Wallet>)
  {
    forall w1, w2 :: w1 in ws && w2 in ws && ws[w1].address == ws[w2].address ==> w1 == w2
  }

  /** `created_at` strictly increases along the records. */
  ghost predicate Ascending(txs: seq<Transaction>)
  {
    forall i, j :: 0 <= i < j < |txs| ==> txs[i].createdAt < txs[j].createdAt
  }

  /** The log is in insertion order: `created_at` strictly increases along
      it and lies below the clock. */
  ghost predicate Chronological(txs: seq<Transaction>, clock: nat)
  {
    && Ascending(txs)
    && (forall i :: 0 <= i < |txs| ==> txs[i].createdAt < clock)
  }

  ghost predicate Valid(db: Db)
  {
    && UniqueUsers(db.wallets)
    && UniqueAddresses(db.wallets)
    && Chronological(db.transactions, db.clock)
  }

  /** No balance row is negative. Kept apart from Valid: the service does
      not keep it for a negative transfer amount. */
  ghost predicate NonNegative(b: map<BalanceKey, BalanceRow>)
  {
    forall k :: k in b ==> b[k].balance >= 0
  }

  /** `.from('wallets').eq('user_id', u).single()`: the wallet of user u. */
  ghost function WalletOfUser(ws: map<WalletId, Wallet>, u: UserId): (r: Option<WalletId>)
    ensures r.Some? ==> r.value in ws && ws[r.value].userId == u
    ensures r.None? <==> forall w :: w in ws ==> ws[w].userId != u
    ensures UniqueUsers(ws) ==> forall w :: w in ws && ws[w].userId == u ==> r == Some(w)
  {
    if exists w :: w in ws && ws[w].userId == u then
      var w :| w in ws && ws[w].userId == u; Some(w)
    else
      None
  }

  /** `.from('wallets').eq('address', a).single()`: the wallet at address a. */
  ghost function WalletAt(ws: map<WalletId, Wallet>, a: Address): (r: Option<WalletId>)
    ensures r.Some? ==> r.value in ws && ws[r.value].address == a
    ensures r.None? <==> forall w :: w in ws ==> ws[w].address != a
    ensures UniqueAddresses(ws) ==> forall w :: w in ws && ws[w].address == a ==> r == Some(w)
  {
    if exists w :: w in ws && ws[w].address == a then
      var w :| w in ws && ws[w].address == a; Some(w)
    else
      None
  }

  // ----- Supply of a token: the sum of its balance rows -----

  /** What row k contributes to the supply of token t. */
  function Holding(b: map<BalanceKey, BalanceRow>, k: BalanceKey, t: Token): int
  {
    if k in b && k.1 == t then b[k].balance else 0
  }

  ghost function SumOver(b: map<BalanceKey, BalanceRow>, keys: set<BalanceKey>, t: Token): int
    decreases keys
  {
    if keys == {} then 0
    else
      var k :| k in keys;
      Holding(b, k, t) + SumOver(b, keys - {k}, t)
  }

  /** The amount of token t held over all wallets. */
  ghost function Supply(b: map<BalanceKey, BalanceRow>, t: Token): int
  {
    SumOver(b, b.Keys, t)
  }

  /** Any key can be taken out of the sum first. */
  lemma {:induction false} SumOverSplit(b: map<BalanceKey, BalanceRow>, keys: set<BalanceKey>, k: BalanceKey, t: Token)
    requires k in keys
    ensures SumOver(b, keys, t) == Holding(b, k, t) + SumOver(b, keys - {k}, t)
    decreases keys
  {
    var k' :| k' in keys && SumOver(b, keys, t) == Holding(b, k', t) + SumOver(b, keys - {k'}, t);
    if k' != k {
      SumOverSplit(b, keys - {k'}, k, t);
      SumOverSplit(b, keys - {k}, k', t);
      assert keys - {k'} - {k} == keys - {k} - {k'};
    }
  }

  /** Two balance tables that agree on every key of a set have the same sum over it. */
  lemma {:induction false} SumOverAgree(b1: map<BalanceKey, BalanceRow>, b2: map<BalanceKey, BalanceRow>, keys: set<BalanceKey>, t: Token)
    requires forall k :: k in keys ==> Holding(b1, k, t) == Holding(b2, k, t)
    ensures SumOver(b1, keys, t) == SumOver(b2, keys, t)
    decreases keys
  {
    if keys != {} {
      var k :| k in keys && SumOver(b1, keys, t) == Holding(b1, k, t) + SumOver(b1, keys - {k}, t);
      SumOverSplit(b2, keys, k, t);
      SumOverAgree(b1, b2, keys - {k}, t);
    }
  }

  /** Overwriting one existing row changes the supply by exactly the change of that row. */
  lemma SupplyAfterUpdate(b: map<BalanceKey, BalanceRow>, k: BalanceKey, row: BalanceRow, t: Token)
    requires k in b
    ensures Supply(b[k := row], t) == Supply(b, t) - Holding(b, k, t) + Holding(b[k := row], k, t)
  {
    var b' := b[k := row];
    assert b'.Keys == b.Keys;
    SumOverSplit(b, b.Keys, k, t);
    SumOverSplit(b', b.Keys, k, t);
    SumOverAgree(b, b', b.Keys - {k}, t);
  }
}
