/** createPaymentOrder: the membership price table. It reads no table and
    writes none. */
module Pricing {
  import opened WalletTypes

  /** 20 USDT a month, in hundredths. */
  const BasicMonthlyPrice: int := 2000
  /** 0.01 ETH a month, in hundredths. */
  const PremiumMonthlyPrice: int := 1

  datatype PaymentOrder = PaymentOrder(currency: Token, amount: int)

  /** createPaymentOrder(membershipType, durationMonths). The duration is
      not checked, so a duration of zero or less yields a price of zero or
      less (OrderPriceSign). */
  function CreatePaymentOrder(membershipType: string, durationMonths: int): (r: Result<PaymentOrder>)
    ensures r.Err? <==> membershipType != "basic" && membershipType != "premium"
    ensures r.Err? ==> r.error == InvalidMembershipType
    ensures r.Ok? ==> r.value.currency == (if membershipType == "basic" then "USDT" else "ETH")
  {
    if membershipType == "basic" then
      Ok(PaymentOrder("USDT", BasicMonthlyPrice * durationMonths))
    else if membershipType == "premium" then
      Ok(PaymentOrder("ETH", PremiumMonthlyPrice * durationMonths))
    else
      Err(InvalidMembershipType)
  }

  /** The price of d1 + d2 months is the price of d1 months plus the price
      of d2 months, in the same currency. */
  lemma OrderPriceAdditive(membershipType: string, d1: int, d2: int)
    requires membershipType == "basic" || membershipType == "premium"
    ensures var r1 := CreatePaymentOrder(membershipType, d1);
            var r2 := CreatePaymentOrder(membershipType, d2);
            var r := CreatePaymentOrder(membershipType, d1 + d2);
            && r.Ok? && r1.Ok? && r2.Ok?
            && r.value.currency == r1.value.currency == r2.value.currency
            && r.value.amount == r1.value.amount + r2.value.amount
  {
    var price := if membershipType == "basic" then BasicMonthlyPrice else PremiumMonthlyPrice;
    assert price * (d1 + d2) == price * d1 + price * d2;
  }

  /** The price has the sign of the duration: positive for a positive
      duration, and zero or negative for the durations the service fails to
      reject. */
  lemma OrderPriceSign(membershipType: string, d: int)
    requires membershipType == "basic" || membershipType == "premium"
    ensures CreatePaymentOrder(membershipType, d).Ok?
    ensures d > 0 <==> CreatePaymentOrder(membershipType, d).value.amount > 0
    ensures d == 0 <==> CreatePaymentOrder(membershipType, d).value.amount == 0
  {
  }

  /** Three months of basic cost 60 USDT, two months of premium 0.02 ETH,
      any other tier is refused. */
  lemma OrderPriceExamples()
    ensures CreatePaymentOrder("basic", 3) == Ok(PaymentOrder("USDT", 6000))
    ensures CreatePaymentOrder("premium", 2) == Ok(PaymentOrder("ETH", 2))
    ensures CreatePaymentOrder("gold", 1) == Err(InvalidMembershipType)
  {
  }
}
