/** The split of a merchant order's money (packages/shared/src/restaurants-order.ts). */
module RestaurantsOrder {
  import opened Options
  import opened Reals
  import opened Money
  import opened DeliveryCeiling

  /** A missing amount counts as 0. */
  function Cents(amount: Option<real>): int {
    ToCents(amount.GetOr(0.0))
  }

  // ---------------------------------------------------------------- the share

  /** Free delivery on a cash order, if the goods cover the whole fee. */
  function ShareAtPlacement(freeDelivery: bool, cash: bool, goodsTotal: real, deliveryFee: real): Option<real> {
    if !freeDelivery || !cash then None
    else if !(deliveryFee > 0.0) || ToCents(goodsTotal) < ToCents(deliveryFee) then None
    else Some(RoundToCents(deliveryFee))
  }

  /** What is known of a ceiling order; an order without a ceiling has none. */
  datatype CeilingOrder = CeilingOrder(deliveryCeiling: Option<real>, merchantTopUp: Option<real>, venueFunded: bool)

  function RecomputedShare(previous: Option<real>, goodsTotal: real, deliveryFee: real, ceiling: Option<CeilingOrder>): Option<real> {
    if ceiling.Some? && ceiling.value.deliveryCeiling.Some? && !ceiling.value.venueFunded then
      var topUp := Cents(ceiling.value.merchantTopUp);
      if topUp > 0 then Some(FromCents(MinInt(MinInt(topUp, ToCents(deliveryFee)), MaxInt(0, ToCents(goodsTotal))))) else None
    else if previous.None? then None
    else Some(FromCents(MaxInt(0, MinInt(ToCents(deliveryFee), ToCents(goodsTotal)))))
  }

  /** The share after a run of goods edits. */
  function AfterEdits(first: Option<real>, edits: seq<real>, deliveryFee: real, ceiling: Option<CeilingOrder>): Option<real> {
    if edits == [] then first
    else RecomputedShare(AfterEdits(first, edits[..|edits| - 1], deliveryFee, ceiling), edits[|edits| - 1], deliveryFee, ceiling)
  }

  // ---------------------------------------------------------------- the split

  datatype FoodMoney = FoodMoney(customerDeliveryFee: real, customerTotal: real, riderFare: real, merchantNet: real)

  function FoodOrderMoney(goodsTotal: Option<real>, deliveryFee: Option<real>, merchantDeliveryShare: Option<real>): FoodMoney {
    var goods := Cents(goodsTotal);
    var fee := Cents(deliveryFee);
    var share := MaxInt(0, MinInt(MinInt(fee, goods), Cents(merchantDeliveryShare)));
    FoodMoney(FromCents(fee - share), FromCents(goods + fee - share), FromCents(fee), FromCents(goods - share))
  }

  /** The three always add up, and the venue is left with no debt exactly when the goods are not negative. */
  lemma MoneyIsConserved(goodsTotal: Option<real>, deliveryFee: Option<real>, share: Option<real>)
    ensures var m := FoodOrderMoney(goodsTotal, deliveryFee, share);
            && m.customerTotal == m.merchantNet + m.riderFare
            && (m.merchantNet >= 0.0 <==> Cents(goodsTotal) >= 0)
            && (m.customerDeliveryFee >= 0.0 <==> Cents(deliveryFee) >= 0)
  {}

  /** What the customer does not pay of the fee the venue does: no more than was agreed, than the fee or than the goods,
      and no less than one of them, unless one is negative and the venue pays nothing. */
  lemma FeeIsSplit(goodsTotal: Option<real>, deliveryFee: Option<real>, share: Option<real>)
    ensures var m := FoodOrderMoney(goodsTotal, deliveryFee, share);
            var goods, fee, agreed := FromCents(Cents(goodsTotal)), FromCents(Cents(deliveryFee)), FromCents(Cents(share));
            var paid := fee - m.customerDeliveryFee;
            && m.riderFare == fee && m.customerTotal == goods + m.customerDeliveryFee && m.merchantNet == goods - paid
            && paid >= 0.0 && (paid > 0.0 ==> paid <= agreed && paid <= fee && paid <= goods)
            && (paid == agreed || paid == fee || paid == goods || (paid == 0.0 && (agreed < 0.0 || fee < 0.0 || goods < 0.0)))
  {}

  /** Delivery costs the customer nothing exactly when it is free by itself, or it is a cash order with free delivery
      and the goods cover the fee. */
  lemma FreeDeliveryIff(freeDelivery: bool, cash: bool, goodsTotal: real, deliveryFee: real)
    requires ToCents(deliveryFee) >= 0
    ensures ShareAtPlacement(freeDelivery, cash, goodsTotal, deliveryFee).Some? ==> deliveryFee > 0.0
    ensures var share := ShareAtPlacement(freeDelivery, cash, goodsTotal, deliveryFee);
            FoodOrderMoney(Some(goodsTotal), Some(deliveryFee), share).customerDeliveryFee == 0.0
            <==> ToCents(deliveryFee) == 0 || (freeDelivery && cash && ToCents(goodsTotal) >= ToCents(deliveryFee))
  {
    CentsComeBack(ToCents(deliveryFee));
    ZeroCents(ToCents(deliveryFee));
  }

  lemma ZeroCents(cents: int)
    ensures FromCents(cents) == 0.0 <==> cents == 0
  {}

  /** Both paths agree on the customer's total exactly when the goods are not negative: the first clamps them,
      the second does not. */
  lemma PathsAgreeIff(goods: real, ladder: real, topUp: Option<real>, venueFunded: bool)
    requires ToCents(ladder) >= 0
    ensures var m := MoneyOf(goods, ladder, topUp, venueFunded);
            m.customerTotal == FoodOrderMoney(Some(goods), Some(m.deliveryFee), m.merchantDeliveryShare).customerTotal
            <==> ToCents(goods) >= 0
  {
    CentsComeBack(FeeCents(ladder, topUp));
    CentsComeBack(ShareCents(goods, ladder, topUp, venueFunded).GetOr(0));
  }

  /** So the money of a ceiling order is conserved: customer total = venue net + rider fare, venue net >= 0. */
  lemma CeilingMoneyIsConserved(goods: real, ladder: real, topUp: Option<real>, venueFunded: bool)
    requires ToCents(ladder) >= 0 && ToCents(goods) >= 0
    ensures var m := MoneyOf(goods, ladder, topUp, venueFunded);
            var f := FoodOrderMoney(Some(goods), Some(m.deliveryFee), m.merchantDeliveryShare);
            m.customerTotal == f.merchantNet + f.riderFare && f.merchantNet >= 0.0 && f.riderFare == m.deliveryFee
  {
    PathsAgreeIff(goods, ladder, topUp, venueFunded);
    MoneyIsConserved(Some(goods), Some(MoneyOf(goods, ladder, topUp, venueFunded).deliveryFee),
                     MoneyOf(goods, ladder, topUp, venueFunded).merchantDeliveryShare);
    CentsComeBack(FeeCents(ladder, topUp));
  }

  // ---------------------------------------------------------------- edits of a ceiling order

  lemma RecomputeIsFresh(goods: real, edited: real, ladder: real, topUp: Option<real>, venueFunded: bool, ceiling: real)
    requires ToCents(ladder) >= 0
    ensures var m := MoneyOf(goods, ladder, topUp, venueFunded);
            RecomputedShare(m.merchantDeliveryShare, edited, m.deliveryFee, Some(CeilingOrder(Some(ceiling), topUp, venueFunded)))
            == MoneyOf(edited, ladder, topUp, venueFunded).merchantDeliveryShare
  {
    CentsComeBack(FeeCents(ladder, topUp));
  }

  /** Path independence: after any sequence of goods edits the recomputed share of a ceiling order is that of
      pricing the last goods from scratch. */
  lemma {:induction false} EditsArePathIndependent(goods: real, edits: seq<real>, ladder: real, topUp: Option<real>,
                                                   venueFunded: bool, ceiling: real)
    requires ToCents(ladder) >= 0 && edits != []
    ensures var m := MoneyOf(goods, ladder, topUp, venueFunded);
            AfterEdits(m.merchantDeliveryShare, edits, m.deliveryFee, Some(CeilingOrder(Some(ceiling), topUp, venueFunded)))
            == MoneyOf(edits[|edits| - 1], ladder, topUp, venueFunded).merchantDeliveryShare
  {
    var n := |edits| - 1;
    var last := if n == 0 then goods else edits[n - 1];
    if n > 0 { EditsArePathIndependent(goods, edits[..n], ladder, topUp, venueFunded, ceiling); }
    RecomputeIsFresh(last, edits[n], ladder, topUp, venueFunded, ceiling);
  }

  // ---------------------------------------------------------------- edits of an order without a ceiling

  lemma {:induction false} FundingStays(first: Option<real>, edits: seq<real>, deliveryFee: real)
    ensures AfterEdits(first, edits, deliveryFee, None).Some? == first.Some?
    ensures edits != [] && first.Some? ==>
              AfterEdits(first, edits, deliveryFee, None)
              == Some(FromCents(MaxInt(0, MinInt(ToCents(deliveryFee), ToCents(edits[|edits| - 1])))))
  {
    if edits != [] { FundingStays(first, edits[..|edits| - 1], deliveryFee); }
  }

  /** Without a ceiling a funded order stays funded and an unfunded one unfunded: the share after any edits is the
      one that placing the edited order would give exactly when the goods covered the fee at placement if and only
      if they cover it now. */
  lemma PlacementAgreesIff(goods: real, edits: seq<real>, deliveryFee: real)
    requires edits != [] && deliveryFee > 0.0
    ensures var first := ShareAtPlacement(true, true, goods, deliveryFee);
            var last := edits[|edits| - 1];
            AfterEdits(first, edits, deliveryFee, None) == ShareAtPlacement(true, true, last, deliveryFee)
            <==> (ToCents(goods) >= ToCents(deliveryFee) <==> ToCents(last) >= ToCents(deliveryFee))
  {
    FundingStays(ShareAtPlacement(true, true, goods, deliveryFee), edits, deliveryFee);
  }
}
