/** The DEX fee of a trade and its split into a fee and a burned part. Amounts are exact rationals. */
module DexFees {
  import opened Common

  datatype BurnDestination = KmdOpReturn | PreBurnAccount

  datatype DexFee =
    | NoFee
    | Standard(amount: real)
    | WithBurn(fee: real, burn: real, destination: BurnDestination)
  {
    function FeeAmount(): real {
      match this
      case NoFee => 0.0
      case Standard(amount) => amount
      case WithBurn(fee, _, _) => fee
    }

    function BurnAmount(): Option<real> {
      match this
      case WithBurn(_, burn, _) => Some(burn)
      case _ => None
    }

    function TotalSpendAmount(): real {
      match this
      case NoFee => 0.0
      case Standard(amount) => amount
      case WithBurn(fee, burn, _) => fee + burn
    }
  }

  const DEX_FEE_SHARE: real := 0.75

  /** What the fee depends on about the taker coin. */
  datatype TakerCoin = TakerCoin(
    ticker: string, minTxAmount: real, burnsDirectly: bool, burnsDexFee: bool, isPrivacy: bool, burnPubkey: seq<nat>)

  /** Trades of the discounted ticker pay 1 percent, all others 2 percent. */
  function DexFeeRate(base: string, rel: string): real {
    if base == "GLEEC" || rel == "GLEEC" then 0.01 else 0.02
  }

  function ForOpReturn(dexFee: real, minTxAmount: real): DexFee {
    if dexFee <= minTxAmount then Standard(minTxAmount)
    else
      var newFee := dexFee * DEX_FEE_SHARE;
      if newFee >= minTxAmount then WithBurn(newFee, dexFee - newFee, KmdOpReturn)
      else WithBurn(minTxAmount, dexFee - minTxAmount, KmdOpReturn)
  }

  function ForBurnAccount(dexFee: real, minTxAmount: real): DexFee {
    if dexFee <= minTxAmount then Standard(minTxAmount)
    else
      var newFee := dexFee * DEX_FEE_SHARE;
      var burn := dexFee - newFee;
      if newFee >= minTxAmount && burn >= minTxAmount then WithBurn(newFee, burn, PreBurnAccount)
      else
        var exceeding := dexFee - minTxAmount;
        if newFee < minTxAmount && exceeding >= minTxAmount then WithBurn(minTxAmount, exceeding, PreBurnAccount)
        else Standard(dexFee)
  }

  function NewFromTakerCoin(taker: TakerCoin, makerTicker: string, tradeAmount: real): DexFee {
    var dexFee := tradeAmount * DexFeeRate(taker.ticker, makerTicker);
    if taker.burnsDirectly then ForOpReturn(dexFee, taker.minTxAmount)
    else if taker.burnsDexFee then ForBurnAccount(dexFee, taker.minTxAmount)
    else if dexFee <= taker.minTxAmount then Standard(taker.minTxAmount)
    else Standard(dexFee)
  }

  /** The taker is the account that burns fees. */
  predicate IsExempt(taker: TakerCoin, takerPubkey: seq<nat>) {
    !taker.isPrivacy && taker.burnPubkey == takerPubkey
  }

  function NewWithTakerPubkey(taker: TakerCoin, makerTicker: string, tradeAmount: real, takerPubkey: seq<nat>): DexFee {
    if IsExempt(taker, takerPubkey) then NoFee
    else NewFromTakerCoin(taker, makerTicker, tradeAmount)
  }

  function MaxReal(a: real, b: real): (r: real)
    ensures r >= a && r >= b && (r == a || r == b)
  {
    if a < b then b else a
  }

  /**
   In every mode the taker spends the rated amount, but no less than the smallest transaction; and none of it is lost
   in the split.
   */
  lemma TotalSpendIsRatedAmount(taker: TakerCoin, makerTicker: string, tradeAmount: real)
    requires tradeAmount >= 0.0 && taker.minTxAmount >= 0.0
    ensures var fee := NewFromTakerCoin(taker, makerTicker, tradeAmount);
            && fee.TotalSpendAmount() == MaxReal(Rated(taker, makerTicker, tradeAmount), taker.minTxAmount)
            && fee.FeeAmount() >= taker.minTxAmount
            && (fee.BurnAmount().Some? ==> fee.BurnAmount().value >= 0.0)
  {
  }

  /** The rated amount, written out: 2 percent of the trade, 1 percent if either ticker is the discounted one. */
  function Rated(taker: TakerCoin, makerTicker: string, tradeAmount: real): real {
    tradeAmount * DexFeeRate(taker.ticker, makerTicker)
  }

  lemma RateIs(taker: TakerCoin, makerTicker: string, tradeAmount: real)
    ensures Rated(taker, makerTicker, 100.0 * tradeAmount)
         == if taker.ticker == "GLEEC" || makerTicker == "GLEEC" then tradeAmount else 2.0 * tradeAmount
  {
  }

  /**
   With the taker known: the account that burns fees spends nothing on a transparent coin, any other taker the rated
   amount.
   */
  lemma TotalSpendOfTaker(taker: TakerCoin, makerTicker: string, tradeAmount: real, takerPubkey: seq<nat>)
    requires tradeAmount >= 0.0 && taker.minTxAmount >= 0.0
    ensures var fee := NewWithTakerPubkey(taker, makerTicker, tradeAmount, takerPubkey);
            var exempt := !taker.isPrivacy && taker.burnPubkey == takerPubkey;
            && fee.TotalSpendAmount() == (if exempt then 0.0
                                          else MaxReal(Rated(taker, makerTicker, tradeAmount), taker.minTxAmount))
            && (fee.TotalSpendAmount() == 0.0 <==> exempt || (tradeAmount == 0.0 && taker.minTxAmount == 0.0))
            && (fee.NoFee? <==> exempt)
            && (fee.FeeAmount() >= taker.minTxAmount || exempt)
  {
    TotalSpendIsRatedAmount(taker, makerTicker, tradeAmount);
    var rate := DexFeeRate(taker.ticker, makerTicker);
    assert tradeAmount > 0.0 ==> tradeAmount * rate > 0.0;
  }

  /**
   Which fees burn, and where to: coins that burn directly do so above the smallest transaction, with an OP_RETURN;
   other burning coins above it and from four times it, to the account.
   */
  lemma FeeBurnsIff(taker: TakerCoin, makerTicker: string, tradeAmount: real)
    requires tradeAmount >= 0.0 && taker.minTxAmount >= 0.0
    ensures var fee := NewFromTakerCoin(taker, makerTicker, tradeAmount);
            var rated, min := Rated(taker, makerTicker, tradeAmount), taker.minTxAmount;
            && (fee.WithBurn? <==> if taker.burnsDirectly then rated > min
                                   else taker.burnsDexFee && rated > min && rated >= 4.0 * min)
            && (fee.WithBurn? ==> fee.destination == if taker.burnsDirectly then KmdOpReturn else PreBurnAccount)
            && (fee.BurnAmount().Some? <==> fee.WithBurn?)
            && fee.TotalSpendAmount() == fee.FeeAmount() + (if fee.WithBurn? then fee.BurnAmount().value else 0.0)
  {
    BurnAccountSplitIff(Rated(taker, makerTicker, tradeAmount), taker.minTxAmount);
    OpReturnSplit(Rated(taker, makerTicker, tradeAmount), taker.minTxAmount);
  }

  lemma TotalSpendIsMonotone(taker: TakerCoin, makerTicker: string, less: real, more: real)
    requires 0.0 <= less <= more && taker.minTxAmount >= 0.0
    ensures NewFromTakerCoin(taker, makerTicker, less).TotalSpendAmount()
         <= NewFromTakerCoin(taker, makerTicker, more).TotalSpendAmount()
  {
    TotalSpendIsRatedAmount(taker, makerTicker, less);
    TotalSpendIsRatedAmount(taker, makerTicker, more);
    var rate := DexFeeRate(taker.ticker, makerTicker);
    assert (more - less) * rate >= 0.0;
  }

  /**
   The pre-burn account receives something exactly for fees above the smallest transaction and of at least four
   of it. Then it is a quarter, so the branch that would burn only the exceeding amount is never taken.
   */
  lemma BurnAccountSplitIff(dexFee: real, minTxAmount: real)
    requires minTxAmount >= 0.0
    ensures var fee := ForBurnAccount(dexFee, minTxAmount);
            && (fee.WithBurn? <==> dexFee > minTxAmount && dexFee >= 4.0 * minTxAmount)
            && (fee.WithBurn? ==> fee == WithBurn(dexFee * 0.75, dexFee * 0.25, PreBurnAccount)
                                  && fee.fee >= minTxAmount && fee.burn >= minTxAmount)
            && (!fee.WithBurn? ==> fee == Standard(MaxReal(dexFee, minTxAmount)))
  {
  }

  lemma OpReturnSplit(dexFee: real, minTxAmount: real)
    requires minTxAmount >= 0.0
    ensures var fee := ForOpReturn(dexFee, minTxAmount);
            && (fee.WithBurn? <==> dexFee > minTxAmount)
            && fee.FeeAmount() == MaxReal(minTxAmount, dexFee * 0.75)
            && (fee.WithBurn? ==> fee.burn == MaxReal(0.0, dexFee - fee.fee) && fee.burn <= dexFee * 0.25)
  {
  }
}
