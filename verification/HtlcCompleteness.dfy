/** Honest payments pass validation: exactly when, and for how much drift between the two reward estimates. */
module HtlcCompleteness {
  import opened Common
  import opened HtlcPayment

  /** Both sides use the negotiated terms. Each has its own estimate of the reward amount. */
  ghost predicate SameTerms(args: SendArgs, sender: Address, expected: Expected) {
    && expected.sender == sender
    && expected.contract == args.contract
    && expected.timeLock == args.timeLock
    && expected.secretHash == args.secretHash
    && expected.amount == args.amount
    && expected.reward.Some? == args.reward.Some?
    && (args.reward.Some? ==>
          && expected.reward.value.target == args.reward.value.target
          && expected.reward.value.sendOnSpend == args.reward.value.sendOnSpend)
  }

  /** The one reward kind for which sender and validator disagree about the attached value. */
  predicate ValueIsDisputed(coin: Coin, reward: WatcherReward) {
    coin.Eth? && reward.target.PaymentReceiver? && !reward.sendOnSpend
  }

  /** The honest sender can build its payment: what the transaction below is built from. */
  ghost predicate CanBuild(coin: Coin, crypto: Crypto, args: SendArgs, trade: nat, units: nat) {
    && args.timeLock < 0x1_0000_0000 && HashFits(crypto, args.secretHash)
    && ToUnits(args.amount, coin.decimals) == Some(trade) && SenderUnits(coin, args.reward) == Some(units)
  }

  /** The token amount of an honest payment. */
  function HonestAmount(coin: Coin, args: SendArgs, trade: nat, units: nat): nat {
    trade + if args.reward.Some? && AddsToAmount(coin, args.reward.value) then units else 0
  }

  /** If the agreed hash fills its argument, the honest call is the agreed call for the honest amount and reward. */
  lemma HonestCallIsAgreed(coin: Coin, crypto: Crypto, sender: Address, args: SendArgs, expected: Expected,
                           trade: nat, units: nat)
    requires SameTerms(args, sender, expected) && CanBuild(coin, crypto, args, trade, units)
    requires |EncodedSecretHash(crypto, args.secretHash)| == SECRET_HASH_WIDTH
    ensures var amount := HonestAmount(coin, args, trade, units);
            HonestTx(coin, crypto, sender, args, trade, units).data
            == PaymentCall(coin, AgreedArguments(coin, crypto, args.receiver, expected, amount, units))
  {
  }

  /** The reward in an agreed payment can only be the one the honest sender put there. */
  lemma AgreedRewardIsHonest(coin: Coin, crypto: Crypto, sender: Address, args: SendArgs, expected: Expected,
                             trade: nat, units: nat, amount: nat, u: nat)
    requires SameTerms(args, sender, expected) && CanBuild(coin, crypto, args, trade, units)
    requires var tx := HonestTx(coin, crypto, sender, args, trade, units);
             IsAgreedPayment(coin, crypto, args.receiver, expected, tx, amount, u)
    ensures args.reward.Some? ==> u == units
  {
    var data := HonestTx(coin, crypto, sender, args, trade, units).data;
    var honest := HonestAmount(coin, args, trade, units);
    HonestCallIsAgreed(coin, crypto, sender, args, expected, trade, units);
    PaymentCallIff(coin, data, AgreedArguments(coin, crypto, args.receiver, expected, honest, units));
    PaymentCallIff(coin, data, AgreedArguments(coin, crypto, args.receiver, expected, amount, u));
  }

  ghost predicate HonestPaymentIsAccepted(coin: Coin, crypto: Crypto, args: SendArgs, expected: Expected, units: nat)
    requires args.reward.Some? ==> expected.reward.Some?
  {
    && |EncodedSecretHash(crypto, args.secretHash)| == SECRET_HASH_WIDTH
    && (args.reward.Some? ==>
          && RewardAccepted(coin, expected.reward.value, units)
          && (ValueIsDisputed(coin, args.reward.value) ==> units == 0))
  }

  /**
   An honest payment is valid if and only if its hash fills the 20 bytes of its argument, and its reward is accepted and
   does not fall into the disputed kind.
   */
  lemma HonestPaymentIsValidIff(coin: Coin, crypto: Crypto, sender: Address, args: SendArgs, expected: Expected,
                                trade: nat, units: nat)
    requires SameTerms(args, sender, expected) && CanBuild(coin, crypto, args, trade, units)
    ensures var tx := HonestTx(coin, crypto, sender, args, trade, units);
            (exists amount: nat, u: nat :: IsAgreedPayment(coin, crypto, args.receiver, expected, tx, amount, u))
            <==> HonestPaymentIsAccepted(coin, crypto, args, expected, units)
  {
    var tx := HonestTx(coin, crypto, sender, args, trade, units);
    forall amount: nat, u: nat | IsAgreedPayment(coin, crypto, args.receiver, expected, tx, amount, u)
      ensures HonestPaymentIsAccepted(coin, crypto, args, expected, units)
    {
      AgreedRewardIsHonest(coin, crypto, sender, args, expected, trade, units, amount, u);
    }
    if HonestPaymentIsAccepted(coin, crypto, args, expected, units) {
      HonestCallIsAgreed(coin, crypto, sender, args, expected, trade, units);
      assert IsAgreedPayment(coin, crypto, args.receiver, expected, tx, HonestAmount(coin, args, trade, units), units);
    }
  }

  lemma ScaledBound(x: real, y: real, decimals: nat)
    requires 3.0 * x <= 5.0 * y
    ensures 3.0 * Scaled(x, decimals) <= 5.0 * Scaled(y, decimals)
  {
    var scale := Pow10(decimals) as real;
    assert (5.0 * y - 3.0 * x) * scale >= 0.0;
  }

  lemma UnitsWithinBound(decimals: nat, expectedAmount: real, paidAmount: real, expected: nat, paid: nat)
    requires 3.0 * expectedAmount <= 5.0 * paidAmount
    requires ToUnits(expectedAmount, decimals) == Some(expected)
    requires ToUnits(paidAmount * REWARD_OVERPAY_FACTOR, decimals) == Some(paid)
    ensures RewardIsAcceptable(expected, paid, false)
  {
    ScaledBound(expectedAmount, paidAmount, decimals);
    OverpaidUnits(paidAmount, decimals, paid);
    RoundedBound(Scaled(expectedAmount, decimals), Scaled(paidAmount, decimals), expected, paid);
  }

  lemma Reassociate(amount: real, scale: real)
    ensures amount * REWARD_OVERPAY_FACTOR * scale == 1.5 * (amount * scale)
  {
  }

  /** Cutting off to whole units does not break the bound. */
  lemma RoundedBound(expectedScaled: real, paidScaled: real, expected: nat, paid: nat)
    requires 3.0 * expectedScaled <= 5.0 * paidScaled
    requires expected as real <= expectedScaled
    requires 1.5 * paidScaled < paid as real + 1.0
    ensures RewardIsAcceptable(expected, paid, false)
  {
    assert 9 * expected < 10 * (paid + 1) by {
      assert 9.0 * expected as real <= 15.0 * paidScaled;
    }
  }

  /** A reward estimate may grow by two thirds between payment and validation. */
  lemma RewardWithinBoundIsAccepted(coin: Coin, paid: WatcherReward, expected: WatcherReward, units: nat)
    requires expected.target == paid.target && expected.sendOnSpend == paid.sendOnSpend && !expected.isExact
    requires 0.0 <= 3.0 * expected.amount <= 5.0 * paid.amount
    requires SenderUnits(coin, Some(paid)) == Some(units) && units < U64_LIMIT
    requires RewardUnits(coin, expected, expected.amount).Some?
        && RewardUnits(coin, expected, expected.amount).value < U64_LIMIT
    ensures RewardAccepted(coin, expected, units)
  {
    var decimals := RewardDecimals(coin, paid);
    if decimals.Some? {
      var expectedUnits := RewardUnits(coin, expected, expected.amount).value;
      UnitsWithinBound(decimals.value, expected.amount, paid.amount, expectedUnits, units);
    }
  }

  /**
   The bound is sharp up to two units: an estimate that exceeds 5/3 of the payer's by as much is refused. Amounts
   are compared in units, before they are cut off.
   */
  lemma RewardAboveBoundIsRefused(coin: Coin, paid: WatcherReward, expected: WatcherReward, units: nat, decimals: nat)
    requires expected.target == paid.target && expected.sendOnSpend == paid.sendOnSpend && !expected.isExact
    requires RewardDecimals(coin, expected) == Some(decimals)
    requires SenderUnits(coin, Some(paid)) == Some(units)
    requires 3.0 * Scaled(expected.amount, decimals) >= 5.0 * Scaled(paid.amount, decimals) + 6.0
    ensures !RewardAccepted(coin, expected, units)
  {
    OverpaidUnits(paid.amount, decimals, units);
    var e := ToUnits(expected.amount, decimals);
    if e.Some? {
      AcceptedIff(coin, expected, decimals, e.value, units);
      TooFarApart(Scaled(expected.amount, decimals), Scaled(paid.amount, decimals), e.value, units);
    }
  }

  /** Units of an overpaid amount, against the amount itself. */
  lemma OverpaidUnits(amount: real, decimals: nat, units: nat)
    requires ToUnits(amount * REWARD_OVERPAY_FACTOR, decimals) == Some(units)
    ensures var scaled := Scaled(amount, decimals);
            && units as real <= 1.5 * scaled < units as real + 1.0
            && ToUnits(amount, decimals).Some?
  {
    var scale := Pow10(decimals) as real;
    Reassociate(amount, scale);
    Overpaid(amount, scale);
  }

  /** A reward is accepted if both sides fit 64 bits and the paid one is exact, or at least 90 percent, cut off. */
  lemma AcceptedIff(coin: Coin, reward: WatcherReward, decimals: nat, expected: nat, paid: nat)
    requires RewardDecimals(coin, reward) == Some(decimals)
    requires ToUnits(reward.amount, decimals) == Some(expected)
    ensures RewardAccepted(coin, reward, paid)
       <==> && expected < 18446744073709551616 && paid < 18446744073709551616
            && (if reward.isExact then paid == expected else 10 * paid + 9 >= 9 * expected)
  {
  }

  lemma TooFarApart(expectedScaled: real, paidScaled: real, expected: nat, paid: nat)
    requires 3.0 * expectedScaled >= 5.0 * paidScaled + 6.0
    requires expectedScaled < expected as real + 1.0
    requires paid as real <= 1.5 * paidScaled
    ensures !RewardIsAcceptable(expected, paid, false)
  {
    assert 10 * paid < 9 * expected - 9 by {
      assert 10.0 * paid as real <= 15.0 * paidScaled;
    }
  }

  /**
   With a negotiated hash of 20 or 32 bytes, and no reward or a reward as the taker and maker builders make it, an
   honest payment is valid.
   */
  lemma HonestPaymentIsValid(coin: Coin, crypto: Crypto, sender: Address, args: SendArgs, expected: Expected,
                             trade: nat, units: nat)
    requires SameTerms(args, sender, expected) && CanBuild(coin, crypto, args, trade, units)
    requires |args.secretHash| == 20 || |args.secretHash| == 32
    requires args.reward.Some? ==>
               var e := expected.reward.value;
               && !e.isExact && (e.target.PaymentReceiver? ==> e.sendOnSpend)
               && 0.0 <= 3.0 * e.amount <= 5.0 * args.reward.value.amount
               && units < U64_LIMIT
               && RewardUnits(coin, e, e.amount).Some? && RewardUnits(coin, e, e.amount).value < U64_LIMIT
    ensures var tx := HonestTx(coin, crypto, sender, args, trade, units);
            exists amount: nat, u: nat :: IsAgreedPayment(coin, crypto, args.receiver, expected, tx, amount, u)
  {
    if args.reward.Some? {
      RewardWithinBoundIsAccepted(coin, args.reward.value, expected.reward.value, units);
    }
    HonestPaymentIsValidIff(coin, crypto, sender, args, expected, trade, units);
  }

  /**
   An exact reward compares units with and without the overpayment. So a paid reward is refused in every case but two:
   it is less than 2/3 of a unit, or at least one unit and less than 4/3. A reward that is paid in no asset is accepted.
   */
  lemma ExactRewardRefusedIff(coin: Coin, reward: WatcherReward, units: nat)
    requires reward.isExact
    requires SenderUnits(coin, Some(reward)) == Some(units)
    ensures var decimals := RewardDecimals(coin, reward);
            RewardAccepted(coin, reward, units) <==>
              (decimals.Some? ==>
                 var scaled := Scaled(reward.amount, decimals.value);
                 3.0 * scaled < 2.0 || (1.0 <= scaled && 3.0 * scaled < 4.0))
  {
    match RewardDecimals(coin, reward) {
      case None =>
      case Some(decimals) =>
        OverpaidUnits(reward.amount, decimals, units);
        var expected := ToUnits(reward.amount, decimals).value;
        AcceptedIff(coin, reward, decimals, expected, units);
        SameUnitsIff(Scaled(reward.amount, decimals), expected, units);
    }
  }

  lemma SameUnitsIff(scaled: real, expected: nat, paid: nat)
    requires expected as real <= scaled < expected as real + 1.0
    requires paid as real <= 1.5 * scaled < paid as real + 1.0
    ensures paid == expected <==> 3.0 * scaled < 2.0 || (1.0 <= scaled && 3.0 * scaled < 4.0)
    ensures paid == expected ==> paid < 2
  {
    if paid == expected {
      assert 1.5 * (expected as real) < expected as real + 1.0;
      assert expected < 2;
    } else if scaled < 1.0 {
      assert expected == 0;
    } else {
      assert expected >= 1 && paid >= 1;
    }
  }

  lemma Overpaid(amount: real, scale: real)
    requires amount * REWARD_OVERPAY_FACTOR >= 0.0 && scale > 0.0
    ensures amount >= 0.0 && 0.0 <= amount * scale <= amount * REWARD_OVERPAY_FACTOR * scale
  {
    Reassociate(amount, scale);
    assert amount * scale >= 0.0;
  }
}
