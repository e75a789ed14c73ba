/**
 Spending and refunding a payment, and the commitment that sender, receiver and contract agree on.
 */
module HtlcSettlement {
  import opened Common
  import opened HtlcPayment

  // ---------- the calls ----------

  datatype SettlementError = MissingFunction | WrongPaymentCall | NotSent(state: PaymentState) | SecretTooLong

  const SECRET_WIDTH: nat := 32

  const SPEND := "receiverSpend"
  const REFUND := "senderRefund"

  /** Both the payment and its settlement must be in the contract interface. */
  predicate CanSettle(interface: Interface, coin: Coin, settlement: string, watcherReward: bool) {
    GetFunctionName(settlement, watcherReward) in interface && CanPay(interface, coin, watcherReward)
  }

  /** The receiver's call. `state` is what the contract reports for the payment's id. */
  function SpendCall(interface: Interface, coin: Coin, tx: Tx, secret: Bytes, me: Address, watcherReward: bool,
                     state: PaymentState): Result<Call, SettlementError> {
    var name := GetFunctionName(SPEND, watcherReward);
    if !CanSettle(interface, coin, SPEND, watcherReward) then Err(MissingFunction)
    else
      match Decode(coin, watcherReward, tx.data)
      case None => Err(WrongPaymentCall)
      case Some(decoded) =>
        if state != Sent then Err(NotSent(state))
        else if |secret| > SECRET_WIDTH then Err(SecretTooLong)
        else
          match coin
          case Eth(_) =>
            Ok(Call(name,
              [decoded[0], Uint(tx.value), FixedBytes(Padded(secret, SECRET_WIDTH)), Addr(ZERO_ADDRESS), Addr(tx.from)]
              + if watcherReward then [Addr(me), decoded[4], decoded[5], decoded[6]] else []))
          case Erc20(_, token) =>
            Ok(Call(name,
              [decoded[0], decoded[1], FixedBytes(Padded(secret, SECRET_WIDTH)), Addr(token), Addr(tx.from)]
              + if watcherReward then [Addr(me), decoded[6], decoded[7], decoded[8]] else []))
  }

  /** The sender's call. */
  function RefundCall(interface: Interface, coin: Coin, tx: Tx, me: Address, watcherReward: bool,
                      state: PaymentState): Result<Call, SettlementError> {
    var name := GetFunctionName(REFUND, watcherReward);
    if !CanSettle(interface, coin, REFUND, watcherReward) then Err(MissingFunction)
    else
      match Decode(coin, watcherReward, tx.data)
      case None => Err(WrongPaymentCall)
      case Some(decoded) =>
        if state != Sent then Err(NotSent(state))
        else
          match coin
          case Eth(_) =>
            Ok(Call(name,
              [decoded[0], Uint(tx.value), decoded[2], Addr(ZERO_ADDRESS)]
              + if watcherReward then [Addr(me), decoded[1], decoded[4], decoded[5], decoded[6]] else [decoded[1]]))
          case Erc20(_, token) =>
            Ok(Call(name,
              [decoded[0], decoded[1], decoded[4], Addr(token)]
              + if watcherReward then [Addr(me), decoded[3], decoded[6], decoded[7], decoded[8]] else [decoded[3]]))
  }

  /**
   A spend is built exactly for a payment that is still there and a secret that fits; otherwise the first obstacle is
   reported.
   */
  lemma SpendCallIff(interface: Interface, coin: Coin, tx: Tx, secret: Bytes, me: Address, watcherReward: bool,
                     state: PaymentState)
    ensures var call := SpendCall(interface, coin, tx, secret, me, watcherReward, state);
            var known := CanSettle(interface, coin, "receiverSpend", watcherReward);
            var readable := Decode(coin, watcherReward, tx.data).Some?;
            && (call.Ok? <==> known && readable && state == Sent && |secret| <= 32)
            && (call.Ok? ==> call.value.name == if watcherReward then "receiverSpendReward" else "receiverSpend")
            && (!known ==> call == Err(MissingFunction))
            && (known && !readable ==> call == Err(WrongPaymentCall))
            && (known && readable && state != Sent ==> call == Err(NotSent(state)))
            && (known && readable && state == Sent && |secret| > 32 ==> call == Err(SecretTooLong))
  {
    assert "receiverSpend" + "Reward" == "receiverSpendReward";
  }

  /** Likewise a refund, which needs no secret. */
  lemma RefundCallIff(interface: Interface, coin: Coin, tx: Tx, me: Address, watcherReward: bool, state: PaymentState)
    ensures var call := RefundCall(interface, coin, tx, me, watcherReward, state);
            var known := CanSettle(interface, coin, "senderRefund", watcherReward);
            var readable := Decode(coin, watcherReward, tx.data).Some?;
            && (call.Ok? <==> known && readable && state == Sent)
            && (call.Ok? ==> call.value.name == if watcherReward then "senderRefundReward" else "senderRefund")
            && (!known ==> call == Err(MissingFunction))
            && (known && !readable ==> call == Err(WrongPaymentCall))
            && (known && readable && state != Sent ==> call == Err(NotSent(state)))
  {
    assert "senderRefund" + "Reward" == "senderRefundReward";
  }

  /** With the shipped interface exactly the payments without a watcher reward can be spent and refunded. */
  lemma ShippedInterfaceCanSettleIff(coin: Coin, watcherReward: bool)
    ensures CanSettle(SHIPPED_INTERFACE, coin, "receiverSpend", watcherReward) <==> !watcherReward
    ensures CanSettle(SHIPPED_INTERFACE, coin, "senderRefund", watcherReward) <==> !watcherReward
  {
    ShippedInterfaceCanPayIff(coin, watcherReward);
    assert GetFunctionName("receiverSpend", false) in SHIPPED_INTERFACE;
    assert GetFunctionName("senderRefund", false) in SHIPPED_INTERFACE;
  }

  // ---------- the assumed swap contract ----------

  /** What the contract stores for a payment and recomputes from the arguments of a spend or refund. */
  datatype Commitment = Commitment(
    id: Bytes, amount: nat, secretHash: Bytes, token: Address, sender: Address, receiver: Address,
    reward: Option<RewardArgs>)

  function DoubleHash(crypto: Crypto, secret: Bytes): Bytes {
    crypto.ripemd160(crypto.sha256(secret))
  }

  /** A payment call as the contract reads it: ETH is counted by the attached value. */
  ghost function PaymentCommitment(coin: Coin, tx: Tx, p: Payment): Commitment {
    if coin.Eth? then Commitment(p.id, tx.value, p.secretHash, ZERO_ADDRESS, tx.from, p.receiver, p.reward)
    else Commitment(p.id, p.amount, p.secretHash, coin.token, tx.from, p.receiver, p.reward)
  }

  /** The reward arguments at the end of a call. */
  ghost function RewardAt(tokens: seq<Token>, i: nat): (reward: Option<RewardArgs>)
    requires i + 3 <= |tokens|
  {
    if tokens[i].Uint? && tokens[i + 1].Bool? && tokens[i + 2].Uint?
    then Some(RewardArgs(tokens[i].amount, tokens[i + 1].flag, tokens[i + 2].amount)) else None
  }

  /**
   Spend: id, amount, secret, token, sender, and with a reward: receiver, target, flag, reward. Without one the caller
   is the receiver.
   */
  ghost function SpendCommitment(crypto: Crypto, call: Call, caller: Address): Option<Commitment> {
    var t := call.tokens;
    if |t| < 5 || !(t[0].FixedBytes? && t[1].Uint? && t[2].FixedBytes? && t[3].Addr? && t[4].Addr?) then None
    else if call.name == SPEND then
      var secretHash := DoubleHash(crypto, t[2].bytes);
      Some(Commitment(t[0].bytes, t[1].amount, secretHash, t[3].address, t[4].address, caller, None))
    else if call.name == GetFunctionName(SPEND, true) && |t| == 9 && t[5].Addr? && RewardAt(t, 6).Some? then
      var secretHash := DoubleHash(crypto, t[2].bytes);
      Some(Commitment(t[0].bytes, t[1].amount, secretHash, t[3].address, t[4].address, t[5].address, RewardAt(t, 6)))
    else None
  }

  /**
   Refund: id, amount, secret hash, token, with a reward the sender, then the receiver and the reward. Without one the
   caller is the sender.
   */
  ghost function RefundCommitment(call: Call, caller: Address): Option<Commitment> {
    var t := call.tokens;
    if |t| < 5 || !(t[0].FixedBytes? && t[1].Uint? && t[2].FixedBytes? && t[3].Addr? && t[4].Addr?) then None
    else if call.name == REFUND then
      Some(Commitment(t[0].bytes, t[1].amount, t[2].bytes, t[3].address, caller, t[4].address, None))
    else if call.name == GetFunctionName(REFUND, true) && |t| == 9 && t[5].Addr? && RewardAt(t, 6).Some? then
      Some(Commitment(t[0].bytes, t[1].amount, t[2].bytes, t[3].address, t[4].address, t[5].address, RewardAt(t, 6)))
    else None
  }

  datatype Stored = Stored(commitment: Commitment, timeLock: nat, state: PaymentState)

  type SwapContract = map<Bytes, Stored>

  ghost function StateOf(contract: SwapContract, id: Bytes): PaymentState {
    if id in contract then contract[id].state else Uninitialized
  }

  /** A payment is taken for an id that is not in use. */
  ghost function Pay(contract: SwapContract, coin: Coin, tx: Tx, p: Payment): SwapContract {
    if p.id in contract then contract
    else contract[p.id := Stored(PaymentCommitment(coin, tx, p), p.timeLock, Sent)]
  }

  /** A spend goes through exactly for the stored commitment of a payment that is still there. */
  ghost predicate SpendAccepted(contract: SwapContract, crypto: Crypto, call: Call, caller: Address) {
    var c := SpendCommitment(crypto, call, caller);
    c.Some? && StateOf(contract, c.value.id) == Sent && contract[c.value.id].commitment == c.value
  }

  ghost predicate RefundAccepted(contract: SwapContract, call: Call, caller: Address, now: nat) {
    var c := RefundCommitment(call, caller);
    c.Some? && StateOf(contract, c.value.id) == Sent && contract[c.value.id].commitment == c.value
        && contract[c.value.id].timeLock <= now
  }

  ghost function Spend(contract: SwapContract, crypto: Crypto, call: Call, caller: Address): SwapContract {
    if SpendAccepted(contract, crypto, call, caller)
    then var id := SpendCommitment(crypto, call, caller).value.id; contract[id := contract[id].(state := Spent)]
    else contract
  }

  ghost function Refund(contract: SwapContract, call: Call, caller: Address, now: nat): SwapContract {
    if RefundAccepted(contract, call, caller, now)
    then var id := RefundCommitment(call, caller).value.id; contract[id := contract[id].(state := Refunded)]
    else contract
  }

  // ---------- agreement on the commitment ----------

  /** With either way to negotiate a secret hash, the payment carries ripemd160(sha256(secret)). */
  lemma EncodedHashIsDoubleHash(crypto: Crypto, secret: Bytes, negotiated: Bytes)
    requires negotiated == crypto.sha256(secret) || negotiated == DoubleHash(crypto, secret)
    ensures EncodedSecretHash(crypto, negotiated) == DoubleHash(crypto, secret)
    ensures |EncodedSecretHash(crypto, negotiated)| == SECRET_HASH_WIDTH
  {
  }

  lemma SpendCallOf(interface: Interface, coin: Coin, tx: Tx, p: Payment, secret: Bytes, me: Address)
    requires HasWidths(p) && tx.data == PaymentCall(coin, p) && CanSettle(interface, coin, SPEND, p.reward.Some?)
    requires |secret| <= SECRET_WIDTH
    ensures SpendCall(interface, coin, tx, secret, me, p.reward.Some?, Sent) == Ok(Call(
              GetFunctionName(SPEND, p.reward.Some?),
              [FixedBytes(p.id), Uint(if coin.Eth? then tx.value else p.amount),
               FixedBytes(Padded(secret, SECRET_WIDTH)),
               Addr(if coin.Eth? then ZERO_ADDRESS else coin.token), Addr(tx.from)]
              + if p.reward.Some? then [Addr(me)] + RewardTokens(p.reward) else []))
  {
    PaymentCallIff(coin, tx.data, p);
    if p.reward.Some? {
      var t, own := tx.data.tokens, if coin.Eth? then 4 else 6;
      assert [Addr(me)] + RewardTokens(p.reward) == [Addr(me), t[own], t[own + 1], t[own + 2]];
    }
  }

  lemma RefundCallOf(interface: Interface, coin: Coin, tx: Tx, p: Payment, me: Address)
    requires HasWidths(p) && tx.data == PaymentCall(coin, p) && CanSettle(interface, coin, REFUND, p.reward.Some?)
    ensures RefundCall(interface, coin, tx, me, p.reward.Some?, Sent) == Ok(Call(
              GetFunctionName(REFUND, p.reward.Some?),
              [FixedBytes(p.id), Uint(if coin.Eth? then tx.value else p.amount), FixedBytes(p.secretHash),
               Addr(if coin.Eth? then ZERO_ADDRESS else coin.token)]
              + if p.reward.Some? then [Addr(me), Addr(p.receiver)] + RewardTokens(p.reward) else [Addr(p.receiver)]))
  {
    PaymentCallIff(coin, tx.data, p);
    if p.reward.Some? {
      var t, own := tx.data.tokens, if coin.Eth? then 4 else 6;
      assert [Addr(me), Addr(p.receiver)] + RewardTokens(p.reward)
          == [Addr(me), Addr(p.receiver), t[own], t[own + 1], t[own + 2]];
    }
  }

  /** The spend call rebuilds the payment's commitment with its caller as receiver and its secret hashed. */
  lemma SpendCallCommits(interface: Interface, coin: Coin, crypto: Crypto, tx: Tx, p: Payment, secret: Bytes,
                         me: Address)
    requires HasWidths(p) && tx.data == PaymentCall(coin, p) && CanSettle(interface, coin, SPEND, p.reward.Some?)
    requires |secret| <= SECRET_WIDTH
    ensures var call := SpendCall(interface, coin, tx, secret, me, p.reward.Some?, Sent);
            var secretHash := DoubleHash(crypto, Padded(secret, SECRET_WIDTH));
            && call.Ok?
            && SpendCommitment(crypto, call.value, me)
               == Some(PaymentCommitment(coin, tx, p).(receiver := me, secretHash := secretHash))
  {
    SpendCallOf(interface, coin, tx, p, secret, me);
    var call := SpendCall(interface, coin, tx, secret, me, p.reward.Some?, Sent).value;
    if p.reward.Some? {
      assert |call.name| == |SPEND| + 6;
      assert |call.tokens| == 9 && RewardAt(call.tokens, 6) == p.reward;
    } else {
      assert |call.tokens| == 5;
    }
  }

  /**
   A secret that fits is spent with; it yields the payment's commitment exactly when the caller is the receiver and
   knows the secret.
   */
  lemma SpendAgreesIff(interface: Interface, coin: Coin, crypto: Crypto, tx: Tx, p: Payment, secret: Bytes, me: Address)
    requires HasWidths(p) && tx.data == PaymentCall(coin, p) && CanSettle(interface, coin, SPEND, p.reward.Some?)
    ensures var call := SpendCall(interface, coin, tx, secret, me, p.reward.Some?, Sent);
            && (call.Ok? <==> |secret| <= SECRET_WIDTH)
            && (call.Ok? ==>
                  (SpendCommitment(crypto, call.value, me) == Some(PaymentCommitment(coin, tx, p))
                   <==> me == p.receiver && DoubleHash(crypto, Padded(secret, SECRET_WIDTH)) == p.secretHash))
  {
    PaymentCallIff(coin, tx.data, p);
    if |secret| <= SECRET_WIDTH {
      SpendCallCommits(interface, coin, crypto, tx, p, secret, me);
    }
  }

  /** The refund call rebuilds the commitment with its caller as sender, so it agrees exactly when that is who paid. */
  lemma RefundAgreesIff(interface: Interface, coin: Coin, tx: Tx, p: Payment, me: Address)
    requires HasWidths(p) && tx.data == PaymentCall(coin, p) && CanSettle(interface, coin, REFUND, p.reward.Some?)
    ensures var call := RefundCall(interface, coin, tx, me, p.reward.Some?, Sent);
            && call.Ok?
            && (RefundCommitment(call.value, me) == Some(PaymentCommitment(coin, tx, p)) <==> me == tx.from)
  {
    RefundCallOf(interface, coin, tx, p, me);
    var call := RefundCall(interface, coin, tx, me, p.reward.Some?, Sent).value;
    if p.reward.Some? {
      assert |call.name| == |REFUND| + 6;
      assert |call.tokens| == 9 && RewardAt(call.tokens, 6) == p.reward;
    } else {
      assert |call.tokens| == 5;
    }
    assert RefundCommitment(call, me) == Some(PaymentCommitment(coin, tx, p).(sender := me));
  }

  // ---------- settlement on the contract ----------

  /** A fresh payment can be spent by its receiver with the secret, and refunded by its sender from the time lock on. */
  lemma PaymentCanBeSettled(interface: Interface, contract: SwapContract, coin: Coin, crypto: Crypto, tx: Tx,
                            p: Payment, secret: Bytes32, now: nat)
    requires p.id !in contract
    requires HasWidths(p) && tx.data == PaymentCall(coin, p) && p.secretHash == DoubleHash(crypto, secret)
    requires CanSettle(interface, coin, SPEND, p.reward.Some?) && CanSettle(interface, coin, REFUND, p.reward.Some?)
    ensures var paid := Pay(contract, coin, tx, p);
            var spend := SpendCall(interface, coin, tx, secret, p.receiver, p.reward.Some?, StateOf(paid, p.id));
            var refund := RefundCall(interface, coin, tx, tx.from, p.reward.Some?, StateOf(paid, p.id));
            && spend.Ok? && refund.Ok?
            && SpendAccepted(paid, crypto, spend.value, p.receiver)
            && (RefundAccepted(paid, refund.value, tx.from, now) <==> p.timeLock <= now)
  {
    SpendAgreesIff(interface, coin, crypto, tx, p, secret, p.receiver);
    RefundAgreesIff(interface, coin, tx, p, tx.from);
  }

  /** Anything anyone can send to the contract. */
  datatype Action =
    | DoPay(coin: Coin, tx: Tx, payment: Payment)
    | DoSpend(call: Call, caller: Address)
    | DoRefund(call: Call, caller: Address, now: nat)

  ghost function Act(contract: SwapContract, crypto: Crypto, action: Action): SwapContract {
    match action
    case DoPay(coin, tx, p) => Pay(contract, coin, tx, p)
    case DoSpend(call, caller) => Spend(contract, crypto, call, caller)
    case DoRefund(call, caller, now) => Refund(contract, call, caller, now)
  }

  ghost function ActAll(contract: SwapContract, crypto: Crypto, actions: seq<Action>): SwapContract {
    if actions == [] then contract
    else Act(ActAll(contract, crypto, actions[..|actions| - 1]), crypto, actions[|actions| - 1])
  }

  /** The action is a spend or refund of the payment with the id, and goes through. */
  ghost predicate Settles(contract: SwapContract, crypto: Crypto, action: Action, id: Bytes) {
    match action
    case DoPay(_, _, _) => false
    case DoSpend(call, caller) =>
      SpendAccepted(contract, crypto, call, caller) && SpendCommitment(crypto, call, caller).value.id == id
    case DoRefund(call, caller, now) =>
      RefundAccepted(contract, call, caller, now) && RefundCommitment(call, caller).value.id == id
  }

  ghost function Settlements(contract: SwapContract, crypto: Crypto, actions: seq<Action>, id: Bytes): nat {
    if actions == [] then 0
    else
      var init, action := actions[..|actions| - 1], actions[|actions| - 1];
      var before := ActAll(contract, crypto, init);
      Settlements(contract, crypto, init, id) + if Settles(before, crypto, action, id) then 1 else 0
  }

  /**
   A fact about the assumed contract. Over every sequence of payments, spends and refunds by anyone, for any ids: a
   stored payment keeps its commitment and its time lock, and leaves the contract at most once, namely if and only if
   it is no longer waiting.
   */
  lemma {:induction false} PaymentSettlesOnce(contract: SwapContract, crypto: Crypto, actions: seq<Action>, id: Bytes)
    requires StateOf(contract, id) == Sent
    ensures var end := ActAll(contract, crypto, actions);
            && id in end && end[id].commitment == contract[id].commitment && end[id].timeLock == contract[id].timeLock
            && Settlements(contract, crypto, actions, id) == (if end[id].state == Sent then 0 else 1)
            && end[id].state in {Sent, Spent, Refunded}
  {
    if actions != [] {
      PaymentSettlesOnce(contract, crypto, actions[..|actions| - 1], id);
    }
  }

  /**
   Likewise, only a call that presents the stored commitment settles: a spend reveals the secret, a refund waits for
   the time lock.
   */
  lemma SettlementPresentsCommitment(contract: SwapContract, crypto: Crypto, action: Action, id: Bytes)
    requires Settles(contract, crypto, action, id)
    ensures id in contract && contract[id].state == Sent
    ensures action.DoSpend? ==>
              && SpendCommitment(crypto, action.call, action.caller) == Some(contract[id].commitment)
              && action.call.tokens[2].FixedBytes?
              && DoubleHash(crypto, action.call.tokens[2].bytes) == contract[id].commitment.secretHash
              && (contract[id].commitment.reward.None? ==> action.caller == contract[id].commitment.receiver)
    ensures action.DoRefund? ==>
              && RefundCommitment(action.call, action.caller) == Some(contract[id].commitment)
              && contract[id].timeLock <= action.now
              && (contract[id].commitment.reward.None? ==> action.caller == contract[id].commitment.sender)
  {
  }

  /**
   A payment that validation accepts can be collected: if the contract holds what the transaction committed
   to, the validator's own spend call goes through as soon as it has the secret, and for ETH the amount
   it spends is at least the agreed one.
   */
  lemma ValidatedPaymentIsSpendable(interface: Interface, contract: SwapContract, coin: Coin, crypto: Crypto,
                                    me: Address, expected: Expected, tx: Tx, amount: nat, units: nat, secret: Bytes32)
    requires IsAgreedPayment(coin, crypto, me, expected, tx, amount, units)
    requires CanSettle(interface, coin, SPEND, expected.reward.Some?)
    requires EncodedSecretHash(crypto, expected.secretHash) == DoubleHash(crypto, secret)
    requires var p := AgreedArguments(coin, crypto, me, expected, amount, units);
             p.id in contract && contract[p.id] == Stored(PaymentCommitment(coin, tx, p), p.timeLock, Sent)
    ensures var call := SpendCall(interface, coin, tx, secret, me, expected.reward.Some?, Sent);
            && call.Ok? && SpendAccepted(contract, crypto, call.value, me)
            && SpendCommitment(crypto, call.value, me).value.sender == expected.sender
            && var trade := ToUnits(expected.amount, coin.decimals).value;
            && (coin.Eth? || expected.reward.Some? ==> SpendCommitment(crypto, call.value, me).value.amount >= trade)
  {
    SpendAgreesIff(interface, coin, crypto, tx, AgreedArguments(coin, crypto, me, expected, amount, units), secret, me);
  }

  /**
   Without a watcher reward an ERC20 payment of any amount is agreed: the payment with its amount replaced stays valid.
   */
  lemma AnyAmountIsAccepted(coin: Coin, crypto: Crypto, me: Address, expected: Expected, tx: Tx, amount: nat,
                            units: nat, other: nat)
    requires coin.Erc20? && expected.reward.None?
    requires IsAgreedPayment(coin, crypto, me, expected, tx, amount, units)
    ensures var p := AgreedArguments(coin, crypto, me, expected, other, units);
            && IsAgreedPayment(coin, crypto, me, expected, tx.(data := PaymentCall(coin, p)), other, units)
            && PaymentCommitment(coin, tx.(data := PaymentCall(coin, p)), p).amount == other
  {
  }

  /** The terms guarantee that every valid payment commits at least the agreed amount. */
  ghost predicate AmountIsGuaranteed(coin: Coin, crypto: Crypto, me: Address, expected: Expected)
    requires expected.timeLock < 0x1_0000_0000 && ToUnits(expected.amount, coin.decimals).Some?
  {
    forall tx: Tx, amount: nat, units: nat :: IsAgreedPayment(coin, crypto, me, expected, tx, amount, units) ==>
      PaymentCommitment(coin, tx, AgreedArguments(coin, crypto, me, expected, amount, units)).amount
        >= ToUnits(expected.amount, coin.decimals).value
  }

  /**
   They do for ETH, with a watcher reward, when nothing is due, and for terms that no payment meets; never for an
   ERC20 payment without a reward.
   */
  lemma AmountIsGuaranteedIff(coin: Coin, crypto: Crypto, me: Address, expected: Expected)
    requires expected.timeLock < 0x1_0000_0000 && ToUnits(expected.amount, coin.decimals).Some?
    ensures AmountIsGuaranteed(coin, crypto, me, expected)
       <==> || coin.Eth? || expected.reward.Some? || ToUnits(expected.amount, coin.decimals).value == 0
            || |EncodedSecretHash(crypto, expected.secretHash)| != SECRET_HASH_WIDTH
  {
    if coin.Erc20? && expected.reward.None? && |EncodedSecretHash(crypto, expected.secretHash)| == SECRET_HASH_WIDTH {
      var call := PaymentCall(coin, AgreedArguments(coin, crypto, me, expected, 0, 0));
      var none := Tx(expected.sender, expected.contract, 0, call);
      assert IsAgreedPayment(coin, crypto, me, expected, none, 0, 0);
    }
  }
}
