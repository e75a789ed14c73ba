/**
 Hashed-time-locked payments of the legacy ETH and ERC20 swap: building the payment and validating
 the other side's payment. Spending and refunding it, and the contract itself, are in `HtlcSettlement`.

 Contract calls are lists of tokens, in the widths of the contract's interface: ids have 32 bytes, secret hashes 20.
 Hash functions and the contract interface are parameters.
 */
module HtlcPayment {
  import opened Common

  newtype byte = x: int | 0 <= x < 0x100

  type Bytes = seq<byte>

  type Address = nat

  const ZERO_ADDRESS: Address := 0

  const ETH_DECIMALS: nat := 18

  datatype Token = FixedBytes(bytes: Bytes) | Addr(address: Address) | Uint(amount: nat) | Bool(flag: bool)

  const ID_WIDTH: nat := 32

  const SECRET_HASH_WIDTH: nat := 20

  type Bytes32 = b: Bytes | |b| == 32 witness seq(32, _ => 0)

  type Bytes20 = b: Bytes | |b| == 20 witness seq(20, _ => 0)

  datatype Crypto = Crypto(sha256: Bytes -> Bytes32, ripemd160: Bytes -> Bytes20)

  /** Fixed bytes are filled up with zeros when they are encoded. */
  function Padded(bytes: Bytes, width: nat): (r: Bytes)
    requires |bytes| <= width
    ensures |r| == width && bytes <= r
    ensures forall i :: |bytes| <= i < width ==> r[i] == 0
    ensures |bytes| == width ==> r == bytes
  {
    bytes + seq(width - |bytes|, _ => 0)
  }

  datatype RewardTarget = NoTarget | Contract | PaymentSender | PaymentSpender | PaymentReceiver {
    function AsU8(): nat {
      match this
      case NoTarget => 0
      case Contract => 1
      case PaymentSender => 2
      case PaymentSpender => 3
      case PaymentReceiver => 4
    }
  }

  datatype WatcherReward = WatcherReward(amount: real, isExact: bool, target: RewardTarget, sendOnSpend: bool)

  datatype Coin = Eth(decimals: nat) | Erc20(decimals: nat, token: Address)

  datatype Call = Call(name: string, tokens: seq<Token>)

  datatype Tx = Tx(from: Address, to: Address, value: nat, data: Call)

  datatype PaymentState = Uninitialized | Sent | Spent | Refunded

  // ---------- amounts ----------

  function Pow10(n: nat): nat
    ensures Pow10(n) > 0
  {
    if n == 0 then 1 else 10 * Pow10(n - 1)
  }

  /** An amount in units, before it is cut off. */
  function Scaled(amount: real, decimals: nat): real {
    amount * Pow10(decimals) as real
  }

  const U256_LIMIT: int := 0x1_0000_0000_0000_0000_0000_0000_0000_0000_0000_0000_0000_0000_0000_0000_0000_0000

  const U64_LIMIT: int := 0x1_0000_0000_0000_0000

  /** Whole units of an amount: cut off, never rounded up. A negative or too large amount cannot be converted. */
  function ToUnits(amount: real, decimals: nat): (units: Option<nat>)
    ensures units.Some? <==> amount >= 0.0 && Scaled(amount, decimals) < U256_LIMIT as real
    ensures units.Some? ==> units.value as real <= Scaled(amount, decimals) < units.value as real + 1.0
  {
    var scaled := Scaled(amount, decimals);
    if amount < 0.0 then None
    else
      assert scaled >= 0.0;
      if scaled.Floor >= U256_LIMIT then None else Some(scaled.Floor)
  }

  /** One more decimal is the same as ten times the amount: the decimal point is shifted. */
  lemma DecimalShift(amount: real, decimals: nat)
    ensures ToUnits(amount, decimals + 1) == ToUnits(10.0 * amount, decimals)
  {
    TenTimes(amount, Pow10(decimals) as real);
    assert Pow10(decimals + 1) as real == 10.0 * Pow10(decimals) as real;
    assert Scaled(amount, decimals + 1) == Scaled(10.0 * amount, decimals);
  }

  lemma TenTimes(amount: real, scale: real)
    ensures amount * (10.0 * scale) == (10.0 * amount) * scale
  {
  }

  /** Without decimals an amount is cut off at the point; what does not fit 256 bits cannot be converted. */
  lemma WholeUnits(amount: real)
    ensures ToUnits(amount, 0)
         == if 0.0 <= amount < 115792089237316195423570985008687907853269984665640564039457584007913129639936.0
            then Some(amount.Floor) else None
  {
    assert Scaled(amount, 0) == amount;
  }

  /** Decimals of the asset a reward is paid in; `None` when nothing is paid. */
  function RewardDecimals(coin: Coin, reward: WatcherReward): Option<nat> {
    match coin
    case Eth(decimals) => Some(decimals)
    case Erc20(decimals, _) =>
      match reward.target
      case Contract => Some(ETH_DECIMALS)
      case PaymentSender => Some(ETH_DECIMALS)
      case PaymentSpender => Some(decimals)
      case _ => if reward.sendOnSpend then Some(ETH_DECIMALS) else None
  }

  /** What a reward of the given amount is worth in units of the asset it is paid in. */
  function RewardUnits(coin: Coin, reward: WatcherReward, amount: real): Option<nat> {
    match RewardDecimals(coin, reward)
    case None => Some(0)
    case Some(decimals) => ToUnits(amount, decimals)
  }

  const REWARD_OVERPAY_FACTOR: real := 1.5

  /** 90 percent of a reward, cut off to whole units. */
  function RewardLowerBoundary(reward: nat): nat {
    reward * 9 / 10
  }

  predicate RewardIsAcceptable(expected: nat, actual: nat, isExact: bool) {
    if isExact then actual == expected else actual >= RewardLowerBoundary(expected)
  }

  // ---------- the payment and its call ----------

  datatype RewardArgs = RewardArgs(target: nat, sendOnSpend: bool, amount: nat)

  /** The arguments of a payment call. `amount` is an argument of ERC20 payments only. */
  datatype Payment = Payment(
    id: Bytes,
    receiver: Address,
    secretHash: Bytes,
    timeLock: nat,
    amount: nat,
    reward: Option<RewardArgs>)

  function GetFunctionName(name: string, watcherReward: bool): string {
    if watcherReward then name + "Reward" else name
  }

  function PaymentName(coin: Coin): string {
    if coin.Eth? then "ethPayment" else "erc20Payment"
  }

  /** Names of the functions in the contract interface that is loaded; a name outside it cannot be called. */
  type Interface = set<string>

  /** The shipped interface has no functions for watcher rewards. */
  const SHIPPED_INTERFACE: Interface := {"ethPayment", "erc20Payment", "receiverSpend", "senderRefund", "payments"}

  predicate CanPay(interface: Interface, coin: Coin, watcherReward: bool) {
    GetFunctionName(PaymentName(coin), watcherReward) in interface
  }

  /** With the shipped interface exactly the payments without a watcher reward can be built and validated. */
  lemma ShippedInterfaceCanPayIff(coin: Coin, watcherReward: bool)
    ensures CanPay(SHIPPED_INTERFACE, coin, watcherReward) <==> !watcherReward
  {
    if watcherReward {
      assert |GetFunctionName(PaymentName(coin), true)| >= 16;
      assert forall name :: name in SHIPPED_INTERFACE ==> |name| < 16;
    }
  }

  function RewardTokens(reward: Option<RewardArgs>): seq<Token> {
    match reward
    case None => []
    case Some(RewardArgs(target, sendOnSpend, amount)) => [Uint(target), Bool(sendOnSpend), Uint(amount)]
  }

  function PaymentCall(coin: Coin, p: Payment): Call {
    var own := match coin
      case Eth(_) => [FixedBytes(p.id), Addr(p.receiver), FixedBytes(p.secretHash), Uint(p.timeLock)]
      case Erc20(_, token) =>
        [FixedBytes(p.id), Uint(p.amount), Addr(token), Addr(p.receiver), FixedBytes(p.secretHash), Uint(p.timeLock)];
    Call(GetFunctionName(PaymentName(coin), p.reward.Some?), own + RewardTokens(p.reward))
  }

  /** The arguments have the widths of the contract's interface. */
  predicate HasWidths(p: Payment) {
    |p.id| == ID_WIDTH && |p.secretHash| == SECRET_HASH_WIDTH
  }

  predicate IsFixedBytes(token: Token, width: nat) {
    token.FixedBytes? && |token.bytes| == width
  }

  /** The token types in the contract's interface. */
  predicate MatchesAbi(coin: Coin, watcherReward: bool, tokens: seq<Token>) {
    var own := if coin.Eth? then 4 else 6;
    && |tokens| == own + (if watcherReward then 3 else 0)
    && IsFixedBytes(tokens[0], ID_WIDTH)
    && (if coin.Eth? then tokens[1].Addr? else tokens[1].Uint? && tokens[2].Addr? && tokens[3].Addr?)
    && IsFixedBytes(tokens[own - 2], SECRET_HASH_WIDTH) && tokens[own - 1].Uint?
    && (watcherReward ==> tokens[own].Uint? && tokens[own + 1].Bool? && tokens[own + 2].Uint?)
  }

  function Decode(coin: Coin, watcherReward: bool, data: Call): (tokens: Option<seq<Token>>)
    ensures tokens.Some? ==> MatchesAbi(coin, watcherReward, tokens.value)
  {
    if data.name == GetFunctionName(PaymentName(coin), watcherReward) && MatchesAbi(coin, watcherReward, data.tokens)
    then Some(data.tokens) else None
  }

  // ---------- identifiers and hashes ----------

  function U32LittleEndian(n: nat): Bytes
    requires n < 0x1_0000_0000
  {
    [(n % 0x100) as byte, (n / 0x100 % 0x100) as byte, (n / 0x1_0000 % 0x100) as byte, (n / 0x100_0000) as byte]
  }

  function SwapId(crypto: Crypto, timeLock: nat, secretHash: Bytes): (id: Bytes)
    requires timeLock < 0x1_0000_0000
    ensures |id| == ID_WIDTH
  {
    crypto.sha256(U32LittleEndian(timeLock) + secretHash)
  }

  /** A 32-byte negotiated hash is hashed once more; any other is used as it is. */
  function EncodedSecretHash(crypto: Crypto, negotiated: Bytes): Bytes {
    if |negotiated| == 32 then crypto.ripemd160(negotiated) else negotiated
  }

  // ---------- sending ----------

  datatype SendArgs = SendArgs(
    receiver: Address, contract: Address, timeLock: nat, secretHash: Bytes, amount: real, reward: Option<WatcherReward>)

  datatype PaymentError = TimeLockOverflow | NumberConversion | NoSuchFunction | NotEncodable

  /** Whether the sender adds the reward to the ETH it attaches. */
  predicate SenderAddsToValue(coin: Coin, reward: WatcherReward) {
    match coin
    case Eth(_) => !reward.target.NoTarget? || reward.sendOnSpend
    case Erc20(_, _) =>
      reward.target.Contract? || reward.target.PaymentSender? || (!reward.target.PaymentSpender? && reward.sendOnSpend)
  }

  /** Whether the reward is part of the token amount. */
  predicate AddsToAmount(coin: Coin, reward: WatcherReward) {
    coin.Erc20? && reward.target.PaymentSpender?
  }

  /** A longer hash cannot be encoded, a shorter one is filled up. */
  predicate HashFits(crypto: Crypto, negotiated: Bytes) {
    |EncodedSecretHash(crypto, negotiated)| <= SECRET_HASH_WIDTH
  }

  /** What an honest sender puts on the chain, with `rewardUnits` for the reward if there is one. */
  ghost function HonestTx(coin: Coin, crypto: Crypto, me: Address, args: SendArgs, tradeAmount: nat,
                          rewardUnits: nat): Tx
    requires args.timeLock < 0x1_0000_0000 && HashFits(crypto, args.secretHash)
  {
    var inValue := args.reward.Some? && SenderAddsToValue(coin, args.reward.value);
    var inAmount := args.reward.Some? && AddsToAmount(coin, args.reward.value);
    Tx(me, args.contract,
       (if coin.Eth? then tradeAmount else 0) + (if inValue then rewardUnits else 0),
       PaymentCall(coin, Payment(
         SwapId(crypto, args.timeLock, args.secretHash),
         args.receiver,
         Padded(EncodedSecretHash(crypto, args.secretHash), SECRET_HASH_WIDTH),
         args.timeLock,
         tradeAmount + (if inAmount then rewardUnits else 0),
         if args.reward.None? then None
         else Some(RewardArgs(args.reward.value.target.AsU8(), args.reward.value.sendOnSpend, rewardUnits)))))
  }

  ghost function SenderUnits(coin: Coin, reward: Option<WatcherReward>): Option<nat> {
    if reward.None? then Some(0) else RewardUnits(coin, reward.value, reward.value.amount * REWARD_OVERPAY_FACTOR)
  }

  method SendHashTimeLockedPayment(interface: Interface, coin: Coin, crypto: Crypto, me: Address, args: SendArgs)
    returns (r: Result<Tx, PaymentError>)
    ensures var trade, units := ToUnits(args.amount, coin.decimals), SenderUnits(coin, args.reward);
            r == if args.timeLock >= 0x1_0000_0000 then Err(TimeLockOverflow)
                 else if trade.None? then Err(NumberConversion)
                 else if !CanPay(interface, coin, args.reward.Some?) then Err(NoSuchFunction)
                 else if units.None? then Err(NumberConversion)
                 else if !HashFits(crypto, args.secretHash) then Err(NotEncodable)
                 else Ok(HonestTx(coin, crypto, me, args, trade.value, units.value))
  {
    if args.timeLock >= 0x1_0000_0000 {
      return Err(TimeLockOverflow);
    }
    var id := SwapId(crypto, args.timeLock, args.secretHash);
    var trade := ToUnits(args.amount, coin.decimals);
    if trade.None? {
      return Err(NumberConversion);
    }
    var secretHash := if |args.secretHash| == 32 then crypto.ripemd160(args.secretHash) else args.secretHash;
    var own: seq<Token>;
    var value := if coin.Eth? then trade.value else 0;
    var amount := trade.value;
    var name := GetFunctionName(PaymentName(coin), args.reward.Some?);
    if name !in interface {
      return Err(NoSuchFunction);
    }
    var rewardTokens: seq<Token> := [];
    if args.reward.Some? {
      var reward := args.reward.value;
      var added := AddReward(coin, reward, value, amount);
      if added.None? {
        return Err(NumberConversion);
      }
      var (newValue, newAmount, units) := added.value;
      value, amount := newValue, newAmount;
      rewardTokens := [Uint(reward.target.AsU8()), Bool(reward.sendOnSpend), Uint(units)];
    }
    if |secretHash| > SECRET_HASH_WIDTH {
      return Err(NotEncodable);
    }
    var hashToken := FixedBytes(Padded(secretHash, SECRET_HASH_WIDTH));
    match coin {
      case Eth(_) =>
        own := [FixedBytes(id), Addr(args.receiver), hashToken, Uint(args.timeLock)];
      case Erc20(_, token) =>
        own := [FixedBytes(id), Uint(amount), Addr(token), Addr(args.receiver), hashToken, Uint(args.timeLock)];
    }
    r := Ok(Tx(me, args.contract, value, Call(name, own + rewardTokens)));
  }

  /** Overpays the reward, and adds it to the value or the token amount, depending on who it is for. */
  method AddReward(coin: Coin, reward: WatcherReward, value: nat, amount: nat) returns (r: Option<(nat, nat, nat)>)
    ensures r.Some? <==> SenderUnits(coin, Some(reward)).Some?
    ensures r.Some? ==>
              var units := SenderUnits(coin, Some(reward)).value;
              r.value == (value + (if SenderAddsToValue(coin, reward) then units else 0),
                          amount + (if AddsToAmount(coin, reward) then units else 0),
                          units)
  {
    match coin {
      case Eth(decimals) =>
        var units := ToUnits(reward.amount * REWARD_OVERPAY_FACTOR, decimals);
        if units.None? {
          return None;
        }
        var newValue := value;
        if !reward.target.NoTarget? || reward.sendOnSpend {
          newValue := newValue + units.value;
        }
        r := Some((newValue, amount, units.value));
      case Erc20(_, _) =>
        r := AddErc20Reward(coin, reward, value, amount);
    }
  }

  method AddErc20Reward(coin: Coin, reward: WatcherReward, value: nat, amount: nat) returns (r: Option<(nat, nat, nat)>)
    requires coin.Erc20?
    ensures r.Some? <==> SenderUnits(coin, Some(reward)).Some?
    ensures r.Some? ==>
              var units := SenderUnits(coin, Some(reward)).value;
              r.value == (value + (if SenderAddsToValue(coin, reward) then units else 0),
                          amount + (if AddsToAmount(coin, reward) then units else 0),
                          units)
  {
    var withOverpay := reward.amount * REWARD_OVERPAY_FACTOR;
    var units: Option<nat>;
    var newValue, newAmount := value, amount;
    match reward.target {
      case Contract | PaymentSender =>
        units := ToUnits(withOverpay, ETH_DECIMALS);
        newValue := if units.Some? then value + units.value else value;
      case PaymentSpender =>
        units := ToUnits(withOverpay, coin.decimals);
        newAmount := if units.Some? then amount + units.value else amount;
      case _ =>
        if reward.sendOnSpend {
          units := ToUnits(withOverpay, ETH_DECIMALS);
          newValue := if units.Some? then value + units.value else value;
        } else {
          units := Some(0);
        }
    }
    assert units == SenderUnits(coin, Some(reward));
    r := if units.Some? then Some((newValue, newAmount, units.value)) else None;
  }

  // ---------- what is sent, spelled out ----------

  /** Name and tokens of the four payment calls, in the order of the contract's interface. */
  lemma PaymentCallSpelledOut(coin: Coin, p: Payment)
    ensures coin.Eth? && p.reward.None? ==>
              PaymentCall(coin, p) == Call("ethPayment",
                [FixedBytes(p.id), Addr(p.receiver), FixedBytes(p.secretHash), Uint(p.timeLock)])
    ensures coin.Eth? && p.reward.Some? ==>
              PaymentCall(coin, p) == Call("ethPaymentReward",
                [FixedBytes(p.id), Addr(p.receiver), FixedBytes(p.secretHash), Uint(p.timeLock),
                 Uint(p.reward.value.target), Bool(p.reward.value.sendOnSpend), Uint(p.reward.value.amount)])
    ensures coin.Erc20? && p.reward.None? ==>
              PaymentCall(coin, p) == Call("erc20Payment",
                [FixedBytes(p.id), Uint(p.amount), Addr(coin.token), Addr(p.receiver), FixedBytes(p.secretHash),
                 Uint(p.timeLock)])
    ensures coin.Erc20? && p.reward.Some? ==>
              PaymentCall(coin, p) == Call("erc20PaymentReward",
                [FixedBytes(p.id), Uint(p.amount), Addr(coin.token), Addr(p.receiver), FixedBytes(p.secretHash),
                 Uint(p.timeLock),
                 Uint(p.reward.value.target), Bool(p.reward.value.sendOnSpend), Uint(p.reward.value.amount)])
  {
    assert "ethPayment" + "Reward" == "ethPaymentReward" && "erc20Payment" + "Reward" == "erc20PaymentReward";
  }

  /** The id hashes the four bytes of the time lock, lowest first, followed by the negotiated secret hash. */
  lemma SwapIdSpelledOut(crypto: Crypto, timeLock: nat, secretHash: Bytes, b0: byte, b1: byte, b2: byte, b3: byte)
    requires timeLock < 0x1_0000_0000
    requires timeLock == b0 as nat + 256 * b1 as nat + 65536 * b2 as nat + 16777216 * b3 as nat
    ensures SwapId(crypto, timeLock, secretHash) == crypto.sha256([b0, b1, b2, b3] + secretHash)
  {
    var high := b2 as nat + 256 * b3 as nat;
    Digit(timeLock, b0 as nat, b1 as nat + 256 * high);
    Digit(timeLock / 0x100, b1 as nat, high);
    Digit(timeLock / 0x1_0000, b2 as nat, b3 as nat);
  }

  lemma Digit(n: nat, low: nat, rest: nat)
    requires low < 256 && n == low + 256 * rest
    ensures n % 256 == low && n / 256 == rest
  {
  }

  /** The numbers of the reward targets in the contract. */
  lemma TargetNumbers()
    ensures NoTarget.AsU8() == 0 && Contract.AsU8() == 1 && PaymentSender.AsU8() == 2
    ensures PaymentSpender.AsU8() == 3 && PaymentReceiver.AsU8() == 4
  {
  }

  /**
   Where a reward goes. It is paid in ETH with the value, or in tokens with the amount, never both; an ERC20 reward in
   neither counts nothing. The validator looks for it in the same place, except for one ETH target.
   */
  lemma RewardIsPaidOnce(coin: Coin, reward: WatcherReward)
    ensures !(SenderAddsToValue(coin, reward) && AddsToAmount(coin, reward))
    ensures forall amount: real :: RewardUnits(coin, reward, amount)
              == if RewardDecimals(coin, reward).None? then Some(0)
                  else ToUnits(amount, RewardDecimals(coin, reward).value)
    ensures coin.Eth? ==>
              && (SenderAddsToValue(coin, reward) <==> reward.target != NoTarget || reward.sendOnSpend)
              && (ValidatorAddsToValue(coin, reward) <==>
                    reward.sendOnSpend || reward.target in {Contract, PaymentSender, PaymentSpender})
              && RewardDecimals(coin, reward) == Some(coin.decimals)
    ensures coin.Erc20? ==>
              && (SenderAddsToValue(coin, reward) <==>
                    || reward.target in {Contract, PaymentSender}
                    || (reward.target in {NoTarget, PaymentReceiver} && reward.sendOnSpend))
              && (ValidatorAddsToValue(coin, reward) <==> SenderAddsToValue(coin, reward))
              && (AddsToAmount(coin, reward) <==> reward.target == PaymentSpender)
              && RewardDecimals(coin, reward) == if SenderAddsToValue(coin, reward) then Some(18)
                                                 else if AddsToAmount(coin, reward) then Some(coin.decimals) else None
  {
  }

  // ---------- validating ----------

  /** What the validator expects: the counterparty, the negotiated terms, and the reward it computes now. */
  datatype Expected = Expected(
    sender: Address, contract: Address, timeLock: nat, secretHash: Bytes, amount: real, reward: Option<WatcherReward>)

  datatype ValidationError =
    | InvalidTimeLock | InvalidAmount | UnexpectedState | TxDoesNotExist | WrongSender | WrongContract
    | UnknownFunction | NotDecodable
    | WrongArgument(index: nat) | RewardOutOfRange | WrongReward | WrongValue

  /** Whether the validator expects the reward in the attached ETH. */
  predicate ValidatorAddsToValue(coin: Coin, reward: WatcherReward) {
    match coin
    case Eth(_) => if reward.target.NoTarget? || reward.target.PaymentReceiver? then reward.sendOnSpend else true
    case Erc20(_, _) =>
      reward.target.Contract? || reward.target.PaymentSender? || (!reward.target.PaymentSpender? && reward.sendOnSpend)
  }

  /** The reward argument is accepted: both sides fit 64 bits and the paid one is acceptable for the expected one. */
  ghost predicate RewardAccepted(coin: Coin, reward: WatcherReward, actual: nat) {
    var expected := RewardUnits(coin, reward, reward.amount);
    && expected.Some? && expected.value < U64_LIMIT && actual < U64_LIMIT
    && RewardIsAcceptable(expected.value, actual, reward.isExact)
  }

  /** The arguments the agreed terms prescribe, for a given token amount and reward. */
  ghost function AgreedArguments(coin: Coin, crypto: Crypto, me: Address, expected: Expected, amount: nat,
                                 rewardUnits: nat): Payment
    requires expected.timeLock < 0x1_0000_0000
  {
    Payment(SwapId(crypto, expected.timeLock, expected.secretHash),
            me,
            EncodedSecretHash(crypto, expected.secretHash),
            expected.timeLock,
            amount,
            if expected.reward.None? then None
            else Some(RewardArgs(expected.reward.value.target.AsU8(), expected.reward.value.sendOnSpend, rewardUnits)))
  }

  /**
   Reference meaning of a valid payment: it is the very call, with the very value, that the agreed terms
   prescribe, for an accepted reward. A hash of another length prescribes no call. Without a reward the amount of an
   ERC20 payment is not prescribed.
   */
  ghost predicate IsAgreedPayment(coin: Coin, crypto: Crypto, me: Address, expected: Expected, tx: Tx, amount: nat,
                                  rewardUnits: nat) {
    && expected.timeLock < 0x1_0000_0000
    && ToUnits(expected.amount, coin.decimals).Some?
    && |EncodedSecretHash(crypto, expected.secretHash)| == SECRET_HASH_WIDTH
    && tx.from == expected.sender && tx.to == expected.contract
    && tx.data == PaymentCall(coin, AgreedArguments(coin, crypto, me, expected, amount, rewardUnits))
    && var trade := ToUnits(expected.amount, coin.decimals).value;
    var inValue := expected.reward.Some? && ValidatorAddsToValue(coin, expected.reward.value);
    && tx.value == (if coin.Eth? then trade else 0) + (if inValue then rewardUnits else 0)
    && (expected.reward.Some? ==>
          && RewardAccepted(coin, expected.reward.value, rewardUnits)
          && (coin.Erc20? ==> amount == trade + if AddsToAmount(coin, expected.reward.value) then rewardUnits else 0))
  }

  /** What a valid payment is: sender, contract, arguments and value, with the hashes written out. */
  lemma AgreedPaymentSpelledOut(coin: Coin, crypto: Crypto, me: Address, expected: Expected, tx: Tx, amount: nat,
                                units: nat)
    requires IsAgreedPayment(coin, crypto, me, expected, tx, amount, units)
    ensures tx.from == expected.sender && tx.to == expected.contract
    ensures var negotiated := expected.secretHash;
            tx.data == PaymentCall(coin, Payment(
              SwapId(crypto, expected.timeLock, negotiated),
              me,
              if |negotiated| == 32 then crypto.ripemd160(negotiated) else negotiated,
              expected.timeLock,
              amount,
              if expected.reward.None? then None
              else Some(RewardArgs(expected.reward.value.target.AsU8(), expected.reward.value.sendOnSpend, units))))
    ensures var trade := ToUnits(expected.amount, coin.decimals).value;
            && (expected.reward.None? ==> tx.value == if coin.Eth? then trade else 0)
            && (expected.reward.Some? ==>
                  var inValue := ValidatorAddsToValue(coin, expected.reward.value);
                  && tx.value == (if coin.Eth? then trade else 0) + (if inValue then units else 0)
                  && (coin.Erc20? ==>
                       amount == trade + if expected.reward.value.target == PaymentSpender then units else 0)
                  && units < 18446744073709551616)
  {
  }

  /** A call is the call of given arguments exactly when it decodes and every token is in its place. */
  lemma PaymentCallIff(coin: Coin, data: Call, p: Payment)
    requires HasWidths(p)
    ensures data == PaymentCall(coin, p) <==>
              && Decode(coin, p.reward.Some?, data).Some?
              && var t := data.tokens;
              && t[0] == FixedBytes(p.id)
              && (if coin.Eth?
                   then t[1] == Addr(p.receiver) && t[2] == FixedBytes(p.secretHash) && t[3] == Uint(p.timeLock)
                  else t[1] == Uint(p.amount) && t[2] == Addr(coin.token) && t[3] == Addr(p.receiver)
                       && t[4] == FixedBytes(p.secretHash) && t[5] == Uint(p.timeLock))
              && (p.reward.Some? ==>
                    var own := if coin.Eth? then 4 else 6;
                    t[own] == Uint(p.reward.value.target) && t[own + 1] == Bool(p.reward.value.sendOnSpend)
                    && t[own + 2] == Uint(p.reward.value.amount))
  {
    var call := PaymentCall(coin, p);
    var own := if coin.Eth? then 4 else 6;
    assert |call.tokens| == own + if p.reward.Some? then 3 else 0;
    assert p.reward.Some? ==> call.tokens[own..] == RewardTokens(p.reward);
  }

  /** The agreed payment, argument by argument: the amount and the reward can only be the ones in the call. */
  lemma AgreedPaymentIff(coin: Coin, crypto: Crypto, me: Address, expected: Expected, tx: Tx)
    requires expected.timeLock < 0x1_0000_0000 && ToUnits(expected.amount, coin.decimals).Some?
    ensures (exists amount: nat, units: nat :: IsAgreedPayment(coin, crypto, me, expected, tx, amount, units))
       <==> Decode(coin, expected.reward.Some?, tx.data).Some? && ArgumentsAgree(coin, crypto, me, expected, tx)
  {
    forall amount: nat, units: nat | IsAgreedPayment(coin, crypto, me, expected, tx, amount, units)
      ensures Decode(coin, expected.reward.Some?, tx.data).Some? && ArgumentsAgree(coin, crypto, me, expected, tx)
    {
      AgreedArgumentsAgree(coin, crypto, me, expected, tx, amount, units);
    }
    if Decode(coin, expected.reward.Some?, tx.data).Some? && ArgumentsAgree(coin, crypto, me, expected, tx) {
      AgreeingArgumentsAreAgreed(coin, crypto, me, expected, tx);
    }
  }

  lemma AgreedArgumentsAgree(coin: Coin, crypto: Crypto, me: Address, expected: Expected, tx: Tx,
                             amount: nat, units: nat)
    requires IsAgreedPayment(coin, crypto, me, expected, tx, amount, units)
    ensures Decode(coin, expected.reward.Some?, tx.data).Some? && ArgumentsAgree(coin, crypto, me, expected, tx)
  {
    PaymentCallIff(coin, tx.data, AgreedArguments(coin, crypto, me, expected, amount, units));
  }

  lemma AgreeingArgumentsAreAgreed(coin: Coin, crypto: Crypto, me: Address, expected: Expected, tx: Tx)
    requires expected.timeLock < 0x1_0000_0000 && ToUnits(expected.amount, coin.decimals).Some?
    requires Decode(coin, expected.reward.Some?, tx.data).Some? && ArgumentsAgree(coin, crypto, me, expected, tx)
    ensures exists amount: nat, units: nat :: IsAgreedPayment(coin, crypto, me, expected, tx, amount, units)
  {
    var t, own := tx.data.tokens, if coin.Eth? then 4 else 6;
    var amount := if coin.Eth? then 0 else t[1].amount;
    var units := if expected.reward.Some? then t[own + 2].amount else 0;
    PaymentCallIff(coin, tx.data, AgreedArguments(coin, crypto, me, expected, amount, units));
    assert IsAgreedPayment(coin, crypto, me, expected, tx, amount, units);
  }

  ghost predicate ArgumentsAgree(coin: Coin, crypto: Crypto, me: Address, expected: Expected, tx: Tx)
    requires expected.timeLock < 0x1_0000_0000 && ToUnits(expected.amount, coin.decimals).Some?
    requires Decode(coin, expected.reward.Some?, tx.data).Some?
  {
    var t, own := tx.data.tokens, if coin.Eth? then 4 else 6;
    var trade := ToUnits(expected.amount, coin.decimals).value;
    var units := if expected.reward.Some? then t[own + 2].amount else 0;
    && tx.from == expected.sender && tx.to == expected.contract
    && t[0] == FixedBytes(SwapId(crypto, expected.timeLock, expected.secretHash))
    && (coin.Erc20? ==> t[2] == Addr(coin.token))
    && t[own - 3] == Addr(me)
    && t[own - 2] == FixedBytes(EncodedSecretHash(crypto, expected.secretHash))
    && t[own - 1] == Uint(expected.timeLock)
    && tx.value == (if coin.Eth? then trade else 0)
                   + (if expected.reward.Some? && ValidatorAddsToValue(coin, expected.reward.value) then units else 0)
    && (expected.reward.Some? ==>
          var reward := expected.reward.value;
          && t[own] == Uint(reward.target.AsU8()) && t[own + 1] == Bool(reward.sendOnSpend)
          && RewardAccepted(coin, reward, units)
          && (coin.Erc20? ==> t[1] == Uint(trade + if AddsToAmount(coin, reward) then units else 0)))
  }

  /** An error of the argument checks names something that is wrong with the transaction. */
  ghost predicate NamesADefect(error: ValidationError, interface: Interface, coin: Coin, me: Address,
                               expected: Expected, tx: Tx) {
    var decoded := Decode(coin, expected.reward.Some?, tx.data);
    match error
    case WrongContract => tx.to != expected.contract
    case UnknownFunction => !CanPay(interface, coin, expected.reward.Some?)
    case NotDecodable => decoded.None?
    case WrongArgument(i) =>
      && decoded.Some? && i < |decoded.value|
      && (i == (if coin.Eth? then 1 else 3) ==> decoded.value[i] != Addr(me))
      && (i == (if coin.Eth? then 3 else 5) ==> decoded.value[i] != Uint(expected.timeLock))
      && (coin.Erc20? && i == 2 ==> decoded.value[i] != Addr(coin.token))
    case InvalidAmount =>
      expected.reward.Some? && RewardUnits(coin, expected.reward.value, expected.reward.value.amount).None?
    case RewardOutOfRange => decoded.Some? && expected.reward.Some?
    case WrongReward => decoded.Some? && expected.reward.Some?
    case WrongValue => decoded.Some?
    case _ => false
  }

  method CheckEthArguments(interface: Interface, coin: Coin, id: Bytes, me: Address, secretHash: Bytes,
                           expected: Expected, tx: Tx, trade: nat, ghost crypto: Crypto)
    returns (r: Result<(), ValidationError>)
    requires coin.Eth? && expected.timeLock < 0x1_0000_0000 && ToUnits(expected.amount, coin.decimals) == Some(trade)
    requires id == SwapId(crypto, expected.timeLock, expected.secretHash)
        && secretHash == EncodedSecretHash(crypto, expected.secretHash)
    requires tx.from == expected.sender
    ensures r.Ok? <==> && CanPay(interface, coin, expected.reward.Some?)
                       && Decode(coin, expected.reward.Some?, tx.data).Some?
                       && ArgumentsAgree(coin, crypto, me, expected, tx)
    ensures r.Err? ==> NamesADefect(r.error, interface, coin, me, expected, tx)
  {
    var expectedValue := trade;
    if tx.to != expected.contract {
      return Err(WrongContract);
    }
    if GetFunctionName(PaymentName(coin), expected.reward.Some?) !in interface {
      return Err(UnknownFunction);
    }
    var data := Decode(coin, expected.reward.Some?, tx.data);
    if data.None? {
      return Err(NotDecodable);
    }
    var decoded := data.value;
    if decoded[0] != FixedBytes(id) {
      return Err(WrongArgument(0));
    }
    if decoded[1] != Addr(me) {
      return Err(WrongArgument(1));
    }
    if decoded[2] != FixedBytes(secretHash) {
      return Err(WrongArgument(2));
    }
    if decoded[3] != Uint(expected.timeLock) {
      return Err(WrongArgument(3));
    }
    if expected.reward.Some? {
      var reward := expected.reward.value;
      var actual := CheckReward(coin, reward, decoded, 4);
      if actual.Err? {
        return Err(actual.error);
      }
      match reward.target {
        case NoTarget | PaymentReceiver =>
          if reward.sendOnSpend {
            expectedValue := expectedValue + actual.value;
          }
        case _ => expectedValue := expectedValue + actual.value;
      }
    }
    if tx.value != expectedValue {
      return Err(WrongValue);
    }
    r := Ok(());
  }

  /**
   The three reward arguments, from position `own` on; both amounts are narrowed to 64 bits, which aborts for a wider
   one.
   */
  method CheckReward(coin: Coin, reward: WatcherReward, decoded: seq<Token>, own: nat)
    returns (r: Result<nat, ValidationError>)
    requires |decoded| == own + 3 && decoded[own].Uint? && decoded[own + 1].Bool? && decoded[own + 2].Uint?
    ensures r.Ok? <==> && decoded[own] == Uint(reward.target.AsU8()) && decoded[own + 1] == Bool(reward.sendOnSpend)
                       && RewardAccepted(coin, reward, decoded[own + 2].amount)
    ensures r.Ok? ==> r.value == decoded[own + 2].amount
    ensures r.Err? ==>
              match r.error
              case WrongArgument(i) =>
                || (i == own && decoded[own] != Uint(reward.target.AsU8()))
                || (i == own + 1 && decoded[own + 1] != Bool(reward.sendOnSpend))
              case InvalidAmount => RewardUnits(coin, reward, reward.amount).None?
              case RewardOutOfRange =>
                var expected := RewardUnits(coin, reward, reward.amount);
                expected.Some? && (expected.value >= U64_LIMIT || decoded[own + 2].amount >= U64_LIMIT)
              case WrongReward =>
                var expected := RewardUnits(coin, reward, reward.amount);
                expected.Some? && !RewardIsAcceptable(expected.value, decoded[own + 2].amount, reward.isExact)
              case _ => false
  {
    if decoded[own] != Uint(reward.target.AsU8()) {
      return Err(WrongArgument(own));
    }
    if decoded[own + 1] != Bool(reward.sendOnSpend) {
      return Err(WrongArgument(own + 1));
    }
    var expectedUnits := RewardUnits(coin, reward, reward.amount);
    if expectedUnits.None? {
      return Err(InvalidAmount);
    }
    var actual := decoded[own + 2].amount;
    if expectedUnits.value >= U64_LIMIT || actual >= U64_LIMIT {
      return Err(RewardOutOfRange);
    }
    if !RewardIsAcceptable(expectedUnits.value, actual, reward.isExact) {
      return Err(WrongReward);
    }
    r := Ok(actual);
  }

  /** Checks the reward of an ERC20 payment and its token amount, and returns what is to be attached in ETH. */
  method CheckErc20Reward(coin: Coin, reward: WatcherReward, decoded: seq<Token>, trade: nat)
    returns (r: Result<nat, ValidationError>)
    requires coin.Erc20? && MatchesAbi(coin, true, decoded)
    ensures var units := decoded[8].amount;
            && (r.Ok? <==> && decoded[6] == Uint(reward.target.AsU8()) && decoded[7] == Bool(reward.sendOnSpend)
                           && RewardAccepted(coin, reward, units)
                           && decoded[1] == Uint(trade + if AddsToAmount(coin, reward) then units else 0))
            && (r.Ok? ==> r.value == if ValidatorAddsToValue(coin, reward) then units else 0)
    ensures r.Err? ==>
              match r.error
              case WrongArgument(i) => i in {1, 6, 7}
              case InvalidAmount => RewardUnits(coin, reward, reward.amount).None?
              case RewardOutOfRange => true
              case WrongReward => true
              case _ => false
  {
    var expectedValue, expectedAmount := 0, trade;
    var actual := CheckReward(coin, reward, decoded, 6);
    if actual.Err? {
      return Err(actual.error);
    }
    match reward.target {
      case PaymentSender | Contract => expectedValue := expectedValue + actual.value;
      case PaymentSpender => expectedAmount := expectedAmount + actual.value;
      case _ =>
        if reward.sendOnSpend {
          expectedValue := expectedValue + actual.value;
        }
    }
    if decoded[1] != Uint(expectedAmount) {
      return Err(WrongArgument(1));
    }
    r := Ok(expectedValue);
  }

  method CheckErc20Arguments(interface: Interface, coin: Coin, id: Bytes, me: Address, secretHash: Bytes,
                             expected: Expected, tx: Tx, trade: nat, ghost crypto: Crypto)
    returns (r: Result<(), ValidationError>)
    requires coin.Erc20? && expected.timeLock < 0x1_0000_0000 && ToUnits(expected.amount, coin.decimals) == Some(trade)
    requires id == SwapId(crypto, expected.timeLock, expected.secretHash)
        && secretHash == EncodedSecretHash(crypto, expected.secretHash)
    requires tx.from == expected.sender
    ensures r.Ok? <==> && CanPay(interface, coin, expected.reward.Some?)
                       && Decode(coin, expected.reward.Some?, tx.data).Some?
                       && ArgumentsAgree(coin, crypto, me, expected, tx)
    ensures r.Err? ==> NamesADefect(r.error, interface, coin, me, expected, tx)
  {
    var expectedValue := 0;
    if tx.to != expected.contract {
      return Err(WrongContract);
    }
    if GetFunctionName(PaymentName(coin), expected.reward.Some?) !in interface {
      return Err(UnknownFunction);
    }
    var data := Decode(coin, expected.reward.Some?, tx.data);
    if data.None? {
      return Err(NotDecodable);
    }
    var decoded := data.value;
    if decoded[0] != FixedBytes(id) {
      return Err(WrongArgument(0));
    }
    if decoded[2] != Addr(coin.token) {
      return Err(WrongArgument(2));
    }
    if decoded[3] != Addr(me) {
      return Err(WrongArgument(3));
    }
    if decoded[4] != FixedBytes(secretHash) {
      return Err(WrongArgument(4));
    }
    if decoded[5] != Uint(expected.timeLock) {
      return Err(WrongArgument(5));
    }
    if expected.reward.Some? {
      var reward := expected.reward.value;
      var checked := CheckErc20Reward(coin, reward, decoded, trade);
      if checked.Err? {
        return Err(checked.error);
      }
      expectedValue := checked.value;
    }
    if tx.value != expectedValue {
      return Err(WrongValue);
    }
    r := Ok(());
  }

  method ValidatePayment(interface: Interface, coin: Coin, crypto: Crypto, me: Address, expected: Expected,
                         state: PaymentState, fromRpc: Option<Tx>)
    returns (r: Result<(), ValidationError>)
    ensures r.Ok? <==> state == Sent && fromRpc.Some? && CanPay(interface, coin, expected.reward.Some?)
                       && exists amount: nat, units: nat ::
                            IsAgreedPayment(coin, crypto, me, expected, fromRpc.value, amount, units)
    ensures r.Err? ==>
              if expected.timeLock >= 0x1_0000_0000 then r.error == InvalidTimeLock
              else if ToUnits(expected.amount, coin.decimals).None? then r.error == InvalidAmount
              else if state != Sent then r.error == UnexpectedState
              else if fromRpc.None? then r.error == TxDoesNotExist
              else if fromRpc.value.from != expected.sender then r.error == WrongSender
              else NamesADefect(r.error, interface, coin, me, expected, fromRpc.value)
  {
    if expected.timeLock >= 0x1_0000_0000 {
      return Err(InvalidTimeLock);
    }
    var id := SwapId(crypto, expected.timeLock, expected.secretHash);
    var negotiated := expected.secretHash;
    var secretHash := if |negotiated| == 32 then crypto.ripemd160(negotiated) else negotiated;
    var trade := ToUnits(expected.amount, coin.decimals);
    if trade.None? {
      return Err(InvalidAmount);
    }
    if state != Sent {
      return Err(UnexpectedState);
    }
    if fromRpc.None? {
      return Err(TxDoesNotExist);
    }
    if fromRpc.value.from != expected.sender {
      return Err(WrongSender);
    }
    AgreedPaymentIff(coin, crypto, me, expected, fromRpc.value);
    match coin {
      case Eth(_) =>
        r := CheckEthArguments(interface, coin, id, me, secretHash, expected, fromRpc.value, trade.value, crypto);
      case Erc20(_, _) =>
        r := CheckErc20Arguments(interface, coin, id, me, secretHash, expected, fromRpc.value, trade.value, crypto);
    }
  }
}
