/**
 Address discovery of an HD wallet (BIP-44, section "Address gap limit").

 `QuietFrom`, `FirstQuiet` and `Listing` say what a scan should find. They are
 independent of the loop: the new known count is the least id at or after the old
 one from which a whole window of `gap limit + 1` ids (cut at the address limit) is unused.
 `ScanForNewAddresses` is the loop of the wallet, in 32-bit arithmetic.
 */
module HdScan {
  import opened Common

  datatype Chain = External | Internal

  datatype CoinBalance = CoinBalance(spendable: real, unspendable: real)

  type BalanceMap = map<string, CoinBalance>

  /** What a probe of one address reports; `Unreachable` is a failed derivation or request. */
  datatype Status = Used(balance: BalanceMap) | NotUsed | Unreachable

  /** The environment's answer for every address id of the scanned chain. */
  type Oracle = nat -> Status

  datatype AddressBalance = AddressBalance(chain: Chain, id: nat, balance: BalanceMap)

  datatype WalletError = BalanceRequestFailed | AddressLimitReached | StorageFailed

  // ---------- specification ----------

  ghost predicate QuietFrom(oracle: Oracle, k: nat, gap: nat, limit: nat) {
    forall id: nat :: k <= id <= k + gap && id < limit ==> oracle(id) == NotUsed
  }

  ghost function FirstQuiet(oracle: Oracle, start: nat, gap: nat, limit: nat): (k: nat)
    requires start <= limit
    ensures start <= k <= limit
    ensures QuietFrom(oracle, k, gap, limit)
    ensures forall j: nat :: start <= j < k ==> !QuietFrom(oracle, j, gap, limit)
    decreases limit - start
  {
    if QuietFrom(oracle, start, gap, limit) then start else FirstQuiet(oracle, start + 1, gap, limit)
  }

  /** A used address carries its balance, an unused one the empty balance. */
  function BalanceOf(status: Status): (balance: BalanceMap)
    ensures status.Used? ==> balance == status.balance
    ensures !status.Used? ==> balance == map[]
  {
    if status.Used? then status.balance else map[]
  }

  ghost predicate CarriesBalance(entry: AddressBalance, status: Status) {
    if status.Used? then entry.balance == status.balance else entry.balance == map[]
  }

  /** Ids `from..to` in ascending order, each with the balance its probe reported. */
  function Listing(oracle: Oracle, chain: Chain, from: nat, to: nat): (entries: seq<AddressBalance>)
    requires from <= to
    ensures |entries| == to - from
    ensures forall i :: 0 <= i < |entries| ==>
              entries[i] == AddressBalance(chain, from + i, BalanceOf(oracle(from + i)))
  {
    seq(to - from, i requires 0 <= i => AddressBalance(chain, from + i, BalanceOf(oracle(from + i))))
  }

  /** The entries that are filled in for skipped unused addresses. */
  function EmptyEntries(chain: Chain, from: nat, to: nat): seq<AddressBalance>
    requires from <= to
  {
    seq(to - from, i requires 0 <= i => AddressBalance(chain, from + i, map[]))
  }

  lemma ExtendListing(oracle: Oracle, chain: Chain, start: nat, from: nat, used: nat)
    requires start <= from <= used && oracle(used).Used?
    requires forall id: nat :: from <= id < used ==> oracle(id) == NotUsed
    ensures Listing(oracle, chain, start, used + 1)
         == Listing(oracle, chain, start, from) + EmptyEntries(chain, from, used)
            + [AddressBalance(chain, used, oracle(used).balance)]
  {
  }

  ghost predicate AllReachable(oracle: Oracle, from: nat, to: nat) {
    forall id: nat :: from <= id < to ==> oracle(id) != Unreachable
  }

  /**
   The outcome of a scan: the error it reports, or the new known count. `stores` says which counts the storage accepts.
   */
  ghost function ScanOutcome(oracle: Oracle, start: nat, gap: nat, limit: nat,
                             stores: nat -> bool): Result<nat, WalletError> {
    if limit <= start then
      Err(AddressLimitReached)
    else
      var k := FirstQuiet(oracle, start, gap, limit);
      if !AllReachable(oracle, start, k) then Err(BalanceRequestFailed)
      else if k == limit then Err(AddressLimitReached)
      else if !stores(k) then Err(StorageFailed)
      else Ok(k)
  }

  // ---------- the progress of a scan ----------

  /**
   Ids `start..checking` have been probed. From `firstEmpty` on they are unused, and no earlier id begins a quiet
   window.
   */
  ghost predicate Progress(oracle: Oracle, start: nat, gap: nat, limit: nat, firstEmpty: nat, checking: nat) {
    && start <= firstEmpty <= checking <= firstEmpty + gap + 1
    && AllReachable(oracle, start, checking)
    && (forall id: nat :: firstEmpty <= id < checking ==> oracle(id) == NotUsed)
    && (forall j: nat :: start <= j < firstEmpty ==> !QuietFrom(oracle, j, gap, limit))
  }

  lemma NotQuietUpTo(oracle: Oracle, start: nat, gap: nat, limit: nat, firstEmpty: nat, checking: nat)
    requires Progress(oracle, start, gap, limit, firstEmpty, checking)
    requires checking < limit && checking <= firstEmpty + gap && oracle(checking) != NotUsed
    ensures forall j: nat :: start <= j <= checking ==> !QuietFrom(oracle, j, gap, limit)
  {
  }

  lemma UsedAdvances(oracle: Oracle, start: nat, gap: nat, limit: nat, firstEmpty: nat, checking: nat)
    requires Progress(oracle, start, gap, limit, firstEmpty, checking)
    requires checking < limit && checking <= firstEmpty + gap && oracle(checking).Used?
    ensures Progress(oracle, start, gap, limit, checking + 1, checking + 1)
  {
    NotQuietUpTo(oracle, start, gap, limit, firstEmpty, checking);
  }

  lemma UnreachableFails(oracle: Oracle, start: nat, gap: nat, limit: nat, firstEmpty: nat, checking: nat,
                         stores: nat -> bool)
    requires Progress(oracle, start, gap, limit, firstEmpty, checking)
    requires checking < limit && checking <= firstEmpty + gap && oracle(checking) == Unreachable
    ensures ScanOutcome(oracle, start, gap, limit, stores) == Err(BalanceRequestFailed)
  {
    NotQuietUpTo(oracle, start, gap, limit, firstEmpty, checking);
    assert checking < FirstQuiet(oracle, start, gap, limit);
  }

  /** At the end of the loop: what setting the count to the first id of the unused run leads to. */
  lemma CommitIsOutcome(oracle: Oracle, start: nat, gap: nat, limit: nat, firstEmpty: nat, checking: nat,
                        stores: nat -> bool)
    requires start < limit ==> Progress(oracle, start, gap, limit, firstEmpty, checking)
    requires start < limit ==> (checking == limit || checking == firstEmpty + gap + 1) && checking <= limit
    requires limit <= start ==> firstEmpty == start
    ensures ScanOutcome(oracle, start, gap, limit, stores)
         == if limit <= firstEmpty then Err(AddressLimitReached)
            else if stores(firstEmpty) then Ok(firstEmpty) else Err(StorageFailed)
  {
    if start < limit {
      assert QuietFrom(oracle, firstEmpty, gap, limit);
      assert FirstQuiet(oracle, start, gap, limit) == firstEmpty;
    }
  }

  // ---------- the account and the scanning loop ----------

  class HdAccount {
    const addressLimit: u32
    var externalAddressesNumber: u32
    var internalAddressesNumber: u32

    constructor (limit: u32)
      ensures addressLimit == limit
      ensures externalAddressesNumber == 0 && internalAddressesNumber == 0
    {
      addressLimit := limit;
      externalAddressesNumber, internalAddressesNumber := 0, 0;
    }

    function Known(chain: Chain): u32
      reads this
    {
      match chain
      case External => externalAddressesNumber
      case Internal => internalAddressesNumber
    }

    /** Both counts change together or not at all: a refused count leaves the account as it was. */
    method SetKnownAddressesNumber(chain: Chain, count: u32, persisted: bool) returns (r: Result<(), WalletError>)
      modifies this
      ensures r == if addressLimit <= count then Err(AddressLimitReached)
                   else if persisted then Ok(()) else Err(StorageFailed)
      ensures Known(chain) == if r.Ok? then count else old(Known(chain))
      ensures forall other: Chain :: other != chain ==> Known(other) == old(Known(other))
    {
      if addressLimit <= count {
        return Err(AddressLimitReached);
      }
      if !persisted {
        return Err(StorageFailed);
      }
      match chain {
        case External => externalAddressesNumber := count;
        case Internal => internalAddressesNumber := count;
      }
      r := Ok(());
    }
  }

  method ScanForNewAddresses(account: HdAccount, chain: Chain, gapLimit: u32, oracle: Oracle, stores: nat -> bool)
    returns (r: Result<seq<AddressBalance>, WalletError>)
    modifies account
    ensures forall other: Chain :: other != chain ==> account.Known(other) == old(account.Known(other))
    ensures var start := old(account.Known(chain)) as nat;
            match ScanOutcome(oracle, start, gapLimit as nat, account.addressLimit as nat, stores)
            case Err(e) => r == Err(e) && account.Known(chain) as nat == start
            case Ok(k) => account.Known(chain) as nat == k && start <= k && r == Ok(Listing(oracle, chain, start, k))
    ensures r.Ok? ==> forall i :: 0 <= i < |r.value| ==>
              && r.value[i].chain == chain && r.value[i].id == old(account.Known(chain)) as nat + i
              && CarriesBalance(r.value[i], oracle(old(account.Known(chain)) as nat + i))
  {
    var balances: seq<AddressBalance> := [];
    var checkingId := account.Known(chain);
    var unused: u32 := 0;
    var limit := account.addressLimit;
    ghost var start, gap, max := checkingId as nat, gapLimit as nat, limit as nat;

    while checkingId < limit && unused <= gapLimit
      invariant unused <= checkingId
      invariant max <= start ==> checkingId as nat == start && unused == 0
      invariant start <= max ==> checkingId as nat <= max
      invariant Progress(oracle, start, gap, max, checkingId as nat - unused as nat, checkingId as nat)
      invariant balances == Listing(oracle, chain, start, checkingId as nat - unused as nat)
      invariant forall c: Chain :: account.Known(c) == old(account.Known(c))
    {
      match oracle(checkingId as nat) {
        case Unreachable =>
          UnreachableFails(oracle, start, gap, max, (checkingId - unused) as nat, checkingId as nat, stores);
          return Err(BalanceRequestFailed);
        case Used(balance) =>
          var firstEmpty := checkingId - unused;
          UsedAdvances(oracle, start, gap, max, firstEmpty as nat, checkingId as nat);
          ExtendListing(oracle, chain, start, firstEmpty as nat, checkingId as nat);
          var skipped := EmptyEntries(chain, firstEmpty as nat, checkingId as nat);
          balances := balances + skipped + [AddressBalance(chain, checkingId as nat, balance)];
          unused := 0;
        case NotUsed =>
          unused := unused + 1;
      }
      checkingId := checkingId + 1;
    }

    CommitIsOutcome(oracle, start, gap, max, (checkingId - unused) as nat, checkingId as nat, stores);
    var updated := account.SetKnownAddressesNumber(chain, checkingId - unused, stores((checkingId - unused) as nat));
    r := if updated.Ok? then Ok(balances) else Err(updated.error);
  }
}
