/**
 Enabling an HD account: list the known addresses, optionally scan, optionally generate
 addresses up to a requested minimum, and total the balances.
 */
module HdEnable {
  import opened Common
  import opened HdScan
  import opened BalanceTotals

  /** What the network and the wallet storage answer while one account is enabled. */
  datatype Environment = Environment(
    probe: Oracle,                                   // used or not, during the scan
    request: (Chain, nat) -> Option<BalanceMap>,     // balance request for an address that is known
    stores: nat -> bool)                             // whether the storage accepts a new known count

  // ---------- specification ----------

  ghost predicate Answers(env: Environment, chain: Chain, from: nat, to: nat) {
    forall id: nat :: from <= id < to ==> env.request(chain, id).Some?
  }

  /** The entry of a known address is what its balance request returned. */
  ghost predicate IsRequested(entry: AddressBalance, env: Environment, chain: Chain, id: nat) {
    entry.chain == chain && entry.id == id && env.request(chain, id) == Some(entry.balance)
  }

  ghost predicate Requested(entries: seq<AddressBalance>, env: Environment, chain: Chain, from: nat) {
    forall i :: 0 <= i < |entries| ==> IsRequested(entries[i], env, chain, from + i)
  }

  /** Generating ids `from..to` works: every new count is below the limit and is stored. */
  ghost predicate CanGenerate(env: Environment, from: nat, to: nat, limit: nat) {
    from < to ==> to < limit && forall n: nat :: from < n <= to ==> env.stores(n)
  }

  /** The known count a chain is generated to, when `listed` addresses are listed already. */
  ghost function GeneratedTo(known: nat, listed: nat, minimum: nat): nat {
    known + MaxNat(minimum, listed) - listed
  }

  /** The known count after the optional scan; `start` when no scan was asked for. */
  ghost function AfterScan(env: Environment, start: nat, gap: nat, limit: nat, scan: bool): Result<nat, WalletError> {
    if !scan then Ok(start)
    else ScanOutcome(env.probe, start, gap, limit, env.stores)
  }

  ghost function ScannedTo(env: Environment, start: nat, gap: nat, limit: nat, scan: bool): nat {
    var k := AfterScan(env, start, gap, limit, scan);
    if k.Ok? then k.value else start
  }

  /**
   Entry `i` of a report: id `i` of the chain, with the balance of its probe if the scan found it and of its request
   otherwise.
   */
  ghost predicate IsReported(entry: AddressBalance, env: Environment, start: nat, scannedTo: nat, i: nat) {
    if start <= i < scannedTo then entry.chain == External && entry.id == i && CarriesBalance(entry, env.probe(i))
    else IsRequested(entry, env, External, i)
  }

  /** The known count that enabling the account commits; `None` when it fails. */
  ghost function EnableOutcome(env: Environment, start: nat, gap: nat, limit: nat, scan: bool,
                               minimum: Option<u32>): Option<nat> {
    if !Answers(env, External, 0, start) then None
    else
      match AfterScan(env, start, gap, limit, scan)
      case Err(_) => None
      case Ok(k) =>
        if minimum.None? then Some(k)
        else
          var known := MaxNat(k, minimum.value as nat);
          if minimum.value as nat < limit && CanGenerate(env, k, known, limit) && Answers(env, External, k, known)
          then Some(known) else None
  }

  // ---------- operations ----------

  method RequestBalances(env: Environment, chain: Chain, from: u32, to: u32)
    returns (r: Result<seq<AddressBalance>, WalletError>)
    requires from <= to
    ensures r.Ok? <==> Answers(env, chain, from as nat, to as nat)
    ensures r.Ok? ==> |r.value| == to as nat - from as nat && Requested(r.value, env, chain, from as nat)
    ensures r.Err? ==> r.error == BalanceRequestFailed
  {
    var entries: seq<AddressBalance> := [];
    var id := from;
    while id < to
      invariant from <= id <= to
      invariant Answers(env, chain, from as nat, id as nat)
      invariant |entries| == id as nat - from as nat && Requested(entries, env, chain, from as nat)
    {
      match env.request(chain, id as nat) {
        case None => return Err(BalanceRequestFailed);
        case Some(balance) => entries := entries + [AddressBalance(chain, id as nat, balance)];
      }
      id := id + 1;
    }
    r := Ok(entries);
  }

  /** Takes the next id; the known count moves only when the storage has accepted it. */
  method GenerateNewAddress(account: HdAccount, chain: Chain, env: Environment) returns (r: Result<u32, WalletError>)
    modifies account
    ensures forall other: Chain :: other != chain ==> account.Known(other) == old(account.Known(other))
    ensures var id := old(account.Known(chain)) as nat;
            && (r.Ok? <==> id + 1 < account.addressLimit as nat && env.stores(id + 1))
            && (r.Ok? ==> r.value as nat == id && account.Known(chain) as nat == id + 1)
            && (r.Err? ==> account.Known(chain) as nat == id)
            && (r.Err? ==> r.error == if id + 1 < account.addressLimit as nat then StorageFailed
                 else AddressLimitReached)
  {
    var id := account.Known(chain);
    if account.addressLimit <= id {
      return Err(AddressLimitReached);
    }
    var updated := account.SetKnownAddressesNumber(chain, id + 1, env.stores(id as nat + 1));
    r := if updated.Ok? then Ok(id) else Err(updated.error);
  }

  /**
   Extends `addresses` so that at least `minimum` are listed. The requested minimum itself must stay below the limit.
   */
  method GenNewAddresses(account: HdAccount, chain: Chain, env: Environment, addresses: seq<AddressBalance>,
                         minimum: u32)
    returns (r: Result<seq<AddressBalance>, WalletError>)
    modifies account
    ensures forall other: Chain :: other != chain ==> account.Known(other) == old(account.Known(other))
    ensures var from := old(account.Known(chain)) as nat;
            var to := GeneratedTo(from, |addresses|, minimum as nat);
            && from <= account.Known(chain) as nat <= to
            && (r.Ok? <==> minimum < account.addressLimit && CanGenerate(env, from, to, account.addressLimit as nat)
                           && Answers(env, chain, from, to))
            && (account.addressLimit <= minimum ==> r == Err(AddressLimitReached))
            && (minimum < account.addressLimit && !CanGenerate(env, from, to, account.addressLimit as nat) ==>
                  r.error == AddressLimitReached || r.error == StorageFailed)
            && (minimum < account.addressLimit && CanGenerate(env, from, to, account.addressLimit as nat) ==>
                  r.Ok? || r.error == BalanceRequestFailed)
            && (r.Ok? ==> account.Known(chain) as nat == to
                          && |r.value| == |addresses| + to - from && r.value[..|addresses|] == addresses
                          && Requested(r.value[|addresses|..], env, chain, from))
  {
    if account.addressLimit <= minimum {
      return Err(AddressLimitReached);
    }
    if minimum as nat <= |addresses| {
      assert addresses[|addresses|..] == [];
      return Ok(addresses);
    }
    var toGenerate := minimum as nat - |addresses|;
    var from := account.Known(chain);
    for i := 0 to toGenerate
      invariant account.Known(chain) as nat == from as nat + i
      invariant forall n: nat :: from as nat < n <= from as nat + i ==> env.stores(n)
      invariant i > 0 ==> from as nat + i < account.addressLimit as nat
      invariant forall other: Chain :: other != chain ==> account.Known(other) == old(account.Known(other))
    {
      var generated := GenerateNewAddress(account, chain, env);
      if generated.Err? {
        return Err(generated.error);
      }
    }
    var requested := RequestBalances(env, chain, from, account.Known(chain));
    if requested.Err? {
      return Err(requested.error);
    }
    r := Ok(addresses + requested.value);
    assert r.value[|addresses|..] == requested.value;
  }

  /** The entries of ids `0..|entries|`, those of `start..scannedTo` from the scan. */
  ghost predicate IsReport(entries: seq<AddressBalance>, env: Environment, start: nat, scannedTo: nat) {
    forall i :: 0 <= i < |entries| ==> IsReported(entries[i], env, start, scannedTo, i)
  }

  /** The known addresses, followed by what the optional scan finds. */
  method ListAndScan(account: HdAccount, env: Environment, gapLimit: u32, scan: bool)
    returns (r: Result<seq<AddressBalance>, WalletError>)
    modifies account
    ensures account.Known(Internal) == old(account.Known(Internal))
    ensures old(account.Known(External)) <= account.Known(External)
    ensures var start, known := old(account.Known(External)) as nat, account.Known(External) as nat;
            var after := AfterScan(env, start, gapLimit as nat, account.addressLimit as nat, scan);
            && (r.Ok? <==> Answers(env, External, 0, start) && after.Ok?)
            && (r.Err? ==> r.error == if !Answers(env, External, 0, start) then BalanceRequestFailed else after.error)
            && (r.Ok? ==> known == after.value && |r.value| == known && IsReport(r.value, env, start, known))
  {
    var listed := RequestBalances(env, External, 0, account.Known(External));
    if listed.Err? || !scan {
      return listed;
    }
    var scanned := ScanForNewAddresses(account, External, gapLimit, env.probe, env.stores);
    if scanned.Err? {
      return Err(scanned.error);
    }
    r := Ok(listed.value + scanned.value);
  }

  lemma ExtendReport(entries: seq<AddressBalance>, extended: seq<AddressBalance>, env: Environment, start: nat,
                     scannedTo: nat)
    requires start <= scannedTo == |entries| && IsReport(entries, env, start, scannedTo)
    requires entries <= extended && Requested(extended[scannedTo..], env, External, scannedTo)
    ensures IsReport(extended, env, start, scannedTo)
  {
    forall i | scannedTo <= i < |extended| ensures IsReported(extended[i], env, start, scannedTo, i) {
      assert extended[scannedTo..][i - scannedTo] == extended[i];
    }
  }

  /** A coin with the external chain only, such as the EVM coins. */
  method EnableHdAccount(account: HdAccount, env: Environment, gapLimit: u32, scan: bool, minimum: Option<u32>)
    returns (r: Result<(seq<AddressBalance>, BalanceMap), WalletError>)
    modifies account
    ensures account.Known(Internal) == old(account.Known(Internal))
    ensures old(account.Known(External)) <= account.Known(External)
    ensures var start, known := old(account.Known(External)) as nat, account.Known(External) as nat;
            var gap, limit := gapLimit as nat, account.addressLimit as nat;
            var outcome := EnableOutcome(env, start, gap, limit, scan, minimum);
            && (r.Ok? <==> outcome.Some?)
            && (!Answers(env, External, 0, start) ==> r == Err(BalanceRequestFailed))
            && var scanned := AfterScan(env, start, gap, limit, scan);
            && (Answers(env, External, 0, start) && scanned.Err? ==> r == Err(scanned.error))
            && (Answers(env, External, 0, start) && scanned.Ok? && minimum.Some? && limit <= minimum.value as nat ==>
                  r == Err(AddressLimitReached))
            && (r.Ok? ==>
                  && known == outcome.value
                  && |r.value.0| == known
                  && IsReport(r.value.0, env, start, ScannedTo(env, start, gap, limit, scan))
                  && IsTotal(r.value.1, r.value.0))
  {
    var listed := ListAndScan(account, env, gapLimit, scan);
    if listed.Err? {
      return Err(listed.error);
    }
    var addresses := listed.value;
    if minimum.Some? {
      var generated := GenNewAddresses(account, External, env, addresses, minimum.value);
      if generated.Err? {
        return Err(generated.error);
      }
      ExtendReport(addresses, generated.value, env, old(account.Known(External)) as nat, |addresses|);
      addresses := generated.value;
    }
    var total := Total(addresses);
    r := Ok((addresses, total));
  }

  // ---------- consequences ----------

  /** The minimum that enabling a wallet passes on for the account of the enabled address. */
  function MinimumFor(requested: Option<u32>, addressId: u32): (m: Option<u32>)
    requires addressId < 0xFFFF_FFFF
    ensures m.Some? && addressId < m.value && (requested.Some? ==> requested.value <= m.value)
    ensures m.value == addressId + 1 || m == requested
  {
    match requested
    case None => Some(addressId + 1)
    case Some(n) => Some(if n < addressId + 1 then addressId + 1 else n)
  }

  /** Whatever is scanned, the enabled address is among the reported ones. */
  lemma EnabledAddressIsIndexed(env: Environment, start: nat, gap: nat, limit: nat, scan: bool, requested: Option<u32>,
                                addressId: u32)
    requires addressId < 0xFFFF_FFFF
    ensures var minimum := MinimumFor(requested, addressId);
            EnableOutcome(env, start, gap, limit, scan, minimum).Some? ==> minimum.value as nat < limit
    ensures var outcome := EnableOutcome(env, start, gap, limit, scan, MinimumFor(requested, addressId));
            outcome.Some? ==>
                start <= outcome.value && addressId as nat < outcome.value && (start < limit ==> outcome.value < limit)
  {
  }

  /**
   Enabling a second time against the same answers keeps the count, except in one case: the minimum has
   pushed the count past the window the scan had looked at, and a scan from there sees a used address. When the
   minimum has not raised the scanned count there is no such case.
   */
  lemma EnableAgainKeepsCountIff(env: Environment, start: nat, gap: nat, limit: nat, scan: bool, minimum: Option<u32>,
                                 known: nat)
    requires start < limit
    requires EnableOutcome(env, start, gap, limit, scan, minimum) == Some(known)
    requires forall id: nat :: env.request(External, id).Some?
    requires env.stores(known)
    ensures EnableOutcome(env, known, gap, limit, scan, minimum) == Some(known)
       <==> !scan || QuietFrom(env.probe, known, gap, limit)
    ensures known == ScannedTo(env, start, gap, limit, scan) ==>
        EnableOutcome(env, known, gap, limit, scan, minimum) == Some(known)
  {
    var k := AfterScan(env, start, gap, limit, scan).value;
    if scan && QuietFrom(env.probe, known, gap, limit) {
      assert FirstQuiet(env.probe, known, gap, limit) == known;
    }
  }

  /**
   Such a case: of all addresses only id 2 is used, and two are asked for. Enabling from 0 with gap limit 0 generates
   ids 0 and 1; enabling again finds id 2.
   */
  lemma EnableAgainFindsMore(env: Environment)
    requires forall id: nat :: env.probe(id) == if id == 2 then Used(map[]) else NotUsed
    requires forall id: nat :: env.request(External, id).Some? && env.stores(id)
    ensures EnableOutcome(env, 0, 0, 10, true, Some(2)) == Some(2)
    ensures EnableOutcome(env, 2, 0, 10, true, Some(2)) == Some(3)
  {
    assert QuietFrom(env.probe, 0, 0, 10) && QuietFrom(env.probe, 3, 0, 10);
    assert !QuietFrom(env.probe, 2, 0, 10) by {
      assert env.probe(2) != NotUsed;
    }
  }

  /**
   A coin that also lists its internal chain: generation counts the addresses of both chains against the
   minimum of one. With `other` addresses listed on the other chain, the requested chain reaches the minimum
   exactly when the other chain is empty or the minimum was reached before.
   */
  lemma TwoChainMinimumReachedIff(known: nat, other: nat, minimum: nat)
    ensures GeneratedTo(known, known + other, minimum) >= minimum <==> other == 0 || known >= minimum
  {
  }
}
