/** What the scan of module `HdScan` promises its callers, for every usage oracle, and where it breaks a promise. */
module HdScanLaws {
  import opened Common
  import opened HdScan

  /** The ids `from..from + gap` are all unused: the run of empty addresses that ends a scan. */
  ghost predicate EmptyRun(oracle: Oracle, from: nat, gap: nat) {
    forall id: nat :: from <= id <= from + gap ==> oracle(id) == NotUsed
  }

  /**
   A used id that a successful scan can see is found exactly when no run of `gap limit + 1` unused ids precedes it.
   */
  lemma DiscoveredIffNoEmptyRun(oracle: Oracle, start: nat, gap: nat, limit: nat, stores: nat -> bool, k: nat, id: nat)
    requires ScanOutcome(oracle, start, gap, limit, stores) == Ok(k)
    requires start <= id < limit
    requires oracle(id).Used?
    ensures id < k <==> !EmptyRunBefore(oracle, start, gap, id)
  {
    ReachedIffNoEmptyRun(oracle, start, gap, limit, id);
  }

  /** A run of `gap limit + 1` unused ids lies between the start and the id. */
  ghost predicate EmptyRunBefore(oracle: Oracle, start: nat, gap: nat, id: nat) {
    exists j: nat :: start <= j && j + gap < id && EmptyRun(oracle, j, gap)
  }

  lemma ReachedIffNoEmptyRun(oracle: Oracle, start: nat, gap: nat, limit: nat, id: nat)
    requires start <= id < limit
    requires oracle(id).Used?
    ensures id < FirstQuiet(oracle, start, gap, limit) <==> !EmptyRunBefore(oracle, start, gap, id)
  {
    var k := FirstQuiet(oracle, start, gap, limit);
    if k <= id {
      assert k + gap < id && EmptyRun(oracle, k, gap);
    } else {
      forall j: nat | start <= j && j + gap < id ensures !EmptyRun(oracle, j, gap) {
        assert !QuietFrom(oracle, j, gap, limit);
      }
    }
  }

  /** A gap of exactly `gap limit` unused ids is bridged; the doc comment of the source says it ends the scan. */
  lemma GapLimitUnusedIdsAreBridged(oracle: Oracle, start: nat, gap: nat, limit: nat, stores: nat -> bool, k: nat)
    requires ScanOutcome(oracle, start, gap, limit, stores) == Ok(k)
    requires start + gap < limit && oracle(start + gap).Used?
    ensures start + gap < k
  {
    DiscoveredIffNoEmptyRun(oracle, start, gap, limit, stores, k, start + gap);
  }

  /** A scan that raises the count ends right after a used id, and all ids of the next window are unused. */
  lemma EndsAfterUsedId(oracle: Oracle, start: nat, gap: nat, limit: nat, stores: nat -> bool, k: nat)
    requires ScanOutcome(oracle, start, gap, limit, stores) == Ok(k)
    ensures start <= k < limit
    ensures start < k ==> oracle(k - 1).Used?
    ensures forall id: nat :: k <= id <= k + gap && id < limit ==> oracle(id) == NotUsed
  {
    if start < k && oracle(k - 1) == NotUsed {
      assert QuietFrom(oracle, k, gap, limit);
      assert QuietFrom(oracle, k - 1, gap, limit);
    }
  }

  /** Scanning again with the same answers finds nothing and keeps the count. */
  lemma ScanIsIdempotent(oracle: Oracle, chain: Chain, start: nat, gap: nat, limit: nat, stores: nat -> bool, k: nat)
    requires ScanOutcome(oracle, start, gap, limit, stores) == Ok(k)
    ensures ScanOutcome(oracle, k, gap, limit, stores) == Ok(k)
    ensures Listing(oracle, chain, k, k) == []
  {
    assert QuietFrom(oracle, k, gap, limit);
  }

  // ---------- when more is found, and when less ----------

  /** The scan arrives at the limit: the very last id is used and no run of unused ids precedes it. */
  ghost predicate LastIdIsReached(oracle: Oracle, start: nat, gap: nat, limit: nat) {
    start < limit && oracle(limit - 1).Used? && !EmptyRunBefore(oracle, start, gap, limit - 1)
  }

  /** A scan is refused for want of room exactly when none was left before it, or when it arrives at the limit. */
  lemma RefusedIffLastIdIsReached(oracle: Oracle, start: nat, gap: nat, limit: nat, stores: nat -> bool)
    ensures ScanOutcome(oracle, start, gap, limit, stores) == Err(AddressLimitReached)
       <==> limit <= start || (LastIdIsReached(oracle, start, gap, limit) && AllReachable(oracle, start, limit))
  {
    if start < limit {
      var k := FirstQuiet(oracle, start, gap, limit);
      if oracle(limit - 1).Used? {
        ReachedIffNoEmptyRun(oracle, start, gap, limit, limit - 1);
      } else if oracle(limit - 1) == NotUsed {
        assert QuietFrom(oracle, limit - 1, gap, limit);
      }
    }
  }

  /** The known count after a scan. */
  function Committed(start: nat, outcome: Result<nat, WalletError>): nat {
    if outcome.Ok? then outcome.value else start
  }

  lemma QuietCountIsMonotoneInGap(oracle: Oracle, start: nat, gap: nat, wider: nat, limit: nat)
    requires start <= limit && gap <= wider
    ensures FirstQuiet(oracle, start, gap, limit) <= FirstQuiet(oracle, start, wider, limit)
  {
    var w := FirstQuiet(oracle, start, wider, limit);
    assert QuietFrom(oracle, w, wider, limit);
    assert QuietFrom(oracle, w, gap, limit);
  }

  /**
   A wider gap limit keeps whatever a narrower one finds, in the same order, unless the wider scan fails
   where the narrower one has found something: then the account keeps its old count.
   */
  lemma MonotoneInGap(oracle: Oracle, chain: Chain, start: nat, gap: nat, wider: nat, limit: nat, stores: nat -> bool)
    requires gap <= wider
    ensures var narrow := ScanOutcome(oracle, start, gap, limit, stores);
            var wide := ScanOutcome(oracle, start, wider, limit, stores);
            && (Committed(start, narrow) <= Committed(start, wide) <==>
                 wide.Ok? || narrow.Err? || narrow.value == start)
            && (narrow.Ok? && wide.Ok? ==>
                  start <= narrow.value <= wide.value
                  && Listing(oracle, chain, start, narrow.value) <= Listing(oracle, chain, start, wide.value))
  {
    if start < limit {
      QuietCountIsMonotoneInGap(oracle, start, gap, wider, limit);
    }
  }

  /**
   With reachable addresses and a working storage: a wider gap limit loses what a narrower one finds exactly by
   arriving at the limit.
   */
  lemma WiderGapLosesIff(oracle: Oracle, start: nat, gap: nat, wider: nat, limit: nat, stores: nat -> bool)
    requires start < limit && gap <= wider
    requires AllReachable(oracle, start, limit) && forall n: nat :: stores(n)
    ensures Committed(start, ScanOutcome(oracle, start, wider, limit, stores))
          < Committed(start, ScanOutcome(oracle, start, gap, limit, stores))
       <==> && LastIdIsReached(oracle, start, wider, limit)
            && !LastIdIsReached(oracle, start, gap, limit)
            && !QuietFrom(oracle, start, gap, limit)
  {
    MonotoneInGap(oracle, External, start, gap, wider, limit, stores);
    RefusedIffLastIdIsReached(oracle, start, gap, limit, stores);
    RefusedIffLastIdIsReached(oracle, start, wider, limit, stores);
  }

  /** Continuing a narrow scan with a wider gap limit ends as the wide scan from the start would have. */
  lemma ContinuingIsStartingWide(oracle: Oracle, start: nat, gap: nat, wider: nat, limit: nat, stores: nat -> bool,
                                 k: nat)
    requires gap <= wider
    requires ScanOutcome(oracle, start, gap, limit, stores) == Ok(k)
    ensures ScanOutcome(oracle, k, wider, limit, stores) == ScanOutcome(oracle, start, wider, limit, stores)
  {
    QuietCountIsMonotoneInGap(oracle, start, gap, wider, limit);
    assert QuietFrom(oracle, FirstQuiet(oracle, k, wider, limit), wider, limit);
    assert FirstQuiet(oracle, k, wider, limit) == FirstQuiet(oracle, start, wider, limit);
  }

  lemma QuietCountIsMonotoneInUsage(fewer: Oracle, more: Oracle, start: nat, gap: nat, limit: nat)
    requires start <= limit
    requires forall id: nat :: more(id) == NotUsed ==> fewer(id) == NotUsed
    ensures FirstQuiet(fewer, start, gap, limit) <= FirstQuiet(more, start, gap, limit)
  {
    var k := FirstQuiet(more, start, gap, limit);
    assert QuietFrom(more, k, gap, limit);
    assert QuietFrom(fewer, k, gap, limit);
  }

  /** More used addresses keep the count from falling, under the same condition. */
  lemma MonotoneInUsage(fewer: Oracle, more: Oracle, start: nat, gap: nat, limit: nat, stores: nat -> bool)
    requires forall id: nat :: more(id) == NotUsed ==> fewer(id) == NotUsed
    ensures var few := ScanOutcome(fewer, start, gap, limit, stores);
            var many := ScanOutcome(more, start, gap, limit, stores);
            && (Committed(start, few) <= Committed(start, many) <==> many.Ok? || few.Err? || few.value == start)
            && (few.Ok? && many.Ok? ==> few.value <= many.value)
  {
    if start < limit {
      QuietCountIsMonotoneInUsage(fewer, more, start, gap, limit);
    }
  }

  lemma MoreUsageLosesIff(fewer: Oracle, more: Oracle, start: nat, gap: nat, limit: nat, stores: nat -> bool)
    requires start < limit
    requires forall id: nat :: more(id) == NotUsed ==> fewer(id) == NotUsed
    requires AllReachable(fewer, start, limit) && AllReachable(more, start, limit) && forall n: nat :: stores(n)
    ensures Committed(start, ScanOutcome(more, start, gap, limit, stores))
          < Committed(start, ScanOutcome(fewer, start, gap, limit, stores))
       <==> && LastIdIsReached(more, start, gap, limit)
            && !LastIdIsReached(fewer, start, gap, limit)
            && !QuietFrom(fewer, start, gap, limit)
  {
    MonotoneInUsage(fewer, more, start, gap, limit, stores);
    RefusedIffLastIdIsReached(fewer, start, gap, limit, stores);
    RefusedIffLastIdIsReached(more, start, gap, limit, stores);
  }

  /** Ids 0 and 2 of three are used: with gap limit 0 the scan finds id 0, with gap limit 1 it is refused. */
  lemma WiderGapFindsNothing(stores: nat -> bool)
    requires stores(1)
    ensures var oracle: Oracle := id => if id == 1 then NotUsed else Used(map[]);
            && ScanOutcome(oracle, 0, 0, 3, stores) == Ok(1)
            && ScanOutcome(oracle, 0, 1, 3, stores) == Err(AddressLimitReached)
  {
    var oracle: Oracle := id => if id == 1 then NotUsed else Used(map[]);
    assert oracle(0) != NotUsed && oracle(2) != NotUsed;
    assert QuietFrom(oracle, 1, 0, 3);
  }

  /** Two addresses, gap limit 0: with id 0 used the scan finds it, with both used it is refused. */
  lemma MoreUsageFindsNothing(stores: nat -> bool)
    requires stores(1)
    ensures var fewer: Oracle := id => if id == 0 then Used(map[]) else NotUsed;
            var more: Oracle := id => Used(map[]);
            && ScanOutcome(fewer, 0, 0, 2, stores) == Ok(1)
            && ScanOutcome(more, 0, 0, 2, stores) == Err(AddressLimitReached)
  {
    var fewer: Oracle := id => if id == 0 then Used(map[]) else NotUsed;
    var more: Oracle := id => Used(map[]);
    assert fewer(0) != NotUsed && more(0) != NotUsed && more(1) != NotUsed;
    assert QuietFrom(fewer, 1, 0, 2);
  }
}
