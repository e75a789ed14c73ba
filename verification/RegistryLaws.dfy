/** Safety of the coin registry over every interleaving, and exactness of its token sets over serial runs. */
module RegistryLaws {
  import opened Common
  import opened CoinsRegistry

  /** The locked sections; each runs without interruption. */
  datatype Section =
    | TokenAdded(coin: Coin)
    | PlatformAdded(platform: Coin, tokens: seq<Coin>, nft: Option<Coin>)
    | Removed(coin: Coin)
    | Inserted(coin: Coin)
    | Indexed(coin: Coin)
    | AvailabilitySet(ticker: Ticker, available: bool)

  ghost function Step(platformOf: PlatformOf, s: Registry, section: Section): Registry {
    match section
    case TokenAdded(coin) => AfterAddToken(platformOf, s, coin)
    case PlatformAdded(platform, tokens, nft) => AfterAddPlatform(platformOf, s, platform, tokens, nft)
    case Removed(coin) => AfterRemove(platformOf, s, coin)
    case Inserted(coin) => AfterInsert(s, coin)
    case Indexed(coin) => AfterIndex(platformOf, s, coin)
    case AvailabilitySet(ticker, available) => AfterSetAvailable(platformOf, s, ticker, available)
  }

  /** A platform is activated together with tokens of its own. */
  ghost predicate RespectsPlatforms(platformOf: PlatformOf, section: Section) {
    section.PlatformAdded? ==>
      && IsPlatform(platformOf, section.platform.ticker)
      && (forall i :: 0 <= i < |section.tokens| ==>
           IsTokenOf(platformOf, section.tokens[i].ticker, section.platform.ticker))
      && (section.nft.Some? ==> IsTokenOf(platformOf, section.nft.value.ticker, section.platform.ticker))
  }

  ghost predicate IsTokenOf(platformOf: PlatformOf, ticker: Ticker, platform: Ticker) {
    platformOf(ticker) == platform && ticker != platform
  }

  /** Registering a coin runs its two sections, unless the first one is refused. */
  datatype Call = Section(section: Section) | Register(coin: Coin)

  ghost function SerialStep(platformOf: PlatformOf, s: Registry, call: Call): Registry {
    match call
    case Section(section) => Step(platformOf, s, section)
    case Register(coin) => if coin.ticker in s.coins then s else AfterIndex(platformOf, AfterInsert(s, coin), coin)
  }

  lemma {:induction false} InsertMissingAdds(coins: map<Ticker, Entry>, added: seq<Coin>)
    ensures InsertMissing(coins, added).Keys == coins.Keys + TickersOf(added)
    ensures forall t :: t in coins ==> InsertMissing(coins, added)[t] == coins[t]
    ensures forall t :: t in InsertMissing(coins, added) && t !in coins ==>
        InsertMissing(coins, added)[t].coin.ticker == t
  {
    if added != [] {
      var last := |added| - 1;
      InsertMissingAdds(coins, added[..last]);
      assert TickersOf(added) == TickersOf(added[..last]) + {added[last].ticker};
    }
  }

  // ---------- safety over interleavings ----------

  /** Every ticker in a platform's token set is registered and belongs to that platform. */
  ghost predicate Safe(platformOf: PlatformOf, s: Registry) {
    && Keyed(s)
    && forall p, t :: p in s.tokens && t in s.tokens[p] ==> t in s.coins && platformOf(t) == p
  }

  lemma StepKeepsSafe(platformOf: PlatformOf, s: Registry, section: Section)
    requires Safe(platformOf, s) && RespectsPlatforms(platformOf, section)
    ensures Safe(platformOf, Step(platformOf, s, section))
  {
    match section {
      case TokenAdded(coin) =>
      case PlatformAdded(platform, tokens, nft) => AddPlatformKeepsSafe(platformOf, s, platform, tokens, nft);
      case Removed(coin) => RemoveKeepsSafe(platformOf, s, coin);
      case Inserted(coin) =>
      case Indexed(coin) =>
      case AvailabilitySet(ticker, available) =>
    }
  }

  /** The tickers that an activation adds, and what it does to the tickers and the sets of the registry. */
  ghost function TickersAdded(tokens: seq<Coin>, nft: Option<Coin>): set<Ticker> {
    if nft.Some? then TickersOf(tokens) + {nft.value.ticker} else TickersOf(tokens)
  }

  lemma ActivationAdds(platformOf: PlatformOf, s: Registry, platform: Coin, tokens: seq<Coin>, nft: Option<Coin>)
    requires Keyed(s) && RespectsPlatforms(platformOf, PlatformAdded(platform, tokens, nft))
    requires Lookup(platformOf, s, platform.ticker) == None
    ensures var p, after := platform.ticker, AfterAddPlatform(platformOf, s, platform, tokens, nft);
            var added := TickersAdded(tokens, nft);
            && Keyed(after)
            && after.coins.Keys == s.coins.Keys + {p} + added
            && after.tokens == s.tokens[p := TokensOf(s, p) + added]
            && (forall t :: t in added ==> IsTokenOf(platformOf, t, p))
  {
    var p := platform.ticker;
    var activated := s.coins[p := if p in s.coins then s.coins[p].(available := true) else Entry(platform, true)];
    InsertMissingAdds(activated, tokens);
  }

  lemma AddPlatformKeepsSafe(platformOf: PlatformOf, s: Registry, platform: Coin, tokens: seq<Coin>, nft: Option<Coin>)
    requires Safe(platformOf, s) && RespectsPlatforms(platformOf, PlatformAdded(platform, tokens, nft))
    ensures Safe(platformOf, AfterAddPlatform(platformOf, s, platform, tokens, nft))
  {
    var p, after := platform.ticker, AfterAddPlatform(platformOf, s, platform, tokens, nft);
    if Lookup(platformOf, s, p) == None {
      ActivationAdds(platformOf, s, platform, tokens, nft);
      GrownSetIsSafe(platformOf, s, after, p, TickersAdded(tokens, nft));
    }
  }

  lemma GrownSetIsSafe(platformOf: PlatformOf, s: Registry, after: Registry, p: Ticker, added: set<Ticker>)
    requires Safe(platformOf, s) && Keyed(after)
    requires forall t :: t in added ==> platformOf(t) == p
    requires s.coins.Keys + added <= after.coins.Keys
    requires after.tokens == s.tokens[p := TokensOf(s, p) + added]
    ensures Safe(platformOf, after)
  {
    forall q, t | q in after.tokens && t in after.tokens[q] ensures t in after.coins && platformOf(t) == q {
      if q != p {
        assert t in s.tokens[q];
      }
    }
  }

  lemma RemoveKeepsSafe(platformOf: PlatformOf, s: Registry, coin: Coin)
    requires Safe(platformOf, s)
    ensures Safe(platformOf, AfterRemove(platformOf, s, coin))
  {
    var after := AfterRemove(platformOf, s, coin);
    forall q, t | q in after.tokens && t in after.tokens[q] ensures t in after.coins && platformOf(t) == q {
      assert t in s.tokens[q];
      assert t in s.coins && platformOf(t) == q;
    }
  }

  ghost function Run(platformOf: PlatformOf, sections: seq<Section>): Registry {
    if sections == [] then EMPTY_REGISTRY
    else Step(platformOf, Run(platformOf, sections[..|sections| - 1]), sections[|sections| - 1])
  }

  /**
   However the sections of concurrent calls interleave, the registry stays safe. A registration
   counts as two sections, so removals and activations may fall between them.
   */
  lemma {:induction false} EveryInterleavingIsSafe(platformOf: PlatformOf, sections: seq<Section>)
    requires forall i :: 0 <= i < |sections| ==> RespectsPlatforms(platformOf, sections[i])
    ensures Safe(platformOf, Run(platformOf, sections))
  {
    if sections != [] {
      var last := |sections| - 1;
      EveryInterleavingIsSafe(platformOf, sections[..last]);
      StepKeepsSafe(platformOf, Run(platformOf, sections[..last]), sections[last]);
    }
  }

  // ---------- tokens that a removal leaves behind ----------

  /** The registered tokens of a platform. */
  ghost function Dependents(platformOf: PlatformOf, s: Registry, p: Ticker): set<Ticker> {
    set t | t in s.coins && IsTokenOf(platformOf, t, p)
  }

  /** Registered tokens of a platform that its token set does not know. */
  ghost function Orphans(platformOf: PlatformOf, s: Registry, p: Ticker): set<Ticker> {
    Dependents(platformOf, s, p) - TokensOf(s, p)
  }

  /**
   From any safe registry: removing a platform leaves exactly its orphans behind, and touches no other platform's
   coins.
   */
  lemma RemovalLeavesOrphans(platformOf: PlatformOf, s: Registry, platform: Coin)
    requires Safe(platformOf, s) && IsPlatform(platformOf, platform.ticker)
    ensures var p, after := platform.ticker, AfterRemove(platformOf, s, platform);
            && p !in after.coins && p !in after.tokens
            && Dependents(platformOf, after, p) == Orphans(platformOf, s, p)
            && (forall t :: platformOf(t) != p ==> (t in after.coins <==> t in s.coins))
  {
  }

  /** A token of `p` that a section registers without a set to put it in. */
  ghost function Stranded(platformOf: PlatformOf, s: Registry, section: Section, p: Ticker): set<Ticker> {
    match section
    case TokenAdded(coin) =>
      if coin.ticker !in s.coins && IsTokenOf(platformOf, coin.ticker, p) && p !in s.tokens then {coin.ticker} else {}
    case Inserted(coin) =>
      if coin.ticker !in s.coins && IsTokenOf(platformOf, coin.ticker, p) then {coin.ticker} else {}
    case _ => {}
  }

  /** Tokens that a section removes, or indexes in passing when it activates `p` together with them. */
  ghost function Recovered(platformOf: PlatformOf, s: Registry, section: Section, p: Ticker): set<Ticker> {
    match section
    case PlatformAdded(platform, tokens, nft) =>
      if platform.ticker == p && Lookup(platformOf, s, p) == None then TickersAdded(tokens, nft) else {}
    case Removed(coin) => {coin.ticker}
    case _ => {}
  }

  /** The exact effect of every section on the orphans of every platform. */
  lemma OrphansAfterStep(platformOf: PlatformOf, s: Registry, section: Section, p: Ticker)
    requires Safe(platformOf, s) && RespectsPlatforms(platformOf, section)
    ensures Orphans(platformOf, Step(platformOf, s, section), p)
         == Orphans(platformOf, s, p) - Recovered(platformOf, s, section, p) + Stranded(platformOf, s, section, p)
  {
    match section {
      case TokenAdded(coin) =>
      case PlatformAdded(platform, tokens, nft) => OrphansAfterAddPlatform(platformOf, s, platform, tokens, nft, p);
      case Removed(coin) => OrphansAfterRemove(platformOf, s, coin, p);
      case Inserted(coin) =>
      case Indexed(coin) =>
      case AvailabilitySet(ticker, available) =>
    }
  }

  lemma OrphansAfterAddPlatform(platformOf: PlatformOf, s: Registry, platform: Coin, tokens: seq<Coin>,
                                nft: Option<Coin>, p: Ticker)
    requires Safe(platformOf, s) && RespectsPlatforms(platformOf, PlatformAdded(platform, tokens, nft))
    ensures Orphans(platformOf, AfterAddPlatform(platformOf, s, platform, tokens, nft), p)
         == Orphans(platformOf, s, p) - Recovered(platformOf, s, PlatformAdded(platform, tokens, nft), p)
  {
    var q, after := platform.ticker, AfterAddPlatform(platformOf, s, platform, tokens, nft);
    if Lookup(platformOf, s, q) == None {
      ActivationAdds(platformOf, s, platform, tokens, nft);
      OrphansOfGrownSet(platformOf, s, after, q, TickersAdded(tokens, nft), p);
    }
  }

  lemma OrphansOfGrownSet(platformOf: PlatformOf, s: Registry, after: Registry, q: Ticker, added: set<Ticker>,
                          p: Ticker)
    requires IsPlatform(platformOf, q)
    requires forall t :: t in added ==> IsTokenOf(platformOf, t, q)
    requires after.coins.Keys == s.coins.Keys + {q} + added
    requires after.tokens == s.tokens[q := TokensOf(s, q) + added]
    ensures Orphans(platformOf, after, p)
         == if p == q then Orphans(platformOf, s, p) - added else Orphans(platformOf, s, p)
  {
  }

  lemma OrphansAfterRemove(platformOf: PlatformOf, s: Registry, coin: Coin, p: Ticker)
    requires Safe(platformOf, s)
    ensures Orphans(platformOf, AfterRemove(platformOf, s, coin), p) == Orphans(platformOf, s, p) - {coin.ticker}
  {
    if IsPlatform(platformOf, coin.ticker) {
      RemovalLeavesOrphans(platformOf, s, coin);
    }
  }

  /**
   A section adds an orphan of a platform if and only if it registers one of its tokens without a set to put it in.
   */
  lemma StepAddsNoOrphanIff(platformOf: PlatformOf, s: Registry, section: Section, p: Ticker)
    requires Safe(platformOf, s) && RespectsPlatforms(platformOf, section)
    ensures Orphans(platformOf, Step(platformOf, s, section), p) <= Orphans(platformOf, s, p)
       <==> Stranded(platformOf, s, section, p) == {}
  {
    OrphansAfterStep(platformOf, s, section, p);
    assert Stranded(platformOf, s, section, p) !! Orphans(platformOf, s, p);
    var stranded := Stranded(platformOf, s, section, p);
    if t :| t in stranded {
      assert t in Orphans(platformOf, Step(platformOf, s, section), p);
    }
  }

  /** Section `i` of a run strands the token and no later one recovers it. */
  ghost predicate StrandedForGoodAt(platformOf: PlatformOf, sections: seq<Section>, p: Ticker, t: Ticker, i: nat) {
    && i < |sections|
    && t in Stranded(platformOf, Run(platformOf, sections[..i]), sections[i], p)
    && forall j :: i < j < |sections| ==> t !in Recovered(platformOf, Run(platformOf, sections[..j]), sections[j], p)
  }

  /**
   Over every interleaving: removing a platform leaves a token of it behind if and only if some section
   registered the token without a set to put it in, and none has removed or indexed it since.
   */
  lemma {:induction false} TokenIsLeftBehindIff(platformOf: PlatformOf, sections: seq<Section>, platform: Coin,
                                                t: Ticker)
    requires forall i :: 0 <= i < |sections| ==> RespectsPlatforms(platformOf, sections[i])
    requires IsPlatform(platformOf, platform.ticker)
    ensures t in Dependents(platformOf, AfterRemove(platformOf, Run(platformOf, sections), platform), platform.ticker)
       <==> exists i: nat :: StrandedForGoodAt(platformOf, sections, platform.ticker, t, i)
  {
    EveryInterleavingIsSafe(platformOf, sections);
    RemovalLeavesOrphans(platformOf, Run(platformOf, sections), platform);
    OrphansOfRun(platformOf, sections, platform.ticker, t);
  }

  lemma {:induction false} OrphansOfRun(platformOf: PlatformOf, sections: seq<Section>, p: Ticker, t: Ticker)
    requires forall i :: 0 <= i < |sections| ==> RespectsPlatforms(platformOf, sections[i])
    ensures t in Orphans(platformOf, Run(platformOf, sections), p)
       <==> exists i: nat :: StrandedForGoodAt(platformOf, sections, p, t, i)
  {
    if sections != [] {
      var last := |sections| - 1;
      var init := sections[..last];
      OrphansOfRun(platformOf, init, p, t);
      EveryInterleavingIsSafe(platformOf, init);
      OrphansAfterStep(platformOf, Run(platformOf, init), sections[last], p);
      StrandedByOneMore(platformOf, init, sections[last], p, t);
      assert init + [sections[last]] == sections;
    }
  }

  lemma StrandedByOneMore(platformOf: PlatformOf, init: seq<Section>, section: Section, p: Ticker, t: Ticker)
    ensures var s := Run(platformOf, init);
            (exists i: nat :: StrandedForGoodAt(platformOf, init + [section], p, t, i))
            <==> (t in Stranded(platformOf, s, section, p)
                  || (t !in Recovered(platformOf, s, section, p)
                      && exists i: nat :: StrandedForGoodAt(platformOf, init, p, t, i)))
  {
    var s, all, n := Run(platformOf, init), init + [section], |init|;
    assert all[..n] == init;
    assert StrandedForGoodAt(platformOf, all, p, t, n) <==> t in Stranded(platformOf, s, section, p);
    forall i: nat | i < n
      ensures StrandedForGoodAt(platformOf, all, p, t, i)
         <==> StrandedForGoodAt(platformOf, init, p, t, i) && t !in Recovered(platformOf, s, section, p)
    {
      StrandedEarlier(platformOf, init, section, p, t, i);
    }
  }

  lemma StrandedEarlier(platformOf: PlatformOf, init: seq<Section>, section: Section, p: Ticker, t: Ticker, i: nat)
    requires i < |init|
    ensures StrandedForGoodAt(platformOf, init + [section], p, t, i)
       <==> (StrandedForGoodAt(platformOf, init, p, t, i)
             && t !in Recovered(platformOf, Run(platformOf, init), section, p))
  {
    var all, n := init + [section], |init|;
    assert all[..n] == init && all[n] == section;
    assert forall j :: 0 <= j < n ==> all[..j] == init[..j] && all[j] == init[j];
  }

  /** Such a run: the token is activated between the two sections of its platform's registration. */
  lemma InterleavedRegistrationLosesToken(platformOf: PlatformOf, platform: Coin, token: Coin)
    requires IsPlatform(platformOf, platform.ticker) && IsTokenOf(platformOf, token.ticker, platform.ticker)
    ensures var run := [Inserted(platform), TokenAdded(token), Indexed(platform)];
            token.ticker in AfterRemove(platformOf, Run(platformOf, run), platform).coins
  {
    var run := [Inserted(platform), TokenAdded(token), Indexed(platform)];
    assert run[..1][..0] == [];
    assert Run(platformOf, run[..1]) == AfterInsert(EMPTY_REGISTRY, platform);
    assert StrandedForGoodAt(platformOf, run, platform.ticker, token.ticker, 1);
    TokenIsLeftBehindIff(platformOf, run, platform, token.ticker);
  }

  // ---------- exactness over serial runs ----------

  /** Token sets are kept for exactly the platforms that are registered, every coin has one, and each is exact. */
  ghost predicate Exact(platformOf: PlatformOf, s: Registry) {
    && Keyed(s)
    && (forall p :: p in s.tokens ==>
         p in s.coins && IsPlatform(platformOf, p) && s.tokens[p] == Dependents(platformOf, s, p))
    && (forall t :: t in s.coins ==> platformOf(t) in s.tokens)
  }

  lemma ExactIsSafe(platformOf: PlatformOf, s: Registry)
    requires Exact(platformOf, s)
    ensures Safe(platformOf, s)
  {
  }

  /** Calls that add a coin must find the set it belongs to, or create it. */
  ghost predicate Allowed(platformOf: PlatformOf, s: Registry, call: Call) {
    match call
    case Section(TokenAdded(coin)) => coin.ticker in s.coins || platformOf(coin.ticker) in s.tokens
    case Register(coin) => coin.ticker in s.coins || IsPlatform(platformOf, coin.ticker)
    case Section(Inserted(coin)) => coin.ticker in s.coins
    case Section(Indexed(coin)) => coin.ticker in s.coins || !IsPlatform(platformOf, coin.ticker)
    case _ => true
  }

  /** A call keeps the registry exact if and only if it is allowed. */
  lemma StepKeepsExactIff(platformOf: PlatformOf, s: Registry, call: Call)
    requires Exact(platformOf, s)
    requires call.Section? ==> RespectsPlatforms(platformOf, call.section)
    ensures Exact(platformOf, SerialStep(platformOf, s, call)) <==> Allowed(platformOf, s, call)
  {
    match call {
      case Section(TokenAdded(coin)) => TokenAddedIff(platformOf, s, coin);
      case Section(PlatformAdded(platform, tokens, nft)) => PlatformAddedIsExact(platformOf, s, platform, tokens, nft);
      case Section(Removed(coin)) => RemovedIsExact(platformOf, s, coin);
      case Section(Inserted(coin)) =>
        if coin.ticker !in s.coins {
          UnindexedCoinIsNotExact(platformOf, s, AfterInsert(s, coin), coin.ticker);
        }
      case Register(coin) => RegisterIff(platformOf, s, coin);
      case Section(Indexed(coin)) =>
        if coin.ticker in s.coins {
          assert AfterIndex(platformOf, s, coin).tokens == s.tokens;
        }
      case Section(AvailabilitySet(ticker, available)) =>
        var after := AfterSetAvailable(platformOf, s, ticker, available);
        assert after.coins.Keys == s.coins.Keys;
        forall p ensures Dependents(platformOf, after, p) == Dependents(platformOf, s, p) {
        }
    }
  }

  lemma UnindexedCoinIsNotExact(platformOf: PlatformOf, s: Registry, after: Registry, t: Ticker)
    requires Exact(platformOf, s) && t !in s.coins
    requires t in after.coins && after.tokens == s.tokens
    ensures !Exact(platformOf, after)
  {
    var p := platformOf(t);
    if p in s.tokens {
      assert t !in Dependents(platformOf, s, p) && t in Dependents(platformOf, after, p);
    }
  }

  lemma TokenAddedIff(platformOf: PlatformOf, s: Registry, coin: Coin)
    requires Exact(platformOf, s)
    ensures Exact(platformOf, AfterAddToken(platformOf, s, coin)) <==>
        coin.ticker in s.coins || platformOf(coin.ticker) in s.tokens
  {
    var after, q := AfterAddToken(platformOf, s, coin), platformOf(coin.ticker);
    if coin.ticker !in s.coins {
      if q in s.tokens {
        forall p | p in after.tokens ensures after.tokens[p] == Dependents(platformOf, after, p) {
          assert s.tokens[p] == Dependents(platformOf, s, p);
        }
      } else {
        assert coin.ticker in after.coins;
      }
    }
  }

  lemma RegisterIff(platformOf: PlatformOf, s: Registry, coin: Coin)
    requires Exact(platformOf, s)
    ensures Exact(platformOf, SerialStep(platformOf, s, Register(coin))) <==>
        coin.ticker in s.coins || IsPlatform(platformOf, coin.ticker)
  {
    var after, q := SerialStep(platformOf, s, Register(coin)), platformOf(coin.ticker);
    if coin.ticker !in s.coins {
      if q == coin.ticker {
        assert Dependents(platformOf, s, q) == {} by {
          assert q !in s.tokens;
        }
        forall p | p in after.tokens ensures after.tokens[p] == Dependents(platformOf, after, p) {
          assert p != q ==> s.tokens[p] == Dependents(platformOf, s, p);
          assert Dependents(platformOf, after, p) == Dependents(platformOf, s, p);
        }
      } else {
        UnindexedCoinIsNotExact(platformOf, s, after, coin.ticker);
      }
    }
  }

  lemma PlatformAddedIsExact(platformOf: PlatformOf, s: Registry, platform: Coin, tokens: seq<Coin>, nft: Option<Coin>)
    requires Exact(platformOf, s)
    requires RespectsPlatforms(platformOf, PlatformAdded(platform, tokens, nft))
    ensures Exact(platformOf, AfterAddPlatform(platformOf, s, platform, tokens, nft))
  {
    var after, q := AfterAddPlatform(platformOf, s, platform, tokens, nft), platform.ticker;
    if Lookup(platformOf, s, q) == None {
      ActivationAdds(platformOf, s, platform, tokens, nft);
      TokenSetsGrow(platformOf, s, after, q, TickersAdded(tokens, nft));
    }
  }

  lemma TokenSetsGrow(platformOf: PlatformOf, s: Registry, after: Registry, q: Ticker, added: set<Ticker>)
    requires Exact(platformOf, s) && IsPlatform(platformOf, q)
    requires forall t :: t in added ==> IsTokenOf(platformOf, t, q)
    requires Keyed(after) && after.coins.Keys == s.coins.Keys + {q} + added
    requires after.tokens == s.tokens[q := TokensOf(s, q) + added]
    ensures Exact(platformOf, after)
  {
    assert TokensOf(s, q) == Dependents(platformOf, s, q) by {
      if q !in s.tokens {
        assert forall t :: t in s.coins ==> platformOf(t) != q;
      }
    }
    assert Dependents(platformOf, after, q) == Dependents(platformOf, s, q) + added;
    forall p | p in s.tokens && p != q ensures after.tokens[p] == Dependents(platformOf, after, p) {
      assert Dependents(platformOf, after, p) == Dependents(platformOf, s, p);
    }
  }

  lemma RemovedIsExact(platformOf: PlatformOf, s: Registry, coin: Coin)
    requires Exact(platformOf, s)
    ensures Exact(platformOf, AfterRemove(platformOf, s, coin))
  {
    var after, t, q := AfterRemove(platformOf, s, coin), coin.ticker, platformOf(coin.ticker);
    if t == q {
      RemovedPlatformLeavesNoToken(platformOf, s, coin);
    }
    forall p | p in after.tokens ensures after.tokens[p] == Dependents(platformOf, after, p) {
      assert s.tokens[p] == Dependents(platformOf, s, p);
    }
  }

  ghost function SerialRun(platformOf: PlatformOf, calls: seq<Call>): Registry {
    if calls == [] then EMPTY_REGISTRY
    else SerialStep(platformOf, SerialRun(platformOf, calls[..|calls| - 1]), calls[|calls| - 1])
  }

  /** Over a serial run whose calls are all allowed when they start, every token set is exact. */
  lemma {:induction false} SerialRunIsExact(platformOf: PlatformOf, calls: seq<Call>)
    requires forall i :: 0 <= i < |calls| && calls[i].Section? ==> RespectsPlatforms(platformOf, calls[i].section)
    requires forall i :: 0 <= i < |calls| ==> Allowed(platformOf, SerialRun(platformOf, calls[..i]), calls[i])
    ensures Exact(platformOf, SerialRun(platformOf, calls))
  {
    if calls != [] {
      var last := |calls| - 1;
      forall i | 0 <= i < last
        ensures Allowed(platformOf, SerialRun(platformOf, calls[..last][..i]), calls[..last][i])
      {
        assert calls[..last][..i] == calls[..i];
      }
      SerialRunIsExact(platformOf, calls[..last]);
      StepKeepsExactIff(platformOf, SerialRun(platformOf, calls[..last]), calls[last]);
    }
  }

  // ---------- what a removal does ----------

  /** The instances a step from `s` to `after` takes out of the registry. */
  ghost function RemovedInstances(s: Registry, after: Registry): set<Coin> {
    Instances(s.coins, s.coins.Keys - after.coins.Keys)
  }

  /** An exact registry has no orphans, so removing a platform takes every coin that lives on it, and nothing else. */
  lemma RemovedPlatformLeavesNoToken(platformOf: PlatformOf, s: Registry, platform: Coin)
    requires Exact(platformOf, s) && IsPlatform(platformOf, platform.ticker)
    ensures var after := AfterRemove(platformOf, s, platform);
            && (forall t :: t in after.coins <==> t in s.coins && platformOf(t) != platform.ticker)
            && platform.ticker !in after.tokens
  {
    var after := AfterRemove(platformOf, s, platform);
    ExactIsSafe(platformOf, s);
    RemovalLeavesOrphans(platformOf, s, platform);
    assert Orphans(platformOf, s, platform.ticker) == {};
    forall t | t in after.coins ensures platformOf(t) != platform.ticker {
      assert t !in Dependents(platformOf, after, platform.ticker);
    }
  }

  ghost function DependentsToRemove(platformOf: PlatformOf, s: Registry, t: Ticker): set<Ticker> {
    if platformOf(t) == t then TokensOf(s, t) else {}
  }

  /** A removal disables the registered dependents, and the instance it was called with. */
  lemma RemovalDisables(platformOf: PlatformOf, s: Registry, coin: Coin)
    ensures AfterRemove(platformOf, s, coin).disabled
         == s.disabled + multiset(Instances(s.coins, DependentsToRemove(platformOf, s, coin.ticker))) + multiset{coin}
  {
    assert Instances(s.coins, {}) == {};
  }

  lemma RemovalTakes(platformOf: PlatformOf, s: Registry, coin: Coin)
    requires Exact(platformOf, s)
    ensures var t := coin.ticker;
            var dependents := DependentsToRemove(platformOf, s, t);
            && t !in dependents
            && RemovedInstances(s, AfterRemove(platformOf, s, coin)) == Instances(s.coins, dependents + {t})
            && (t !in s.coins ==> dependents == {})
  {
    var t, after := coin.ticker, AfterRemove(platformOf, s, coin);
    var dependents := DependentsToRemove(platformOf, s, t);
    assert forall k :: k in s.coins.Keys - after.coins.Keys <==> k in s.coins && k in dependents + {t};
  }

  /** Each removed coin is disabled exactly once, if and only if the caller removes the instance that is registered. */
  lemma RemovedCoinsAreDisabledOnceIff(platformOf: PlatformOf, s: Registry, coin: Coin)
    requires Exact(platformOf, s)
    ensures (var after := AfterRemove(platformOf, s, coin);
             after.disabled == s.disabled + multiset(RemovedInstances(s, after)))
       <==> (coin.ticker in s.coins && s.coins[coin.ticker].coin == coin)
  {
    var after, t := AfterRemove(platformOf, s, coin), coin.ticker;
    var dependents := DependentsToRemove(platformOf, s, t);
    RemovalDisables(platformOf, s, coin);
    RemovalTakes(platformOf, s, coin);
    InstancesOfOneMore(s.coins, dependents, t);
    var before := s.disabled + multiset(Instances(s.coins, dependents));
    if t in s.coins {
      assert s.disabled + multiset(RemovedInstances(s, after)) == before + multiset{s.coins[t].coin};
      OneMoreEqualIff(before, coin, s.coins[t].coin);
    } else {
      assert s.disabled + multiset(RemovedInstances(s, after)) == before;
      assert (before + multiset{coin})[coin] == before[coin] + 1;
    }
  }

  lemma OneMoreEqualIff(m: multiset<Coin>, a: Coin, b: Coin)
    ensures m + multiset{a} == m + multiset{b} <==> a == b
  {
    assert (m + multiset{a})[a] == m[a] + 1;
    if a != b {
      assert (m + multiset{b})[a] == m[a];
    }
  }

  /** Making a platform passive and activating it again keeps its tokens, and adds those of the new activation. */
  lemma PassivePlatformKeepsTokens(platformOf: PlatformOf, s: Registry, platform: Coin, tokens: seq<Coin>)
    requires IsPlatform(platformOf, platform.ticker) && Keyed(s) && platform.ticker in s.coins
    ensures var p := platform.ticker;
            var passive := AfterSetAvailable(platformOf, s, p, false);
            var again := AfterAddPlatform(platformOf, passive, platform, tokens, None);
            && !IsAvailable(platformOf, passive.coins[p])
            && again.coins == InsertMissing(s.coins[p := s.coins[p].(available := true)], tokens)
            && TokensOf(again, p) == TokensOf(s, p) + TickersOf(tokens)
            && again.disabled == s.disabled
  {
    var p := platform.ticker;
    var passive := AfterSetAvailable(platformOf, s, p, false);
    assert passive.coins[p := passive.coins[p].(available := true)] == s.coins[p := s.coins[p].(available := true)];
  }

  // ---------- what callers find ----------

  /** Making a platform passive hides it, making it available shows it; no other ticker is affected. Tokens are not. */
  lemma AvailabilityIsOfPlatforms(platformOf: PlatformOf, s: Registry, p: Ticker, available: bool, t: Ticker)
    requires Keyed(s)
    ensures var after := AfterSetAvailable(platformOf, s, p, available);
            && (platformOf(p) != p || p !in s.coins ==> after == s)
            && (platformOf(p) == p && p in s.coins ==>
                  Lookup(platformOf, after, p) == if available then Some(s.coins[p].coin) else None)
            && (t != p ==> Lookup(platformOf, after, t) == Lookup(platformOf, s, t))
  {
  }

  /** Only registered coins are found: tokens always, platforms unless they are passive. */
  lemma FoundIff(platformOf: PlatformOf, s: Registry, t: Ticker)
    requires Keyed(s)
    ensures Lookup(platformOf, s, t).Some? <==> t in s.coins && (platformOf(t) != t || s.coins[t].available)
    ensures Lookup(platformOf, s, t).Some? ==> Lookup(platformOf, s, t).value == s.coins[t].coin
  {
  }

  /**
   A call that is refused changes nothing: adding or registering a taken ticker, activating a platform that is found.
   */
  lemma RefusedCallsChangeNothing(platformOf: PlatformOf, s: Registry, coin: Coin, tokens: seq<Coin>, nft: Option<Coin>)
    requires Keyed(s)
    ensures coin.ticker in s.coins ==> AfterAddToken(platformOf, s, coin) == s && AfterInsert(s, coin) == s
    ensures Lookup(platformOf, s, coin.ticker).Some? ==> AfterAddPlatform(platformOf, s, coin, tokens, nft) == s
  {
  }

  /**
   A registered coin is found, also between the two sections, and indexing it affects neither coins nor sets that
   exist.
   */
  lemma RegisteredCoinIsFound(platformOf: PlatformOf, s: Registry, coin: Coin, t: Ticker)
    requires coin.ticker !in s.coins
    ensures Lookup(platformOf, AfterInsert(s, coin), t) == if t == coin.ticker then Some(coin)
        else Lookup(platformOf, s, t)
    ensures AfterInsert(s, coin).tokens == s.tokens
    ensures var after := AfterIndex(platformOf, s, coin);
            && after.coins == s.coins
            && (t in s.tokens ==> t in after.tokens && after.tokens[t] == s.tokens[t])
            && (t in after.tokens && t !in s.tokens ==> t == coin.ticker && after.tokens[t] == {})
            && (coin.ticker in after.tokens <==> platformOf(coin.ticker) == coin.ticker || coin.ticker in s.tokens)
  {
  }

  /** A token is found once it is added, and no other ticker is affected. */
  lemma AddedTokenIsFound(platformOf: PlatformOf, s: Registry, coin: Coin, t: Ticker)
    requires coin.ticker !in s.coins
    ensures Lookup(platformOf, AfterAddToken(platformOf, s, coin), t)
         == if t == coin.ticker then Some(coin) else Lookup(platformOf, s, t)
  {
  }

  ghost predicate IsFirstWithTicker(tokens: seq<Coin>, i: nat, t: Ticker) {
    i < |tokens| && tokens[i].ticker == t && forall j :: 0 <= j < i ==> tokens[j].ticker != t
  }

  lemma {:induction false} InsertMissingFirst(coins: map<Ticker, Entry>, added: seq<Coin>, i: nat, t: Ticker)
    requires t !in coins && IsFirstWithTicker(added, i, t)
    ensures t in InsertMissing(coins, added) && InsertMissing(coins, added)[t] == Entry(added[i], true)
  {
    var last := |added| - 1;
    if i < last {
      assert IsFirstWithTicker(added[..last], i, t);
      InsertMissingFirst(coins, added[..last], i, t);
    } else {
      InsertMissingAdds(coins, added[..last]);
    }
  }

  /**
   After a platform is activated it is found, in its old instance if it was passive. So are the tokens it was activated
   with: those registered before in their old instance, new ones in the first given. A global NFT replaces whatever was
   registered under its ticker. Nothing else changes.
   */
  lemma ActivatedPlatformIsFound(platformOf: PlatformOf, s: Registry, platform: Coin, tokens: seq<Coin>,
                                 nft: Option<Coin>,
                                 t: Ticker, i: nat)
    requires Keyed(s) && RespectsPlatforms(platformOf, PlatformAdded(platform, tokens, nft))
    requires Lookup(platformOf, s, platform.ticker) == None
    ensures var found := Lookup(platformOf, AfterAddPlatform(platformOf, s, platform, tokens, nft), t);
            if t == platform.ticker then found == Some(if t in s.coins then s.coins[t].coin else platform)
            else if nft.Some? && t == nft.value.ticker then found == nft
            else if t in s.coins then found == Lookup(platformOf, s, t)
            else if IsFirstWithTicker(tokens, i, t) then found == Some(tokens[i])
            else t !in TickersOf(tokens) ==> found == None
  {
    var p := platform.ticker;
    var activated := s.coins[p := if p in s.coins then s.coins[p].(available := true) else Entry(platform, true)];
    InsertMissingAdds(activated, tokens);
    if t !in activated && IsFirstWithTicker(tokens, i, t) {
      InsertMissingFirst(activated, tokens, i, t);
    }
  }

  /** A removed coin is no longer found, nor are the indexed tokens of a removed platform; everything else is. */
  lemma RemovedCoinIsNotFound(platformOf: PlatformOf, s: Registry, coin: Coin, t: Ticker)
    ensures Lookup(platformOf, AfterRemove(platformOf, s, coin), t)
         == if t == coin.ticker || t in DependentsToRemove(platformOf, s, coin.ticker) then None
            else Lookup(platformOf, s, t)
  {
  }

  // ---------- who is told ----------

  /**
   Coins are disabled and platforms notified by removals only. A platform is told about a token of it that is removed.
   */
  lemma OnlyRemovalsAreTold(platformOf: PlatformOf, s: Registry, section: Section)
    ensures var after := Step(platformOf, s, section);
            && (!section.Removed? ==> after.disabled == s.disabled && after.notified == s.notified)
            && (section.Removed? ==>
                  var t := section.coin.ticker;
                  var p := platformOf(t);
                  after.notified == s.notified + if t != p && p in s.coins then multiset{(s.coins[p].coin, t)}
                      else multiset{})
  {
  }

  /**
   How often each coin object is disabled: once if it is indexed under the removed platform, and once if it is the one
   passed.
   */
  lemma TimesDisabled(platformOf: PlatformOf, s: Registry, coin: Coin, c: Coin)
    requires Keyed(s)
    ensures var p := coin.ticker;
            var dependent := platformOf(p) == p && p in s.tokens && c.ticker in s.tokens[p];
            var registered := c.ticker in s.coins && s.coins[c.ticker].coin == c;
            AfterRemove(platformOf, s, coin).disabled[c]
            == s.disabled[c] + (if dependent && registered then 1 else 0) + (if c == coin then 1 else 0)
  {
    RemovalDisables(platformOf, s, coin);
    var dependents := Instances(s.coins, DependentsToRemove(platformOf, s, coin.ticker));
    assert c in dependents <==> c.ticker in DependentsToRemove(platformOf, s, coin.ticker)
                                && c.ticker in s.coins && s.coins[c.ticker].coin == c;
  }
}
