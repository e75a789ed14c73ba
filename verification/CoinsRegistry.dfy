/**
 The registry of activated coins: a map of coins and, for every platform, the set of its tokens.

 The first part specifies every operation as a function on `Registry` values; the class
 `CoinsContext` is the registry that updates its two maps in place. `on_disabled` and
 `on_token_deactivated` calls are recorded in the two logs.
 */
module CoinsRegistry {
  import opened Common

  type Ticker = string

  /** One activated coin object. Two activations of the same ticker are different instances. */
  datatype Coin = Coin(ticker: Ticker, instance: nat)

  /** The ticker of the platform a ticker lives on; a platform coin lives on itself. */
  type PlatformOf = Ticker -> Ticker

  datatype Entry = Entry(coin: Coin, available: bool)

  datatype Registry = Registry(
    coins: map<Ticker, Entry>,
    tokens: map<Ticker, set<Ticker>>,
    disabled: multiset<Coin>,
    notified: multiset<(Coin, Ticker)>)

  const EMPTY_REGISTRY := Registry(map[], map[], multiset{}, multiset{})

  predicate IsPlatform(platformOf: PlatformOf, ticker: Ticker) {
    platformOf(ticker) == ticker
  }

  /** Only a platform coin can be passive. */
  predicate IsAvailable(platformOf: PlatformOf, entry: Entry) {
    !IsPlatform(platformOf, entry.coin.ticker) || entry.available
  }

  function TokensOf(s: Registry, platform: Ticker): set<Ticker> {
    if platform in s.tokens then s.tokens[platform] else {}
  }

  /** Entries are stored under their own ticker. */
  ghost predicate Keyed(s: Registry) {
    forall t :: t in s.coins ==> s.coins[t].coin.ticker == t
  }

  // ---------- specification of the operations ----------

  ghost function AfterAddToken(platformOf: PlatformOf, s: Registry, coin: Coin): Registry {
    if coin.ticker in s.coins then s
    else
      var p := platformOf(coin.ticker);
      s.(coins := s.coins[coin.ticker := Entry(coin, true)],
         tokens := if p in s.tokens then s.tokens[p := s.tokens[p] + {coin.ticker}] else s.tokens)
  }

  /** Adds the coins whose tickers are not taken yet, the first of several with one ticker. */
  ghost function InsertMissing(coins: map<Ticker, Entry>, added: seq<Coin>): map<Ticker, Entry> {
    if added == [] then coins
    else
      var rest := InsertMissing(coins, added[..|added| - 1]);
      var coin := added[|added| - 1];
      if coin.ticker in rest then rest else rest[coin.ticker := Entry(coin, true)]
  }

  ghost function TickersOf(added: seq<Coin>): set<Ticker> {
    set i | 0 <= i < |added| :: added[i].ticker
  }

  ghost function AfterAddPlatform(platformOf: PlatformOf, s: Registry, platform: Coin, added: seq<Coin>,
                                  nft: Option<Coin>): Registry {
    var p := platform.ticker;
    if p in s.coins && IsAvailable(platformOf, s.coins[p]) then s
    else
      var activated := s.coins[p := if p in s.coins then s.coins[p].(available := true) else Entry(platform, true)];
      var withTokens := InsertMissing(activated, added);
      var tickers := if nft.Some? then TickersOf(added) + {nft.value.ticker} else TickersOf(added);
      s.(coins := if nft.Some? then withTokens[nft.value.ticker := Entry(nft.value, true)] else withTokens,
         tokens := s.tokens[p := TokensOf(s, p) + tickers])
  }

  /** The registered instances of the given tickers. */
  ghost function Instances(coins: map<Ticker, Entry>, tickers: set<Ticker>): set<Coin> {
    set t | t in tickers && t in coins :: coins[t].coin
  }

  ghost function AfterRemove(platformOf: PlatformOf, s: Registry, coin: Coin): Registry {
    var t, p := coin.ticker, platformOf(coin.ticker);
    if t == p then
      s.(coins := s.coins - TokensOf(s, t) - {t},
         tokens := s.tokens - {t},
         disabled := s.disabled + multiset(Instances(s.coins, TokensOf(s, t))) + multiset{coin})
    else
      s.(coins := s.coins - {t},
         tokens := if p in s.tokens then s.tokens[p := s.tokens[p] - {t}] else s.tokens,
         disabled := s.disabled + multiset{coin},
         notified := if p in s.coins then s.notified + multiset{(s.coins[p].coin, t)} else s.notified)
  }

  /** The two locked sections of registering a standalone coin. */
  ghost function AfterInsert(s: Registry, coin: Coin): Registry {
    if coin.ticker in s.coins then s else s.(coins := s.coins[coin.ticker := Entry(coin, true)])
  }

  ghost function AfterIndex(platformOf: PlatformOf, s: Registry, coin: Coin): Registry {
    if IsPlatform(platformOf, coin.ticker) then s.(tokens := s.tokens[coin.ticker := TokensOf(s, coin.ticker)]) else s
  }

  ghost function AfterSetAvailable(platformOf: PlatformOf, s: Registry, ticker: Ticker, available: bool): Registry {
    if ticker in s.coins && IsPlatform(platformOf, s.coins[ticker].coin.ticker)
    then s.(coins := s.coins[ticker := s.coins[ticker].(available := available)])
    else s
  }

  /** What callers find under a ticker: a registered coin, unless it is passive. */
  ghost function Lookup(platformOf: PlatformOf, s: Registry, ticker: Ticker): Option<Coin> {
    if ticker in s.coins && IsAvailable(platformOf, s.coins[ticker]) then Some(s.coins[ticker].coin) else None
  }

  lemma InstancesOfOneMore(coins: map<Ticker, Entry>, tickers: set<Ticker>, t: Ticker)
    requires forall k :: k in coins ==> coins[k].coin.ticker == k
    requires t !in tickers
    ensures multiset(Instances(coins, tickers + {t}))
         == multiset(Instances(coins, tickers)) + if t in coins then multiset{coins[t].coin} else multiset{}
  {
    if t in coins {
      assert Instances(coins, tickers + {t}) == Instances(coins, tickers) + {coins[t].coin};
    } else {
      assert Instances(coins, tickers + {t}) == Instances(coins, tickers);
    }
  }

  lemma WithoutOneMore(coins: map<Ticker, Entry>, tickers: set<Ticker>, t: Ticker)
    requires t !in tickers
    ensures coins - (tickers + {t}) == if t in coins then (coins - tickers) - {t} else coins - tickers
    ensures t in coins ==> t in coins - tickers && (coins - tickers)[t] == coins[t]
  {
  }

  // ---------- the registry updated in place ----------

  class CoinsContext {
    const platformOf: PlatformOf
    var coins: map<Ticker, Entry>
    var platformCoinTokens: map<Ticker, set<Ticker>>
    var disabled: multiset<Coin>
    var notified: multiset<(Coin, Ticker)>

    ghost function State(): Registry
      reads this
    {
      Registry(coins, platformCoinTokens, disabled, notified)
    }

    constructor (platformOf: PlatformOf)
      ensures this.platformOf == platformOf && State() == EMPTY_REGISTRY
    {
      this.platformOf := platformOf;
      coins, platformCoinTokens, disabled, notified := map[], map[], multiset{}, multiset{};
    }

    /** Only enabled coins are found, not passive ones. */
    method Find(ticker: Ticker) returns (found: Option<Coin>)
      ensures found == Lookup(platformOf, State(), ticker)
    {
      if ticker in coins && IsAvailable(platformOf, coins[ticker]) {
        return Some(coins[ticker].coin);
      }
      found := None;
    }

    method AddToken(coin: Coin) returns (ok: bool)
      modifies this
      ensures ok == (coin.ticker !in old(coins))
      ensures State() == AfterAddToken(platformOf, old(State()), coin)
    {
      if coin.ticker in coins {
        return false;
      }
      var p := platformOf(coin.ticker);
      if p in platformCoinTokens {
        platformCoinTokens := platformCoinTokens[p := platformCoinTokens[p] + {coin.ticker}];
      }
      coins := coins[coin.ticker := Entry(coin, true)];
      ok := true;
    }

    method AddPlatformWithTokens(platform: Coin, tokens: seq<Coin>, globalNft: Option<Coin>) returns (ok: bool)
      modifies this
      ensures ok == !(platform.ticker in old(coins) && IsAvailable(platformOf, old(coins)[platform.ticker]))
      ensures State() == AfterAddPlatform(platformOf, old(State()), platform, tokens, globalNft)
    {
      var p := platform.ticker;
      if p in coins {
        if IsAvailable(platformOf, coins[p]) {
          return false;
        }
        coins := coins[p := coins[p].(available := true)];
      } else {
        coins := coins[p := Entry(platform, true)];
      }
      var tickers := InsertTokens(tokens);
      if globalNft.Some? {
        tickers := tickers + {globalNft.value.ticker};
        coins := coins[globalNft.value.ticker := Entry(globalNft.value, true)];
      }
      var known := if p in platformCoinTokens then platformCoinTokens[p] else {};
      platformCoinTokens := platformCoinTokens[p := known + tickers];
      ok := true;
    }

    /** Registers the tokens that are not there yet; all of them are to be indexed. */
    method InsertTokens(tokens: seq<Coin>) returns (tickers: set<Ticker>)
      modifies this`coins
      ensures tickers == TickersOf(tokens)
      ensures coins == InsertMissing(old(coins), tokens)
    {
      tickers := {};
      for i := 0 to |tokens|
        invariant tickers == TickersOf(tokens[..i])
        invariant coins == InsertMissing(old(coins), tokens[..i])
      {
        assert tokens[..i + 1][..i] == tokens[..i];
        tickers := tickers + {tokens[i].ticker};
        if tokens[i].ticker !in coins {
          coins := coins[tokens[i].ticker := Entry(tokens[i], true)];
        }
      }
      assert tokens[..|tokens|] == tokens;
    }

    /** Drops the given tickers and disables whatever was registered under them. */
    method DisableTokens(tickers: set<Ticker>)
      requires Keyed(State())
      modifies this`coins, this`disabled
      ensures coins == old(coins) - tickers
      ensures disabled == old(disabled) + multiset(Instances(old(coins), tickers))
    {
      var rest := tickers;
      ghost var done: set<Ticker>, before, log := {}, coins, disabled;
      while rest != {}
        invariant done + rest == tickers && done !! rest
        invariant coins == before - done
        invariant disabled == log + multiset(Instances(before, done))
        decreases rest
      {
        var token :| token in rest;
        InstancesOfOneMore(before, done, token);
        WithoutOneMore(before, done, token);
        if token in coins {
          disabled := disabled + multiset{coins[token].coin};
          coins := coins - {token};
        }
        rest, done := rest - {token}, done + {token};
      }
      assert done == tickers;
    }

    method RemoveCoin(coin: Coin)
      requires Keyed(State())
      modifies this
      ensures State() == AfterRemove(platformOf, old(State()), coin)
    {
      var t, p := coin.ticker, platformOf(coin.ticker);
      if t == p {
        var toRemove := if t in platformCoinTokens then platformCoinTokens[t] else {};
        platformCoinTokens := platformCoinTokens - {t};
        DisableTokens(toRemove);
      } else {
        if p in platformCoinTokens {
          platformCoinTokens := platformCoinTokens[p := platformCoinTokens[p] - {t}];
        }
        if p in coins {
          notified := notified + multiset{(coins[p].coin, t)};
        }
      }
      coins := coins - {t};
      disabled := disabled + multiset{coin};
    }

    /** First locked section of registering a coin; `ok` is whether the ticker was free. */
    method InsertRegistered(coin: Coin) returns (ok: bool)
      modifies this
      ensures ok == (coin.ticker !in old(coins))
      ensures State() == AfterInsert(old(State()), coin)
    {
      ok := coin.ticker !in coins;
      if ok {
        coins := coins[coin.ticker := Entry(coin, true)];
      }
    }

    /** Second locked section; other calls may have run since the first. */
    method IndexPlatform(coin: Coin)
      modifies this
      ensures State() == AfterIndex(platformOf, old(State()), coin)
    {
      if IsPlatform(platformOf, coin.ticker) && coin.ticker !in platformCoinTokens {
        platformCoinTokens := platformCoinTokens[coin.ticker := {}];
      }
    }

    method UpdateIsAvailable(ticker: Ticker, to: bool)
      modifies this
      ensures State() == AfterSetAvailable(platformOf, old(State()), ticker, to)
    {
      if ticker in coins && IsPlatform(platformOf, coins[ticker].coin.ticker) {
        coins := coins[ticker := coins[ticker].(available := to)];
      }
    }
  }
}
