/** Per-ticker totals over a list of address balances, and why their order does not matter. */
module BalanceTotals {
  import opened HdScan

  function Plus(a: CoinBalance, b: CoinBalance): CoinBalance {
    CoinBalance(a.spendable + b.spendable, a.unspendable + b.unspendable)
  }

  const NO_BALANCE := CoinBalance(0.0, 0.0)

  function Get(m: BalanceMap, ticker: string): CoinBalance {
    if ticker in m then m[ticker] else NO_BALANCE
  }

  /** Reference meaning of a total: the tickers of the listed balances and, for each ticker, the sum over the list. */
  ghost function Tickers(entries: seq<AddressBalance>): set<string> {
    set i, t | 0 <= i < |entries| && t in entries[i].balance :: t
  }

  ghost function Sum(entries: seq<AddressBalance>, ticker: string): CoinBalance {
    if entries == [] then CoinBalance(0.0, 0.0)
    else
      var rest := Sum(entries[1..], ticker);
      if ticker !in entries[0].balance then rest
      else
        var balance := entries[0].balance[ticker];
        CoinBalance(balance.spendable + rest.spendable, balance.unspendable + rest.unspendable)
  }

  ghost predicate IsTotal(total: BalanceMap, entries: seq<AddressBalance>) {
    && total.Keys == Tickers(entries)
    && forall t :: t in total ==> total[t] == Sum(entries, t)
  }

  /** Adds one balance map into another, ticker by ticker, in whatever order the map hands them out. */
  method Add(total: BalanceMap, other: BalanceMap) returns (r: BalanceMap)
    ensures r.Keys == total.Keys + other.Keys
    ensures forall t :: t in r ==> r[t].spendable == Get(total, t).spendable + Get(other, t).spendable
    ensures forall t :: t in r ==> r[t].unspendable == Get(total, t).unspendable + Get(other, t).unspendable
  {
    r := total;
    var rest := other.Keys;
    while rest != {}
      invariant rest <= other.Keys
      invariant r.Keys == total.Keys + (other.Keys - rest)
      invariant forall t :: t in r ==> r[t] == Plus(Get(total, t), if t in rest then NO_BALANCE else Get(other, t))
      decreases rest
    {
      var ticker :| ticker in rest;
      r := r[ticker := Plus(Get(r, ticker), other[ticker])];
      rest := rest - {ticker};
    }
  }

  /** The running total over a report. */
  method Total(entries: seq<AddressBalance>) returns (total: BalanceMap)
    ensures IsTotal(total, entries)
  {
    total := map[];
    for i := 0 to |entries|
      invariant IsTotal(total, entries[..i])
    {
      assert entries[..i + 1] == entries[..i] + [entries[i]];
      var more := Add(total, entries[i].balance);
      TotalOfOneMore(total, entries[..i], entries[i], more);
      total := more;
    }
    assert entries[..|entries|] == entries;
  }

  lemma TotalOfOneMore(total: BalanceMap, entries: seq<AddressBalance>, entry: AddressBalance, more: BalanceMap)
    requires IsTotal(total, entries)
    requires more.Keys == total.Keys + entry.balance.Keys
    requires forall t :: t in more ==> more[t] == Plus(Get(total, t), Get(entry.balance, t))
    ensures IsTotal(more, entries + [entry])
  {
    TickersOfOneMore(entries, entry);
    SumOutsideTickers(entries);
    forall t | t in more ensures more[t] == Sum(entries + [entry], t) {
      SumOfOneMore(entries, entry, t);
    }
  }

  lemma SumOfOneMore(entries: seq<AddressBalance>, entry: AddressBalance, ticker: string)
    ensures Sum(entries + [entry], ticker) == Plus(Sum(entries, ticker), Get(entry.balance, ticker))
  {
    SumIsAdditive(entries, [entry], ticker);
    SumOfOne(entry, ticker);
  }

  lemma TickersOfOneMore(entries: seq<AddressBalance>, entry: AddressBalance)
    ensures Tickers(entries + [entry]) == Tickers(entries) + entry.balance.Keys
  {
    var more := entries + [entry];
    forall t ensures t in Tickers(more) <==> t in Tickers(entries) || t in entry.balance {
      if t in Tickers(entries) {
        var i :| 0 <= i < |entries| && t in entries[i].balance;
        assert t in more[i].balance;
      } else if t in entry.balance {
        assert t in more[|entries|].balance;
      }
    }
  }

  lemma {:induction false} SumOutsideTickers(entries: seq<AddressBalance>)
    ensures forall t :: t !in Tickers(entries) ==> Sum(entries, t) == NO_BALANCE
  {
    if entries != [] {
      SumOutsideTickers(entries[1..]);
      forall t | t !in Tickers(entries) ensures t !in Tickers(entries[1..]) && t !in entries[0].balance {
      }
    }
  }

  /** The sum over two lists is the sum of both, coin by coin. */
  lemma {:induction false} SumIsAdditive(a: seq<AddressBalance>, b: seq<AddressBalance>, ticker: string)
    ensures Sum(a + b, ticker).spendable == Sum(a, ticker).spendable + Sum(b, ticker).spendable
    ensures Sum(a + b, ticker).unspendable == Sum(a, ticker).unspendable + Sum(b, ticker).unspendable
  {
    if a == [] {
      assert a + b == b;
    } else {
      SumIsAdditive(a[1..], b, ticker);
      assert (a + b)[1..] == a[1..] + b;
    }
  }

  /** The sum over one address is its balance, and nothing for a ticker it does not list. */
  lemma SumOfOne(entry: AddressBalance, ticker: string)
    ensures Sum([entry], ticker) == if ticker in entry.balance then entry.balance[ticker] else CoinBalance(0.0, 0.0)
  {
    assert [entry][1..] == [];
  }

  lemma {:induction false} SumIsOrderIndependent(a: seq<AddressBalance>, b: seq<AddressBalance>, ticker: string)
    requires multiset(a) == multiset(b)
    ensures Sum(a, ticker) == Sum(b, ticker)
    decreases |a|
  {
    if a == [] {
      assert |multiset(b)| == |b|;
    } else {
      var left, right := TakeOut(a, b);
      SumIsOrderIndependent(a[1..], left + right, ticker);
      EntryAnywhere([], a[0], a[1..], ticker);
      assert [] + ([a[0]] + a[1..]) == a && [] + a[1..] == a[1..];
      EntryAnywhere(left, a[0], right, ticker);
    }
  }

  /** What surrounds the first entry of `a` in a reordering `b` of it. */
  lemma TakeOut(a: seq<AddressBalance>, b: seq<AddressBalance>)
    returns (left: seq<AddressBalance>, right: seq<AddressBalance>)
    requires multiset(a) == multiset(b) && a != []
    ensures b == left + ([a[0]] + right) && multiset(a[1..]) == multiset(left + right)
  {
    var first := a[0];
    assert a == [first] + a[1..];
    assert first in multiset(b);
    var i :| 0 <= i < |b| && b[i] == first;
    left, right := b[..i], b[i + 1..];
    assert b == left + ([first] + right);
    SplitMultiset(left, first, right);
    SplitMultiset([], first, a[1..]);
    assert [] + ([first] + a[1..]) == a && [] + a[1..] == a[1..];
  }

  lemma SplitMultiset(left: seq<AddressBalance>, entry: AddressBalance, right: seq<AddressBalance>)
    ensures multiset(left + right) == multiset(left + ([entry] + right)) - multiset{entry}
  {
    assert multiset(left + ([entry] + right)) == multiset(left + right) + multiset{entry};
  }

  /** One entry contributes its balance wherever it stands. */
  lemma EntryAnywhere(left: seq<AddressBalance>, entry: AddressBalance, right: seq<AddressBalance>, ticker: string)
    ensures var all := left + ([entry] + right);
            && Sum(all, ticker).spendable == Sum([entry], ticker).spendable + Sum(left + right, ticker).spendable
            && Sum(all, ticker).unspendable == Sum([entry], ticker).unspendable + Sum(left + right, ticker).unspendable
  {
    SumIsAdditive(left, [entry] + right, ticker);
    SumIsAdditive([entry], right, ticker);
    SumIsAdditive(left, right, ticker);
  }

  /** However the addresses are ordered, the report's total is the same map. */
  lemma TotalIsOrderIndependent(a: seq<AddressBalance>, b: seq<AddressBalance>, total: BalanceMap)
    requires multiset(a) == multiset(b)
    requires IsTotal(total, a)
    ensures IsTotal(total, b)
  {
    forall t ensures t in Tickers(a) <==> t in Tickers(b) {
      SameTicker(a, b, t);
      SameTicker(b, a, t);
    }
    forall t ensures Sum(a, t) == Sum(b, t) {
      SumIsOrderIndependent(a, b, t);
    }
  }

  lemma SameTicker(a: seq<AddressBalance>, b: seq<AddressBalance>, ticker: string)
    requires multiset(a) == multiset(b)
    ensures ticker in Tickers(a) ==> ticker in Tickers(b)
  {
    if ticker in Tickers(a) {
      var i :| 0 <= i < |a| && ticker in a[i].balance;
      assert a[i] in multiset(b);
    }
  }
}
