/** Paging through the transaction history and through the list of open channels. */
module Pages {
  import opened Common

  type Id = seq<nat>

  /** Index of the first item with the id. */
  function Position<T>(items: seq<T>, idOf: T -> Id, id: Id): (r: Option<nat>)
    ensures r.Some? ==> r.value < |items| && idOf(items[r.value]) == id
    ensures r.Some? ==> forall i :: 0 <= i < r.value ==> idOf(items[i]) != id
    ensures r.None? ==> forall i :: 0 <= i < |items| ==> idOf(items[i]) != id
  {
    if items == [] then None
    else if idOf(items[0]) == id then Some(0)
    else
      match Position(items[1..], idOf, id)
      case None => None
      case Some(i) => Some(i + 1)
  }

  function SkipTake<T>(items: seq<T>, skip: nat, take: nat): seq<T> {
    items[MinNat(skip, |items|)..MinNat(skip + take, |items|)]
  }

  ghost predicate DistinctIds<T>(items: seq<T>, idOf: T -> Id) {
    forall i, j :: 0 <= i < j < |items| ==> idOf(items[i]) != idOf(items[j])
  }

  // ---------- the transaction history ----------

  datatype HistoryRequest = HistoryRequest(fromId: Option<Id>, pageNumber: Option<nat>, limit: nat, max: bool)

  /**
   A request names the last transaction it has seen, or a page number from 1 on; an unknown transaction is an error.
   */
  function HistoryPage<T>(history: seq<T>, idOf: T -> Id, request: HistoryRequest): Option<seq<T>>
    requires request.pageNumber.Some? ==> request.pageNumber.value >= 1
  {
    var take := if request.max then |history| else request.limit;
    match request.fromId
    case Some(id) =>
      (match Position(history, idOf, id)
       case None => None
       case Some(i) => Some(SkipTake(history, i + 1, take)))
    case None =>
      var skip := if request.pageNumber.Some? then (request.pageNumber.value - 1) * request.limit else 0;
      Some(SkipTake(history, skip, take))
  }

  /** A slice skips what comes before it, and takes as many as there are up to its length. */
  lemma SkipTakeSpelledOut<T>(items: seq<T>, skip: nat, take: nat)
    ensures SkipTake(items, skip, take)
         == if skip >= |items| then [] else if skip + take <= |items| then items[skip..skip + take] else items[skip..]
  {
  }

  /**
   Which slice a page is: it skips up to and including the transaction named, or the pages before the one asked for, and
   takes as many as the limit says, or as the whole history has if the maximum is asked for.
   */
  lemma HistoryPageIsSlice<T>(history: seq<T>, idOf: T -> Id, request: HistoryRequest, i: nat)
    requires request.pageNumber.Some? ==> request.pageNumber.value >= 1
    ensures var page := HistoryPage(history, idOf, request);
            var take := if request.max then |history| else request.limit;
            && (request.fromId.Some? && i < |history| && idOf(history[i]) == request.fromId.value
                && (forall j :: 0 <= j < i ==> idOf(history[j]) != request.fromId.value) ==>
                  page == Some(SkipTake(history, i + 1, take)))
            && (page.None? <==> request.fromId.Some? && forall j :: 0 <= j < |history| ==>
                                  idOf(history[j]) != request.fromId.value)
            && (request.fromId.None? && request.pageNumber.None? ==> page == Some(SkipTake(history, 0, take)))
            && (request.fromId.None? && request.pageNumber.Some? ==>
                  page == Some(SkipTake(history, (request.pageNumber.value - 1) * request.limit, take)))
  {
  }

  /** The request for what comes after the items a client has got so far. */
  ghost function Following<T>(got: seq<T>, idOf: T -> Id, limit: nat): HistoryRequest {
    HistoryRequest(if got == [] then None else Some(idOf(got[|got| - 1])), None, limit, false)
  }

  /** What a client has after `n` requests, when `next` is the page it gets for what it already has. */
  ghost function Fetch<T>(next: seq<T> -> seq<T>, n: nat): seq<T> {
    if n == 0 then []
    else
      var got := Fetch(next, n - 1);
      got + next(got)
  }

  ghost function NextOfHistory<T>(history: seq<T>, idOf: T -> Id, limit: nat): seq<T> -> seq<T> {
    got =>
      var page := HistoryPage(history, idOf, Following(got, idOf, limit));
      if page.Some? then page.value else []
  }

  /** What a client has after asking for the pages 1 to `n`. */
  ghost function FetchByNumber<T>(history: seq<T>, idOf: T -> Id, limit: nat, n: nat): seq<T> {
    if n == 0 then []
    else
      var page := HistoryPage(history, idOf, HistoryRequest(None, Some(n), limit, false)).value;
      FetchByNumber(history, idOf, limit, n - 1) + page
  }

  lemma NextSlice<T>(items: seq<T>, skip: nat, take: nat)
    ensures items[..MinNat(skip, |items|)] + SkipTake(items, skip, take) == items[..MinNat(skip + take, |items|)]
  {
  }

  lemma PageFollows<T>(history: seq<T>, idOf: T -> Id, limit: nat, k: nat)
    requires DistinctIds(history, idOf) && k <= |history|
    ensures HistoryPage(history, idOf, Following(history[..k], idOf, limit)) == Some(SkipTake(history, k, limit))
  {
    if k > 0 {
      assert Position(history, idOf, idOf(history[k - 1])) == Some(k - 1);
    }
  }

  /** How far `n` full pages reach. */
  ghost function Reached(n: nat, limit: nat, length: nat): (k: nat)
    ensures k <= length
  {
    if n == 0 then 0 else MinNat(Reached(n - 1, limit, length) + limit, length)
  }

  lemma {:induction false} ReachedIsProduct(n: nat, limit: nat, length: nat)
    ensures Reached(n, limit, length) == MinNat(n * limit, length)
  {
    if n > 0 {
      ReachedIsProduct(n - 1, limit, length);
      assert n * limit == (n - 1) * limit + limit;
    }
  }

  /** After the first `k` items comes the slice that starts there. */
  ghost predicate Continues<T>(items: seq<T>, next: seq<T> -> seq<T>, limit: nat, k: nat) {
    k <= |items| ==> next(items[..k]) == SkipTake(items, k, limit)
  }

  /** Pages that follow on what a client has are the items from their start, without a gap and without a repetition. */
  lemma {:induction false} FollowingPagesAreAPrefix<T>(items: seq<T>, next: seq<T> -> seq<T>, limit: nat, n: nat)
    requires forall k: nat :: Continues(items, next, limit, k)
    ensures Fetch(next, n) == items[..Reached(n, limit, |items|)]
  {
    if n > 0 {
      FollowingPagesAreAPrefix(items, next, limit, n - 1);
      assert Continues(items, next, limit, Reached(n - 1, limit, |items|));
      NextSlice(items, Reached(n - 1, limit, |items|), limit);
    }
  }

  /** So are the pages by number. */
  lemma {:induction false} PagesByNumberAreAPrefix<T>(history: seq<T>, idOf: T -> Id, limit: nat, n: nat)
    ensures FetchByNumber(history, idOf, limit, n) == history[..Reached(n, limit, |history|)]
  {
    if n > 0 {
      PagesByNumberAreAPrefix(history, idOf, limit, n - 1);
      var done := (n - 1) * limit;
      ReachedIsProduct(n - 1, limit, |history|);
      NextSlice(history, done, limit);
      assert MinNat(MinNat(done, |history|) + limit, |history|) == MinNat(done + limit, |history|);
    }
  }

  /** Enough pages are the whole history, each transaction once. */
  lemma PagesAreTheHistory<T>(history: seq<T>, idOf: T -> Id, limit: nat, n: nat)
    requires DistinctIds(history, idOf) && |history| <= n * limit
    ensures Fetch(NextOfHistory(history, idOf, limit), n) == history
    ensures FetchByNumber(history, idOf, limit, n) == history
  {
    forall k: nat ensures Continues(history, NextOfHistory(history, idOf, limit), limit, k) {
      if k <= |history| {
        PageFollows(history, idOf, limit, k);
      }
    }
    FollowingPagesAreAPrefix(history, NextOfHistory(history, idOf, limit), limit, n);
    PagesByNumberAreAPrefix(history, idOf, limit, n);
    ReachedIsProduct(n, limit, |history|);
    assert history[..|history|] == history;
  }

  // ---------- the open channels ----------

  datatype Paging = PageNumber(page: nat) | FromId(id: Id)

  /** Where a page of channels starts; an id that is not listed starts over. */
  function Offset<T>(channels: seq<T>, idOf: T -> Id, paging: Paging, limit: nat): nat
    requires paging.PageNumber? ==> paging.page >= 1
  {
    match paging
    case PageNumber(page) => (page - 1) * limit
    case FromId(id) =>
      match Position(channels, idOf, id)
      case None => 0
      case Some(i) => i + 1
  }

  /** The slice of the filtered channels. `None` stands for slicing past their end, which aborts the call. */
  function ChannelPage<T>(channels: seq<T>, idOf: T -> Id, paging: Paging, limit: nat): Option<seq<T>>
    requires paging.PageNumber? ==> paging.page >= 1
  {
    var offset, total := Offset(channels, idOf, paging, limit), |channels|;
    if offset + limit <= total then Some(channels[offset..offset + limit])
    else if offset <= total then Some(channels[offset..])
    else None
  }

  /**
   Pages of channels agree with pages of the history, up to the two cases in which those would be empty or an error.
   */
  lemma ChannelPageIff<T>(channels: seq<T>, idOf: T -> Id, paging: Paging, limit: nat)
    requires paging.PageNumber? ==> paging.page >= 1
    ensures var page := ChannelPage(channels, idOf, paging, limit);
            var offset := Offset(channels, idOf, paging, limit);
            && (page.None? <==> paging.PageNumber? && (paging.page - 1) * limit > |channels|)
            && (page.Some? ==> page.value == SkipTake(channels, offset, limit))
            && (paging.PageNumber? ==> offset == (paging.page - 1) * limit)
            && (paging.FromId? && (forall i :: 0 <= i < |channels| ==> idOf(channels[i]) != paging.id) ==>
                  page == Some(channels[..MinNat(limit, |channels|)]))
            && (paging.FromId? && (exists i :: 0 <= i < |channels| && idOf(channels[i]) == paging.id) ==>
                  page == HistoryPage(channels, idOf, HistoryRequest(Some(paging.id), None, limit, false)))
  {
  }

  /** The first page, or the one after the last channel a client has got so far. */
  ghost function Next<T>(got: seq<T>, idOf: T -> Id): (paging: Paging)
    ensures paging.PageNumber? ==> paging.page >= 1
  {
    if got == [] then PageNumber(1) else FromId(idOf(got[|got| - 1]))
  }

  ghost function NextOfChannels<T>(channels: seq<T>, idOf: T -> Id, limit: nat): seq<T> -> seq<T> {
    got =>
      var page := ChannelPage(channels, idOf, Next(got, idOf), limit);
      if page.Some? then page.value else []
  }

  lemma ChannelPageFollows<T>(channels: seq<T>, idOf: T -> Id, limit: nat, k: nat)
    requires DistinctIds(channels, idOf) && k <= |channels|
    ensures ChannelPage(channels, idOf, Next(channels[..k], idOf), limit) == Some(SkipTake(channels, k, limit))
  {
    if k == 0 {
      assert (1 - 1) * limit == 0;
      ChannelPageIff(channels, idOf, PageNumber(1), limit);
    } else {
      assert Position(channels, idOf, idOf(channels[k - 1])) == Some(k - 1);
      ChannelPageIff(channels, idOf, FromId(idOf(channels[k - 1])), limit);
    }
  }

  /** Following the last channel seen goes through all channels once, and no page asked for on the way aborts. */
  lemma ChannelPagesAreTheChannels<T>(channels: seq<T>, idOf: T -> Id, limit: nat, n: nat)
    requires DistinctIds(channels, idOf) && |channels| <= n * limit
    ensures Fetch(NextOfChannels(channels, idOf, limit), n) == channels
    ensures forall k: nat ::
              ChannelPage(channels, idOf, Next(Fetch(NextOfChannels(channels, idOf, limit), k), idOf), limit).Some?
  {
    forall k: nat ensures Continues(channels, NextOfChannels(channels, idOf, limit), limit, k) {
      if k <= |channels| {
        ChannelPageFollows(channels, idOf, limit, k);
      }
    }
    forall k: nat
      ensures ChannelPage(channels, idOf, Next(Fetch(NextOfChannels(channels, idOf, limit), k), idOf), limit).Some?
    {
      FollowingPagesAreAPrefix(channels, NextOfChannels(channels, idOf, limit), limit, k);
      ChannelPageFollows(channels, idOf, limit, Reached(k, limit, |channels|));
    }
    FollowingPagesAreAPrefix(channels, NextOfChannels(channels, idOf, limit), limit, n);
    ReachedIsProduct(n, limit, |channels|);
    assert channels[..|channels|] == channels;
  }
}
