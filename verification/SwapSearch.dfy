/**
 Searching the swap contract's logs in windows of at most `range + 1` blocks: for the
 transaction that spent or refunded a payment, and for the payment itself.
 */
module SwapSearch {
  import opened Common

  type Hash = nat

  type SwapId = nat

  /** A contract log of one kind, in the order of the chain. */
  datatype Event = Event(block: nat, id: SwapId, txHash: Option<Hash>)

  datatype Kind = ReceiverSpent | SenderRefunded | PaymentSent

  datatype TxReply = Tx(hex: nat) | Missing | RequestFailed

  /** What the node knows and which of its log requests succeed. */
  datatype Node = Node(logs: Kind -> seq<Event>, answers: (Kind, nat, nat) -> bool, transaction: Hash -> TxReply)

  datatype SearchError = LogsFailed | NoTxHash | TxMissing | TxRequestFailed

  datatype Found = Spent(hex: nat) | Refunded(hex: nat)

  ghost predicate InChainOrder(events: seq<Event>) {
    forall i, j :: 0 <= i < j < |events| ==> events[i].block <= events[j].block
  }

  // ---------- a single request ----------

  /** The logs of blocks `from..=to`. */
  function Query(events: seq<Event>, from: nat, to: nat): seq<Event> {
    if events == [] then []
    else (if from <= events[0].block <= to then [events[0]] else []) + Query(events[1..], from, to)
  }

  function Find(events: seq<Event>, id: SwapId): Option<Event> {
    if events == [] then None else if events[0].id == id then Some(events[0]) else Find(events[1..], id)
  }

  ghost predicate Matches(event: Event, id: SwapId, from: nat, to: nat) {
    event.id == id && from <= event.block <= to
  }

  ghost predicate NoneBefore(events: seq<Event>, id: SwapId, from: nat, to: nat, n: nat)
    requires n <= |events|
  {
    forall j :: 0 <= j < n ==> !(events[j].id == id && from <= events[j].block <= to)
  }

  /** The first log of the chain with the id in a block range; reference for every search below. */
  ghost function First(events: seq<Event>, id: SwapId, from: nat, to: nat): (r: Option<Event>)
    ensures r.Some? ==> exists i :: 0 <= i < |events| && events[i] == r.value && NoneBefore(events, id, from, to, i)
    ensures r.Some? ==> r.value.id == id && from <= r.value.block <= to && r.value in events
    ensures r.None? <==> forall e :: e in events && e.id == id ==> !(from <= e.block <= to)
  {
    if events == [] then None
    else if Matches(events[0], id, from, to) then Some(events[0])
    else
      var rest := First(events[1..], id, from, to);
      if rest.Some? then
        var i :| 0 <= i < |events[1..]| && events[1..][i] == rest.value && NoneBefore(events[1..], id, from, to, i);
        assert NoneBefore(events, id, from, to, i + 1) by {
          assert forall j :: 1 <= j < i + 1 ==> events[j] == events[1..][j - 1];
        }
        rest
      else rest
  }

  lemma {:induction false} FindInQuery(events: seq<Event>, id: SwapId, from: nat, to: nat)
    ensures Find(Query(events, from, to), id) == First(events, id, from, to)
  {
    if events != [] {
      FindInQuery(events[1..], id, from, to);
      var rest := Query(events[1..], from, to);
      assert ([events[0]] + rest)[1..] == rest;
      assert [] + rest == rest;
    }
  }

  /** Two ranges that share a block see the same first log as their union, provided the chain is in order. */
  lemma {:induction false} FirstOfSplitRange(events: seq<Event>, id: SwapId, from: nat, mid: nat, to: nat)
    requires InChainOrder(events) && from <= mid <= to
    ensures First(events, id, from, to)
         == if First(events, id, from, mid).Some? then First(events, id, from, mid) else First(events, id, mid, to)
  {
    if events != [] {
      FirstOfSplitRange(events[1..], id, from, mid, to);
      if Matches(events[0], id, from, to) && events[0].block > mid {
        assert forall e :: e in events ==> e.block > mid;
      }
    }
  }

  // ---------- the windows ----------

  function WindowEnd(from: nat, last: nat, range: nat): nat {
    MinNat(last, from + range)
  }

  ghost function Windows(from: nat, last: nat, range: nat): (windows: seq<(nat, nat)>)
    requires from <= last && range >= 1
    decreases last - from
  {
    var to := WindowEnd(from, last, range);
    [(from, to)] + if to >= last then [] else Windows(to, last, range)
  }

  ghost predicate InSomeWindow(windows: seq<(nat, nat)>, b: nat) {
    exists i :: 0 <= i < |windows| && windows[i].0 <= b <= windows[i].1
  }

  /**
   Each window starts at the last block of the one before, all but the last have `range + 1` blocks, and they span the
   range.
   */
  lemma {:induction false} WindowsChain(from: nat, last: nat, range: nat)
    requires from <= last && range >= 1
    ensures var w := Windows(from, last, range);
            && |w| > 0 && w[0].0 == from && w[|w| - 1].1 == last
            && (forall i :: 0 <= i < |w| ==> w[i].0 <= w[i].1 <= w[i].0 + range)
            && (forall i :: 0 <= i < |w| - 1 ==> w[i].1 == w[i].0 + range)
            && (forall i :: 0 <= i < |w| - 1 ==> w[i].1 == w[i + 1].0 && w[i].0 < w[i].1)
    decreases last - from
  {
    var to := WindowEnd(from, last, range);
    if to < last {
      WindowsChain(to, last, range);
    }
  }

  /** The windows asked for so far are those before `from`. */
  ghost predicate AskedBefore(requested: seq<(nat, nat)>, from: nat, searchFrom: nat, last: nat, range: nat)
    requires searchFrom <= from <= last && range >= 1
  {
    requested + Windows(from, last, range) == Windows(searchFrom, last, range)
  }

  /** All of them have been asked for, or the ones before the next window. */
  ghost predicate AskedUpTo(requested: seq<(nat, nat)>, to: nat, searchFrom: nat, last: nat, range: nat)
    requires searchFrom <= to <= last && range >= 1
  {
    && requested <= Windows(searchFrom, last, range)
    && (to == last ==> requested == Windows(searchFrom, last, range))
    && (to < last ==> AskedBefore(requested, to, searchFrom, last, range))
  }

  lemma AskNext(requested: seq<(nat, nat)>, from: nat, searchFrom: nat, last: nat, range: nat)
    requires searchFrom <= from <= last && range >= 1
    requires AskedBefore(requested, from, searchFrom, last, range)
    ensures var to := WindowEnd(from, last, range);
            AskedUpTo(requested + [(from, to)], to, searchFrom, last, range)
  {
    var to := WindowEnd(from, last, range);
    NextOf(requested, (from, to), if to >= last then [] else Windows(to, last, range));
  }

  lemma NextOf(done: seq<(nat, nat)>, next: (nat, nat), rest: seq<(nat, nat)>)
    ensures done + ([next] + rest) == done + [next] + rest
    ensures done + [next] <= done + ([next] + rest)
    ensures done + [next] + [] == done + [next]
  {
  }

  /** Every block of the range is in some window. */
  lemma {:induction false} WindowsCover(from: nat, last: nat, range: nat, b: nat)
    requires from <= b <= last && range >= 1
    ensures InSomeWindow(Windows(from, last, range), b)
    decreases last - from
  {
    var w, to := Windows(from, last, range), WindowEnd(from, last, range);
    if b <= to {
      assert w[0] == (from, to);
    } else {
      WindowsCover(to, last, range, b);
      var rest := Windows(to, last, range);
      var i :| 0 <= i < |rest| && rest[i].0 <= b <= rest[i].1;
      assert w[i + 1] == rest[i];
    }
  }

  // ---------- the chunked searches ----------

  function Resolve(node: Node, event: Event): Result<nat, SearchError> {
    match event.txHash
    case None => Err(NoTxHash)
    case Some(hash) =>
      match node.transaction(hash)
      case Tx(hex) => Ok(hex)
      case Missing => Err(TxMissing)
      case RequestFailed => Err(TxRequestFailed)
  }

  datatype Hit = NoHit | Hit(kind: Kind, event: Event)

  function Report(node: Node, hit: Hit): Result<Option<Found>, SearchError> {
    if hit.NoHit? then Ok(None)
    else
      match Resolve(node, hit.event)
      case Err(e) => Err(e)
      case Ok(hex) => Ok(Some(if hit.kind.ReceiverSpent? then Spent(hex) else Refunded(hex)))
  }

  /** One window: a spend is preferred to a refund. */
  ghost function WindowHit(node: Node, id: SwapId, from: nat, to: nat): Hit {
    var spent := First(node.logs(ReceiverSpent), id, from, to);
    var refunded := First(node.logs(SenderRefunded), id, from, to);
    if spent.Some? then Hit(ReceiverSpent, spent.value)
    else if refunded.Some? then Hit(SenderRefunded, refunded.value)
    else NoHit
  }

  /** The windows are searched in order and the first hit is final. */
  ghost function ChunkedHit(node: Node, id: SwapId, from: nat, last: nat, range: nat): Hit
    requires from <= last && range >= 1
    decreases last - from
  {
    var to := WindowEnd(from, last, range);
    var hit := WindowHit(node, id, from, to);
    if hit.Hit? || to >= last then hit else ChunkedHit(node, id, to, last, range)
  }

  ghost predicate AllAnswer(node: Node) {
    forall kind, from, to :: node.answers(kind, from, to)
  }

  /** Every log request up to the first hit succeeds; the refunds of a window are asked for only if it has no spend. */
  ghost predicate AnsweredUpToHit(node: Node, id: SwapId, from: nat, last: nat, range: nat)
    requires from <= last && range >= 1
    decreases last - from
  {
    var to := WindowEnd(from, last, range);
    && node.answers(ReceiverSpent, from, to)
    && (First(node.logs(ReceiverSpent), id, from, to).None? ==>
          && node.answers(SenderRefunded, from, to)
          && (First(node.logs(SenderRefunded), id, from, to).None? && to < last ==>
               AnsweredUpToHit(node, id, to, last, range)))
  }

  lemma {:induction false} AnsweringNodeIsEnough(node: Node, id: SwapId, from: nat, last: nat, range: nat)
    requires from <= last && range >= 1 && AllAnswer(node)
    ensures AnsweredUpToHit(node, id, from, last, range)
    decreases last - from
  {
    var to := WindowEnd(from, last, range);
    if to < last {
      AnsweringNodeIsEnough(node, id, to, last, range);
    }
  }

  /** What the search reports: a request that fails before the first hit ends it. */
  ghost function SearchOutcome(node: Node, id: SwapId, from: nat, last: nat,
                               range: nat): Result<Option<Found>, SearchError>
    requires from <= last && range >= 1
  {
    if AnsweredUpToHit(node, id, from, last, range) then Report(node, ChunkedHit(node, id, from, last, range))
    else Err(LogsFailed)
  }

  /** The first hit in a list of windows. */
  ghost function FirstHitIn(node: Node, id: SwapId, windows: seq<(nat, nat)>): Hit {
    if windows == [] then NoHit
    else
      var hit := WindowHit(node, id, windows[0].0, windows[0].1);
      if hit.Hit? then hit else FirstHitIn(node, id, windows[1..])
  }

  /** The chunked search looks into the windows of `Windows`, in that order. */
  lemma {:induction false} ChunkedHitIsFirstInWindows(node: Node, id: SwapId, from: nat, last: nat, range: nat)
    requires from <= last && range >= 1
    ensures ChunkedHit(node, id, from, last, range) == FirstHitIn(node, id, Windows(from, last, range))
    decreases last - from
  {
    var to := WindowEnd(from, last, range);
    if to < last {
      ChunkedHitIsFirstInWindows(node, id, to, last, range);
      assert Windows(from, last, range)[1..] == Windows(to, last, range);
    } else {
      assert Windows(from, last, range)[1..] == [];
    }
  }

  // ---------- what the answers mean, in terms of logs and transactions ----------

  /** No log of that kind with the id in a block range. */
  ghost predicate NoLog(node: Node, kind: Kind, id: SwapId, from: nat, to: nat) {
    forall e :: e in node.logs(kind) && e.id == id ==> !(from <= e.block <= to)
  }

  /** A log of that kind with the id in a block range names this transaction, or none. */
  ghost predicate LogNames(node: Node, kind: Kind, id: SwapId, from: nat, to: nat, txHash: Option<Hash>) {
    exists e :: e in node.logs(kind) && e.id == id && from <= e.block <= to && e.txHash == txHash
  }

  /** The node has the transaction that such a log names. */
  ghost predicate IsTransactionOf(node: Node, kind: Kind, id: SwapId, from: nat, to: nat, hex: nat) {
    exists hash :: LogNames(node, kind, id, from, to, Some(hash)) && node.transaction(hash) == Tx(hex)
  }

  /** What a search for logs of the given kinds may fail with. */
  ghost predicate IsRealError(node: Node, kinds: set<Kind>, id: SwapId, from: nat, to: nat, error: SearchError) {
    match error
    case NoTxHash => exists kind :: kind in kinds && LogNames(node, kind, id, from, to, None)
    case TxMissing =>
      exists kind, hash :: kind in kinds && LogNames(node, kind, id, from, to, Some(hash))
          && node.transaction(hash) == Missing
    case TxRequestFailed =>
      exists kind, hash ::
        kind in kinds && LogNames(node, kind, id, from, to, Some(hash)) && node.transaction(hash) == RequestFailed
    case LogsFailed => exists kind, a: nat, b: nat :: kind in kinds && from <= a <= b <= to && !node.answers(kind, a, b)
  }

  /** A resolved log yields the transaction it names, or says what is in the way. */
  lemma ResolveIsReal(node: Node, kinds: set<Kind>, kind: Kind, id: SwapId, from: nat, to: nat, event: Event)
    requires kind in kinds && event in node.logs(kind) && event.id == id && from <= event.block <= to
    ensures match Resolve(node, event)
            case Ok(hex) => IsTransactionOf(node, kind, id, from, to, hex)
            case Err(e) => e != LogsFailed && IsRealError(node, kinds, id, from, to, e)
  {
    assert LogNames(node, kind, id, from, to, event.txHash);
    var r := Resolve(node, event);
    if r.Ok? {
      assert node.transaction(event.txHash.value) == Tx(r.value);
    } else if r.error == NoTxHash {
      assert event.txHash == None;
    }
  }

  ghost predicate IsSearchAnswer(node: Node, id: SwapId, from: nat, to: nat, answer: Result<Option<Found>,
                                 SearchError>) {
    match answer
    case Ok(None) => NoLog(node, ReceiverSpent, id, from, to) && NoLog(node, SenderRefunded, id, from, to)
    case Ok(Some(Spent(hex))) => IsTransactionOf(node, ReceiverSpent, id, from, to, hex)
    case Ok(Some(Refunded(hex))) => IsTransactionOf(node, SenderRefunded, id, from, to, hex)
    case Err(e) => IsRealError(node, {ReceiverSpent, SenderRefunded}, id, from, to, e)
  }

  /**
   Whatever the search reports is real: a spend or refund is the transaction named by such a log with the id in the
   range, and an error is a failed request, a log without a transaction or a transaction that the node does not have.
   */
  lemma {:induction false} ReportIsReal(node: Node, id: SwapId, from: nat, last: nat, range: nat)
    requires from <= last && range >= 1
    ensures IsSearchAnswer(node, id, from, last, SearchOutcome(node, id, from, last, range))
    decreases last - from
  {
    var to := WindowEnd(from, last, range);
    var hit := WindowHit(node, id, from, to);
    if !AnsweredUpToHit(node, id, from, last, range) {
      FailedRequest(node, id, from, last, range);
    } else if hit.Hit? {
      ResolveIsReal(node, {ReceiverSpent, SenderRefunded}, hit.kind, id, from, last, hit.event);
    } else if to < last {
      ReportIsReal(node, id, to, last, range);
      Widen(node, id, from, to, last);
    }
  }

  lemma {:induction false} FailedRequest(node: Node, id: SwapId, from: nat, last: nat, range: nat)
    requires from <= last && range >= 1 && !AnsweredUpToHit(node, id, from, last, range)
    ensures IsRealError(node, {ReceiverSpent, SenderRefunded}, id, from, last, LogsFailed)
    decreases last - from
  {
    var to := WindowEnd(from, last, range);
    if node.answers(ReceiverSpent, from, to) && node.answers(SenderRefunded, from, to) {
      FailedRequest(node, id, to, last, range);
    }
  }

  /** What is real in a part of the range is real in the range. */
  lemma Widen(node: Node, id: SwapId, from: nat, mid: nat, to: nat)
    requires from <= mid <= to
    ensures forall kind, hash :: LogNames(node, kind, id, mid, to, hash) ==> LogNames(node, kind, id, from, to, hash)
    ensures forall kind, hex :: IsTransactionOf(node, kind, id, mid, to, hex) ==>
        IsTransactionOf(node, kind, id, from, to, hex)
    ensures forall kinds, e :: IsRealError(node, kinds, id, mid, to, e) ==> IsRealError(node, kinds, id, from, to, e)
  {
  }

  /** The windows before the `i`-th have no log of the kinds with the id. */
  ghost predicate BlankBefore(node: Node, kinds: set<Kind>, id: SwapId, windows: seq<(nat, nat)>, i: nat)
    requires i <= |windows|
  {
    forall j, kind :: 0 <= j < i && kind in kinds ==> NoLog(node, kind, id, windows[j].0, windows[j].1)
  }

  /**
   If there was no hit before window `i`, its requests succeed: that for spends, and that for refunds if it has no
   spend.
   */
  ghost predicate AnsweredInWindow(node: Node, id: SwapId, w: seq<(nat, nat)>, i: nat)
    requires i < |w|
  {
    BlankBefore(node, {ReceiverSpent, SenderRefunded}, id, w, i) ==>
      && node.answers(ReceiverSpent, w[i].0, w[i].1)
      && (NoLog(node, ReceiverSpent, id, w[i].0, w[i].1) ==> node.answers(SenderRefunded, w[i].0, w[i].1))
  }

  /** These are the requests that matter: the search gets to its hit, or to its end, if and only if they all succeed. */
  lemma AnsweredUpToHitIff(node: Node, id: SwapId, from: nat, last: nat, range: nat)
    requires from <= last && range >= 1
    ensures var w := Windows(from, last, range);
            AnsweredUpToHit(node, id, from, last, range) <==>
                (forall i :: 0 <= i < |w| ==> AnsweredInWindow(node, id, w, i))
  {
    var w := Windows(from, last, range);
    if AnsweredUpToHit(node, id, from, last, range) {
      forall i | 0 <= i < |w| ensures AnsweredInWindow(node, id, w, i) {
        AnsweredWindow(node, id, from, last, range, i);
      }
    } else {
      var i := UnansweredWindow(node, id, from, last, range);
    }
  }

  lemma {:induction false} AnsweredWindow(node: Node, id: SwapId, from: nat, last: nat, range: nat, i: nat)
    requires from <= last && range >= 1 && AnsweredUpToHit(node, id, from, last, range)
    requires i < |Windows(from, last, range)|
    ensures AnsweredInWindow(node, id, Windows(from, last, range), i)
    decreases last - from
  {
    var w, to := Windows(from, last, range), WindowEnd(from, last, range);
    if i > 0 {
      assert w[1..] == Windows(to, last, range) && w[i] == Windows(to, last, range)[i - 1];
      BlankAfterFirst(node, {ReceiverSpent, SenderRefunded}, id, w, i);
      if BlankBefore(node, {ReceiverSpent, SenderRefunded}, id, w, i) {
        assert NoLog(node, ReceiverSpent, id, from, to) && NoLog(node, SenderRefunded, id, from, to);
        AnsweredWindow(node, id, to, last, range, i - 1);
      }
    }
  }

  lemma {:induction false} UnansweredWindow(node: Node, id: SwapId, from: nat, last: nat, range: nat) returns (i: nat)
    requires from <= last && range >= 1 && !AnsweredUpToHit(node, id, from, last, range)
    ensures i < |Windows(from, last, range)| && !AnsweredInWindow(node, id, Windows(from, last, range), i)
    decreases last - from
  {
    var w, to := Windows(from, last, range), WindowEnd(from, last, range);
    i := 0;
    if AnsweredInWindow(node, id, w, 0) {
      i := UnansweredWindow(node, id, to, last, range);
      i := i + 1;
      assert w[1..] == Windows(to, last, range) && w[i] == Windows(to, last, range)[i - 1];
      BlankAfterFirst(node, {ReceiverSpent, SenderRefunded}, id, w, i);
    }
  }

  lemma BlankAfterFirst(node: Node, kinds: set<Kind>, id: SwapId, w: seq<(nat, nat)>, i: nat)
    requires 1 <= i <= |w|
    ensures BlankBefore(node, kinds, id, w, i)
       <==> (BlankBefore(node, kinds, id, w[1..], i - 1)
             && forall kind :: kind in kinds ==> NoLog(node, kind, id, w[0].0, w[0].1))
  {
    var rest := w[1..];
    if BlankBefore(node, kinds, id, w, i) {
      forall j, kind | 0 <= j < i - 1 && kind in kinds ensures NoLog(node, kind, id, rest[j].0, rest[j].1) {
        assert rest[j] == w[j + 1];
      }
    } else {
      var j, kind :| 0 <= j < i && kind in kinds && !NoLog(node, kind, id, w[j].0, w[j].1);
      if j > 0 {
        assert rest[j - 1] == w[j];
      }
    }
  }

  // ---------- when a search ends ----------

  /** A window that ends the search, with its result: a failed request or a hit. */
  ghost function SpendWindow(node: Node, id: SwapId, from: nat, to: nat): Option<Result<Option<Found>, SearchError>> {
    var hit := WindowHit(node, id, from, to);
    if !node.answers(ReceiverSpent, from, to) then Some(Err(LogsFailed))
    else if hit.Hit? && hit.kind.ReceiverSpent? then Some(Report(node, hit))
    else if !node.answers(SenderRefunded, from, to) then Some(Err(LogsFailed))
    else if hit.Hit? then Some(Report(node, hit))
    else None
  }

  /** The result of a search that ends within `k` windows, for any range and whatever a window looks for. */
  ghost function Within<R>(window: (nat, nat) -> Option<R>, nothing: R, from: nat, last: nat, range: nat,
                           k: nat): Option<R>
    requires from <= last
    decreases k
  {
    if k == 0 then None
    else
      var to := WindowEnd(from, last, range);
      if window(from, to).Some? then window(from, to)
      else if to >= last then Some(nothing)
      else Within(window, nothing, to, last, range, k - 1)
  }

  /** With a configured range of 0 every window starts where the one before did. */
  ghost predicate Ends<R>(window: (nat, nat) -> Option<R>, from: nat, last: nat, range: nat) {
    range >= 1 || last <= from || window(from, from).Some?
  }

  lemma {:induction false} EndsInTime<R>(window: (nat, nat) -> Option<R>, nothing: R, from: nat, last: nat, range: nat)
    requires from <= last && Ends(window, from, last, range)
    ensures Within(window, nothing, from, last, range, last - from + 1).Some?
    decreases last - from
  {
    var to := WindowEnd(from, last, range);
    if window(from, to).None? && to < last {
      EndsInTime(window, nothing, to, last, range);
      LongerStaysEnded(window, nothing, to, last, range, last - to + 1, last - from);
    }
  }

  lemma {:induction false} LongerStaysEnded<R>(window: (nat, nat) -> Option<R>, nothing: R, from: nat, last: nat,
                                               range: nat,
                                               k: nat, longer: nat)
    requires from <= last && k <= longer && Within(window, nothing, from, last, range, k).Some?
    ensures Within(window, nothing, from, last, range, longer).Some?
    decreases k
  {
    var to := WindowEnd(from, last, range);
    if window(from, to).None? && to < last {
      LongerStaysEnded(window, nothing, to, last, range, k - 1, longer - 1);
    }
  }

  lemma {:induction false} ZeroRangeStays<R>(window: (nat, nat) -> Option<R>, nothing: R, from: nat, last: nat, k: nat)
    requires from < last && window(from, from).None?
    ensures Within(window, nothing, from, last, 0, k).None?
    decreases k
  {
    if k > 0 {
      ZeroRangeStays(window, nothing, from, last, k - 1);
    }
  }

  /** A search ends if and only if the range is positive, there is one block to search, or its first block ends it. */
  lemma SearchEndsIff<R>(window: (nat, nat) -> Option<R>, nothing: R, from: nat, last: nat, range: nat)
    requires from <= last
    ensures (exists k: nat :: Within(window, nothing, from, last, range, k).Some?) <==> Ends(window, from, last, range)
  {
    if Ends(window, from, last, range) {
      EndsInTime(window, nothing, from, last, range);
    } else {
      forall k: nat ensures Within(window, nothing, from, last, range, k).None? {
        ZeroRangeStays(window, nothing, from, last, k);
      }
    }
  }

  /** A search with a positive range ends with the outcome stated above. */
  lemma {:induction false} EndsWithOutcome(node: Node, id: SwapId, from: nat, last: nat, range: nat, k: nat)
    requires from <= last && range >= 1
    requires Within((a, b) => SpendWindow(node, id, a, b), Ok(None), from, last, range, k).Some?
    ensures Within((a, b) => SpendWindow(node, id, a, b), Ok(None), from, last, range, k)
         == Some(SearchOutcome(node, id, from, last, range))
    decreases k
  {
    var to := WindowEnd(from, last, range);
    if SpendWindow(node, id, from, to).None? && to < last {
      EndsWithOutcome(node, id, to, last, range, k - 1);
    }
  }

  /** `requested` are the windows whose logs were asked for. */
  method SearchForSwapTxSpend(node: Node, id: SwapId, searchFrom: nat, current: nat, range: nat)
    returns (r: Result<Option<Found>, SearchError>, ghost requested: seq<(nat, nat)>)
    requires Ends((a, b) => SpendWindow(node, id, a, b), searchFrom, MaxNat(current, searchFrom), range)
    ensures range >= 1 ==> r == SearchOutcome(node, id, searchFrom, MaxNat(current, searchFrom), range)
    ensures range >= 1 ==> IsSearchAnswer(node, id, searchFrom, MaxNat(current, searchFrom), r)
    ensures range == 0 ==>
              var last := MaxNat(current, searchFrom);
              Within((a, b) => SpendWindow(node, id, a, b), Ok(None), searchFrom, last, 0, 1) == Some(r)
    ensures range >= 1 ==> requested <= Windows(searchFrom, MaxNat(current, searchFrom), range)
    ensures range >= 1 && r == Ok(None) ==> requested == Windows(searchFrom, MaxNat(current, searchFrom), range)
  {
    var last := MaxNat(current, searchFrom);
    var from := searchFrom;
    requested := [];
    if range >= 1 {
      ReportIsReal(node, id, searchFrom, last, range);
    }
    while true
      invariant searchFrom <= from <= last
      invariant range >= 1 ==> AskedBefore(requested, from, searchFrom, last, range)
      invariant range == 0 ==> from == searchFrom
      invariant range >= 1 ==> ChunkedHit(node, id, searchFrom, last, range) == ChunkedHit(node, id, from, last, range)
      invariant range >= 1 ==>
          (AnsweredUpToHit(node, id, searchFrom, last, range) <==> AnsweredUpToHit(node, id, from, last, range))
      decreases last - from
    {
      var to := WindowEnd(from, last, range);
      if range >= 1 {
        AskNext(requested, from, searchFrom, last, range);
      }
      requested := requested + [(from, to)];

      if !node.answers(ReceiverSpent, from, to) {
        return Err(LogsFailed), requested;
      }
      FindInQuery(node.logs(ReceiverSpent), id, from, to);
      var found := Find(Query(node.logs(ReceiverSpent), from, to), id);
      if found.Some? {
        return Report(node, Hit(ReceiverSpent, found.value)), requested;
      }

      if !node.answers(SenderRefunded, from, to) {
        return Err(LogsFailed), requested;
      }
      FindInQuery(node.logs(SenderRefunded), id, from, to);
      found := Find(Query(node.logs(SenderRefunded), from, to), id);
      if found.Some? {
        return Report(node, Hit(SenderRefunded, found.value)), requested;
      }

      if to >= last {
        return Ok(None), requested;
      }
      from := to;
    }
  }

  /** End of the first window that reaches block `b`. */
  ghost function ReachedBy(from: nat, last: nat, range: nat, b: nat): (end: nat)
    requires from <= last && range >= 1
    ensures WindowEnd(from, last, range) <= end <= last
    decreases last - from
  {
    var to := WindowEnd(from, last, range);
    if b <= to || to >= last then to else ReachedBy(to, last, range, b)
  }

  /**
   The chunked search finds what one search over the whole range finds, unless the id was refunded and
   spent with the spend in a later window than the refund.
   */
  lemma {:induction false} ChunkedIsOneShotIff(node: Node, id: SwapId, from: nat, last: nat, range: nat)
    requires from <= last && range >= 1
    requires InChainOrder(node.logs(ReceiverSpent)) && InChainOrder(node.logs(SenderRefunded))
    ensures var spent := First(node.logs(ReceiverSpent), id, from, last);
            var refunded := First(node.logs(SenderRefunded), id, from, last);
            ChunkedHit(node, id, from, last, range) == WindowHit(node, id, from, last)
            <==> (spent.Some? && refunded.Some? ==>
                spent.value.block <= ReachedBy(from, last, range, refunded.value.block))
    decreases last - from
  {
    var to := WindowEnd(from, last, range);
    if to < last {
      FirstOfSplitRange(node.logs(ReceiverSpent), id, from, to, last);
      FirstOfSplitRange(node.logs(SenderRefunded), id, from, to, last);
      ChunkedIsOneShotIff(node, id, to, last, range);
      FoundLater(node.logs(ReceiverSpent), id, from, to, last);
      FoundLater(node.logs(SenderRefunded), id, from, to, last);
    }
  }

  /** Refunded in block 0 and spent in block 2: windows of two blocks report the refund, the whole range the spend. */
  lemma RefundHidesLaterSpend(node: Node, id: SwapId)
    requires node.logs(SenderRefunded) == [Event(0, id, None)] && node.logs(ReceiverSpent) == [Event(2, id, None)]
    ensures ChunkedHit(node, id, 0, 2, 1) == Hit(SenderRefunded, Event(0, id, None))
    ensures WindowHit(node, id, 0, 2) == Hit(ReceiverSpent, Event(2, id, None))
  {
    assert First([], id, 0, 1) == None;
    assert First(node.logs(ReceiverSpent), id, 0, 1) == None;
  }

  lemma FoundLater(events: seq<Event>, id: SwapId, from: nat, mid: nat, to: nat)
    requires from <= mid <= to
    ensures First(events, id, from, mid).None? && First(events, id, mid, to).Some? ==>
        First(events, id, mid, to).value.block > mid
  {
  }

  /**
   A payment is spent or refunded, never both. Then the search reports what one search over the whole range would,
   unless a request fails; with a node that answers, the window size makes no difference.
   */
  lemma ChunkSizeDoesNotMatter(node: Node, id: SwapId, from: nat, last: nat, range: nat, other: nat)
    requires from <= last && range >= 1 && other >= 1
    requires InChainOrder(node.logs(ReceiverSpent)) && InChainOrder(node.logs(SenderRefunded))
    requires || First(node.logs(ReceiverSpent), id, from, last).None?
             || First(node.logs(SenderRefunded), id, from, last).None?
    ensures SearchOutcome(node, id, from, last, range)
         == if AnsweredUpToHit(node, id, from, last, range) then Report(node, WindowHit(node, id, from, last))
             else Err(LogsFailed)
    ensures AllAnswer(node) ==> SearchOutcome(node, id, from, last, range) == SearchOutcome(node, id, from, last, other)
  {
    ChunkedIsOneShotIff(node, id, from, last, range);
    ChunkedIsOneShotIff(node, id, from, last, other);
    if AllAnswer(node) {
      AnsweringNodeIsEnough(node, id, from, last, range);
      AnsweringNodeIsEnough(node, id, from, last, other);
    }
  }

  /**
   "Not found" is never a matter of window size: it is reported if and only if no log of either kind has the id in the
   range and all requests in all windows succeed.
   */
  lemma NothingFoundIff(node: Node, id: SwapId, from: nat, last: nat, range: nat)
    requires from <= last && range >= 1
    ensures var nothing := NoLog(node, ReceiverSpent, id, from, last) && NoLog(node, SenderRefunded, id, from, last);
            var w := Windows(from, last, range);
            && (SearchOutcome(node, id, from, last, range) == Ok(None)
                <==> nothing && forall i :: 0 <= i < |w| ==> AllAnsweredIn(node, w[i]))
            && (AllAnswer(node) ==> (SearchOutcome(node, id, from, last, range) == Ok(None) <==> nothing))
  {
    var w := Windows(from, last, range);
    AnsweredUpToHitIff(node, id, from, last, range);
    WindowsChain(from, last, range);
    if SearchOutcome(node, id, from, last, range) == Ok(None) {
      ReportIsReal(node, id, from, last, range);
      forall i | 0 <= i < |w| ensures AllAnsweredIn(node, w[i]) {
        NothingInWindows(node, id, from, last, range, i);
        assert AnsweredInWindow(node, id, w, i);
      }
    } else if NoLog(node, ReceiverSpent, id, from, last) && NoLog(node, SenderRefunded, id, from, last) {
      NoLogNoHit(node, id, from, last, range);
      if AllAnswer(node) {
        AnsweringNodeIsEnough(node, id, from, last, range);
      }
      var i :| 0 <= i < |w| && !AnsweredInWindow(node, id, w, i);
      assert !AllAnsweredIn(node, w[i]);
    }
  }

  lemma NothingInWindows(node: Node, id: SwapId, from: nat, last: nat, range: nat, i: nat)
    requires from <= last && range >= 1 && i < |Windows(from, last, range)|
    requires NoLog(node, ReceiverSpent, id, from, last) && NoLog(node, SenderRefunded, id, from, last)
    ensures var w := Windows(from, last, range);
            && BlankBefore(node, {ReceiverSpent, SenderRefunded}, id, w, i)
            && NoLog(node, ReceiverSpent, id, w[i].0, w[i].1)
  {
    forall j | 0 <= j <= i
      ensures var w := Windows(from, last, range)[j];
              NoLog(node, ReceiverSpent, id, w.0, w.1) && NoLog(node, SenderRefunded, id, w.0, w.1)
    {
      WindowInside(from, last, range, j);
    }
  }

  ghost predicate AllAnsweredIn(node: Node, window: (nat, nat)) {
    node.answers(ReceiverSpent, window.0, window.1) && node.answers(SenderRefunded, window.0, window.1)
  }

  lemma {:induction false} WindowInside(from: nat, last: nat, range: nat, i: nat)
    requires from <= last && range >= 1 && i < |Windows(from, last, range)|
    ensures from <= Windows(from, last, range)[i].0 <= Windows(from, last, range)[i].1 <= last
    decreases last - from
  {
    var to := WindowEnd(from, last, range);
    if i > 0 {
      WindowInside(to, last, range, i - 1);
      assert Windows(from, last, range)[i] == Windows(to, last, range)[i - 1];
    }
  }

  lemma {:induction false} NoLogNoHit(node: Node, id: SwapId, from: nat, last: nat, range: nat)
    requires from <= last && range >= 1
    requires NoLog(node, ReceiverSpent, id, from, last) && NoLog(node, SenderRefunded, id, from, last)
    ensures ChunkedHit(node, id, from, last, range) == NoHit
    decreases last - from
  {
    var to := WindowEnd(from, last, range);
    if to < last {
      NoLogNoHit(node, id, to, last, range);
    }
  }

  // ---------- the payment itself ----------

  ghost function ChunkedFirst(events: seq<Event>, id: SwapId, from: nat, last: nat, range: nat): Option<Event>
    requires from <= last && range >= 1
    decreases last - from
  {
    var to := WindowEnd(from, last, range);
    var first := First(events, id, from, to);
    if first.Some? || to >= last then first else ChunkedFirst(events, id, to, last, range)
  }

  lemma {:induction false} ChunkedFirstIsFirst(events: seq<Event>, id: SwapId, from: nat, last: nat, range: nat)
    requires from <= last && range >= 1 && InChainOrder(events)
    ensures ChunkedFirst(events, id, from, last, range) == First(events, id, from, last)
    decreases last - from
  {
    var to := WindowEnd(from, last, range);
    if to < last {
      FirstOfSplitRange(events, id, from, to, last);
      ChunkedFirstIsFirst(events, id, to, last, range);
    }
  }

  ghost predicate PaymentLogsAnswered(node: Node, id: SwapId, from: nat, last: nat, range: nat)
    requires from <= last && range >= 1
    decreases last - from
  {
    var to := WindowEnd(from, last, range);
    && node.answers(PaymentSent, from, to)
    && (First(node.logs(PaymentSent), id, from, to).None? && to < last ==>
         PaymentLogsAnswered(node, id, to, last, range))
  }

  /** A log whose transaction is missing is reported as no payment. */
  function ReportPayment(node: Node, sent: Event): Result<Option<nat>, SearchError> {
    match Resolve(node, sent)
    case Ok(hex) => Ok(Some(hex))
    case Err(e) => if e.TxMissing? then Ok(None) else Err(e)
  }

  ghost function PaymentWindow(node: Node, id: SwapId, from: nat, to: nat): Option<Result<Option<nat>, SearchError>> {
    var sent := First(node.logs(PaymentSent), id, from, to);
    if !node.answers(PaymentSent, from, to) then Some(Err(LogsFailed))
    else if sent.Some? then Some(ReportPayment(node, sent.value))
    else None
  }

  /**
   What the search for the payment may report: the transaction of such a log, nothing if there is none or the node does
   not have its transaction, or what went wrong.
   */
  ghost predicate IsPaymentAnswer(node: Node, id: SwapId, from: nat, to: nat, answer: Result<Option<nat>,
                                  SearchError>) {
    match answer
    case Ok(Some(hex)) => IsTransactionOf(node, PaymentSent, id, from, to, hex)
    case Ok(None) =>
      || NoLog(node, PaymentSent, id, from, to)
      || exists hash :: LogNames(node, PaymentSent, id, from, to, Some(hash)) && node.transaction(hash) == Missing
    case Err(e) => e != TxMissing && IsRealError(node, {PaymentSent}, id, from, to, e)
  }

  lemma {:induction false} PaymentAnswerIsReal(node: Node, id: SwapId, from: nat, last: nat, range: nat)
    requires from <= last && range >= 1
    ensures var sent := First(node.logs(PaymentSent), id, from, last);
            IsPaymentAnswer(node, id, from, last,
              if !PaymentLogsAnswered(node, id, from, last, range) then Err(LogsFailed)
              else if sent.None? then Ok(None)
              else ReportPayment(node, sent.value))
  {
    var sent := First(node.logs(PaymentSent), id, from, last);
    if !PaymentLogsAnswered(node, id, from, last, range) {
      var i := UnansweredPaymentWindow(node, id, from, last, range);
      WindowInside(from, last, range, i);
    } else if sent.Some? {
      ResolveIsReal(node, {PaymentSent}, PaymentSent, id, from, last, sent.value);
    }
  }

  /** The requests that matter: those for windows before which there is no log of the payment. */
  lemma PaymentLogsAnsweredIff(node: Node, id: SwapId, from: nat, last: nat, range: nat)
    requires from <= last && range >= 1
    ensures var w := Windows(from, last, range);
            PaymentLogsAnswered(node, id, from, last, range)
            <==> (forall i :: 0 <= i < |w| && BlankBefore(node, {PaymentSent}, id, w, i) ==>
                    node.answers(PaymentSent, w[i].0, w[i].1))
  {
    var w := Windows(from, last, range);
    if PaymentLogsAnswered(node, id, from, last, range) {
      forall i | 0 <= i < |w|
          && BlankBefore(node, {PaymentSent}, id, w, i) ensures node.answers(PaymentSent, w[i].0, w[i].1) {
        AnsweredPaymentWindow(node, id, from, last, range, i);
      }
    } else {
      var i := UnansweredPaymentWindow(node, id, from, last, range);
    }
  }

  lemma {:induction false} AnsweredPaymentWindow(node: Node, id: SwapId, from: nat, last: nat, range: nat, i: nat)
    requires from <= last && range >= 1 && PaymentLogsAnswered(node, id, from, last, range)
    requires i < |Windows(from, last, range)| && BlankBefore(node, {PaymentSent}, id, Windows(from, last, range), i)
    ensures var w := Windows(from, last, range)[i]; node.answers(PaymentSent, w.0, w.1)
    decreases last - from
  {
    var w, to := Windows(from, last, range), WindowEnd(from, last, range);
    if i > 0 {
      assert w[1..] == Windows(to, last, range) && w[i] == Windows(to, last, range)[i - 1];
      BlankAfterFirst(node, {PaymentSent}, id, w, i);
      assert NoLog(node, PaymentSent, id, from, to);
      AnsweredPaymentWindow(node, id, to, last, range, i - 1);
    }
  }

  lemma {:induction false} UnansweredPaymentWindow(node: Node, id: SwapId, from: nat, last: nat, range: nat)
    returns (i: nat)
    requires from <= last && range >= 1 && !PaymentLogsAnswered(node, id, from, last, range)
    ensures i < |Windows(from, last, range)| && BlankBefore(node, {PaymentSent}, id, Windows(from, last, range), i)
    ensures var w := Windows(from, last, range)[i]; !node.answers(PaymentSent, w.0, w.1)
    decreases last - from
  {
    var w, to := Windows(from, last, range), WindowEnd(from, last, range);
    i := 0;
    if node.answers(PaymentSent, from, to) {
      i := UnansweredPaymentWindow(node, id, to, last, range);
      i := i + 1;
      assert w[1..] == Windows(to, last, range) && w[i] == Windows(to, last, range)[i - 1];
      assert NoLog(node, PaymentSent, id, from, to);
      BlankAfterFirst(node, {PaymentSent}, id, w, i);
    }
  }

  /**
   `initialized` is whether the contract knows the payment at all. `NoTxHash`, a log that names no
   transaction, aborts the source.
   */
  method CheckIfMyPaymentSent(node: Node, id: SwapId, initialized: bool, searchFrom: nat, current: nat, range: nat)
    returns (r: Result<Option<nat>, SearchError>, ghost requested: seq<(nat, nat)>)
    requires InChainOrder(node.logs(PaymentSent))
    requires initialized ==>
        Ends((a, b) => PaymentWindow(node, id, a, b), searchFrom, MaxNat(current, searchFrom), range)
    ensures !initialized ==> r == Ok(None)
    ensures initialized && range == 0 ==>
              var last := MaxNat(current, searchFrom);
              Within((a, b) => PaymentWindow(node, id, a, b), Ok(None), searchFrom, last, 0, 1) == Some(r)
    ensures initialized && range >= 1 ==>
              var last := MaxNat(current, searchFrom);
              var sent := First(node.logs(PaymentSent), id, searchFrom, last);
              r == if !PaymentLogsAnswered(node, id, searchFrom, last, range) then Err(LogsFailed)
                   else if sent.None? then Ok(None)
                   else ReportPayment(node, sent.value)
    ensures initialized && range >= 1 ==> IsPaymentAnswer(node, id, searchFrom, MaxNat(current, searchFrom), r)
    ensures range >= 1 ==> requested <= Windows(searchFrom, MaxNat(current, searchFrom), range)
  {
    requested := [];
    if !initialized {
      return Ok(None), requested;
    }
    var last := MaxNat(current, searchFrom);
    var from := searchFrom;
    if range >= 1 {
      ChunkedFirstIsFirst(node.logs(PaymentSent), id, searchFrom, last, range);
      PaymentAnswerIsReal(node, id, searchFrom, last, range);
    }
    while true
      invariant searchFrom <= from <= last
      invariant range >= 1 ==> AskedBefore(requested, from, searchFrom, last, range)
      invariant range == 0 ==> from == searchFrom
      invariant range >= 1 ==>
          ChunkedFirst(node.logs(PaymentSent), id, searchFrom, last, range)
              == ChunkedFirst(node.logs(PaymentSent), id, from, last, range)
      invariant range >= 1 ==>
          (PaymentLogsAnswered(node, id, searchFrom, last, range) <==> PaymentLogsAnswered(node, id, from, last, range))
      decreases last - from
    {
      var to := WindowEnd(from, last, range);
      if range >= 1 {
        AskNext(requested, from, searchFrom, last, range);
      }
      requested := requested + [(from, to)];
      if !node.answers(PaymentSent, from, to) {
        return Err(LogsFailed), requested;
      }
      FindInQuery(node.logs(PaymentSent), id, from, to);
      var found := Find(Query(node.logs(PaymentSent), from, to), id);
      if found.Some? {
        match Resolve(node, found.value) {
          case Ok(hex) => return Ok(Some(hex)), requested;
          case Err(e) => return if e.TxMissing? then Ok(None) else Err(e), requested;
        }
      }
      if to >= last {
        return Ok(None), requested;
      }
      from := to;
    }
  }
}
