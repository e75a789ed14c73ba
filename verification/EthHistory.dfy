/**
 The block windows of the history loops for ETH traces and ERC20 events.

 Every pass may extend the saved history backward by one window and forward to the current
 block; each window is stored only if both of its queries succeed. The saved windows stand for
 the traces (events) they brought in.
 */
module EthHistory {
  import opened Common

  datatype Window = Window(from: nat, to: nat)

  /** The persisted history: everything in `windows` has been downloaded and stored. */
  datatype Saved = Saved(windows: seq<Window>, earliest: nat, latest: nat)

  /**
   What one pass of the loop meets: the current block (`None` when that request fails), and whether
   both queries of the backward and of the forward window succeed.
   */
  datatype Pass = Pass(current: Option<nat>, backwardOk: bool, forwardOk: bool)

  /**
   ETH windows reach 1000 blocks back and include the earliest block; ERC20 windows reach 10000 back and stop before
   it.
   */
  datatype Protocol = Eth | Erc20 {
    function Delta(): nat {
      if Eth? then 1000 else 10000
    }
  }

  function BeforeEarliest(protocol: Protocol, earliest: nat): nat {
    if earliest >= protocol.Delta() then earliest - protocol.Delta() else 0
  }

  function BackwardWindow(protocol: Protocol, earliest: nat): Window
    requires earliest > 0
  {
    Window(BeforeEarliest(protocol, earliest), if protocol.Eth? then earliest else earliest - 1)
  }

  function NextEarliest(protocol: Protocol, earliest: nat): nat {
    var before := BeforeEarliest(protocol, earliest);
    if before > 0 then before - 1 else 0
  }

  // ---------- one pass, as a function on the persisted history ----------

  function Backward(protocol: Protocol, saved: Saved): Saved
    requires saved.earliest > 0
  {
    saved.(windows := saved.windows + [BackwardWindow(protocol, saved.earliest)],
           earliest := NextEarliest(protocol, saved.earliest))
  }

  function Forward(saved: Saved, current: nat): Saved {
    saved.(windows := saved.windows + [Window(saved.latest + 1, current)], latest := current)
  }

  /** `None` is the history of an address that has never been stored. */
  ghost function AfterPass(protocol: Protocol, stored: Option<Saved>, pass: Pass): Option<Saved> {
    if pass.current.None? then stored
    else
      var current := pass.current.value;
      var saved := if stored.Some? then stored.value else Saved([], current, current);
      if saved.earliest > 0 && !pass.backwardOk then stored
      else
        var back := if saved.earliest > 0 then Some(Backward(protocol, saved)) else stored;
        var here := if back.Some? then back.value else saved;
        if current > here.latest && pass.forwardOk then Some(Forward(here, current)) else back
  }

  ghost function Run(protocol: Protocol, stored: Option<Saved>, passes: seq<Pass>): Option<Saved> {
    if passes == [] then stored
    else AfterPass(protocol, Run(protocol, stored, passes[..|passes| - 1]), passes[|passes| - 1])
  }

  // ---------- the loop ----------

  class HistoryLoop {
    const protocol: Protocol
    var stored: Option<Saved>

    constructor (protocol: Protocol)
      ensures this.protocol == protocol && stored == None
    {
      this.protocol := protocol;
      stored := None;
    }

    method ProcessHistory(passes: seq<Pass>)
      modifies this
      ensures stored == Run(protocol, old(stored), passes)
    {
      for i := 0 to |passes|
        invariant stored == Run(protocol, old(stored), passes[..i])
      {
        assert passes[..i + 1][..i] == passes[..i];
        var pass := passes[i];
        if pass.current.None? {
          continue;
        }
        var current := pass.current.value;
        var saved := if stored.Some? then stored.value else Saved([], current, current);

        if saved.earliest > 0 {
          var before := if saved.earliest >= protocol.Delta() then saved.earliest - protocol.Delta() else 0;
          if !pass.backwardOk {
            continue;
          }
          var top := if protocol.Eth? then saved.earliest else saved.earliest - 1;
          saved := saved.(windows := saved.windows + [Window(before, top)],
                          earliest := if before > 0 then before - 1 else 0);
          stored := Some(saved);
        }

        if current > saved.latest {
          if !pass.forwardOk {
            continue;
          }
          saved := saved.(windows := saved.windows + [Window(saved.latest + 1, current)], latest := current);
          stored := Some(saved);
        }
      }
      assert passes[..|passes|] == passes;
    }
  }

  // ---------- coverage ----------

  /** How many stored windows contain block `b`. */
  ghost function Times(windows: seq<Window>, b: nat): nat {
    if windows == [] then 0
    else
      var last := windows[|windows| - 1];
      Times(windows[..|windows| - 1], b) + if last.from <= b <= last.to then 1 else 0
  }

  lemma TimesOfOneMore(windows: seq<Window>, w: Window, b: nat)
    ensures Times(windows + [w], b) == Times(windows, b) + if w.from <= b <= w.to then 1 else 0
  {
    assert (windows + [w])[..|windows|] == windows;
  }

  /** ETH: blocks in `(earliest, latest]` were scanned once, block 0 at most once, no other block at all. */
  ghost predicate EthCovered(saved: Saved) {
    saved.earliest <= saved.latest && forall b: nat :: EthCoveredAt(saved, b)
  }

  ghost predicate EthCoveredAt(saved: Saved, b: nat) {
    var times := Times(saved.windows, b);
    if b > 0 then times == (if saved.earliest < b <= saved.latest then 1 else 0)
    else times <= (if saved.earliest == 0 then 1 else 0)
  }

  lemma EthBackwardCovers(saved: Saved)
    requires EthCovered(saved) && saved.earliest > 0
    ensures EthCovered(Backward(Eth, saved))
  {
    forall b: nat ensures EthCoveredAt(Backward(Eth, saved), b) {
      assert EthCoveredAt(saved, b);
      TimesOfOneMore(saved.windows, BackwardWindow(Eth, saved.earliest), b);
    }
  }

  lemma EthForwardCovers(saved: Saved, current: nat)
    requires EthCovered(saved) && current > saved.latest
    ensures EthCovered(Forward(saved, current))
  {
    forall b: nat ensures EthCoveredAt(Forward(saved, current), b) {
      assert EthCoveredAt(saved, b);
      TimesOfOneMore(saved.windows, Window(saved.latest + 1, current), b);
    }
  }

  /** Over every run of block heights and failures, no ETH block is downloaded twice and none in range is skipped. */
  lemma {:induction false} EthScansEachBlockOnce(stored: Option<Saved>, passes: seq<Pass>)
    requires stored.Some? ==> EthCovered(stored.value)
    ensures Run(Eth, stored, passes).Some? ==> EthCovered(Run(Eth, stored, passes).value)
  {
    if passes != [] {
      var init, pass := passes[..|passes| - 1], passes[|passes| - 1];
      EthScansEachBlockOnce(stored, init);
      var before := Run(Eth, stored, init);
      if pass.current.Some? {
        var current := pass.current.value;
        var saved := if before.Some? then before.value else Saved([], current, current);
        var here := if saved.earliest > 0 then Backward(Eth, saved) else saved;
        if saved.earliest > 0 {
          EthBackwardCovers(saved);
        }
        if current > here.latest {
          EthForwardCovers(here, current);
        }
      }
    }
  }

  // ---------- progress ----------

  /** The saved range only grows. */
  ghost predicate Extends(before: Option<Saved>, after: Option<Saved>) {
    before.Some? ==>
      && after.Some?
      && after.value.earliest <= before.value.earliest
      && before.value.latest <= after.value.latest
      && before.value.windows <= after.value.windows
  }

  lemma {:induction false} RunExtends(protocol: Protocol, stored: Option<Saved>, passes: seq<Pass>)
    ensures Extends(stored, Run(protocol, stored, passes))
  {
    if passes != [] {
      RunExtends(protocol, stored, passes[..|passes| - 1]);
    }
  }

  /**
   Where a history starts: at its earliest block if it was stored before, else at the current block of its first stored
   pass.
   */
  ghost function StartBlock(protocol: Protocol, stored: Option<Saved>, passes: seq<Pass>): nat {
    if stored.Some? then stored.value.earliest
    else if passes == [] then 0
    else
      var init, pass := passes[..|passes| - 1], passes[|passes| - 1];
      if Run(protocol, None, init).None? && pass.current.Some? then pass.current.value
      else StartBlock(protocol, None, init)
  }

  /** The passes of a run that complete a backward window. */
  ghost function BackwardSteps(protocol: Protocol, stored: Option<Saved>, passes: seq<Pass>): nat {
    if passes == [] then 0
    else
      var init, pass := passes[..|passes| - 1], passes[|passes| - 1];
      var before := Run(protocol, stored, init);
      var goesBack :=
        && pass.current.Some? && pass.backwardOk
        && (if before.Some? then before.value.earliest else pass.current.value) > 0;
      BackwardSteps(protocol, stored, init) + if goesBack then 1 else 0
  }

  /** Where `n` backward windows of a protocol lead from block `e`. */
  ghost function Descend(protocol: Protocol, e: nat, n: nat): nat {
    var distance := n * (protocol.Delta() + 1);
    if distance < e then e - distance else 0
  }

  lemma DescendOneMore(protocol: Protocol, e: nat, n: nat)
    ensures Descend(protocol, e, n + 1) == NextEarliest(protocol, Descend(protocol, e, n))
    ensures Descend(protocol, e, 0) == e
  {
    var stride := protocol.Delta() + 1;
    assert (n + 1) * stride == n * stride + stride;
  }

  /** The earliest block depends only on how many backward windows succeeded, not on when. */
  lemma {:induction false} EarliestCountsSteps(protocol: Protocol, stored: Option<Saved>, passes: seq<Pass>)
    ensures var end, steps := Run(protocol, stored, passes), BackwardSteps(protocol, stored, passes);
            && (end.Some? ==> end.value.earliest == Descend(protocol, StartBlock(protocol, stored, passes), steps))
            && (end.None? ==> steps == 0)
  {
    if passes != [] {
      var init := passes[..|passes| - 1];
      EarliestCountsSteps(protocol, stored, init);
      if stored.Some? {
        RunExtends(protocol, stored, init);
      }
      LastPassEarliest(protocol, Run(protocol, stored, init), passes[|passes| - 1]);
      DescendOneMore(protocol, StartBlock(protocol, stored, passes), BackwardSteps(protocol, stored, init));
    }
  }

  /** What one pass does to the earliest block. */
  lemma LastPassEarliest(protocol: Protocol, before: Option<Saved>, pass: Pass)
    ensures var after := AfterPass(protocol, before, pass);
            var current := if pass.current.Some? then pass.current.value else 0;
            var earliest := if before.Some? then before.value.earliest else current;
            var back := pass.current.Some? && pass.backwardOk && earliest > 0;
            && (after.Some? <==> before.Some? || back)
            && (after.Some? ==> after.value.earliest == if back then NextEarliest(protocol, earliest) else earliest)
  {
  }

  /** Block 0 is reached exactly when `ceil(start / (delta + 1))` backward windows have succeeded. */
  lemma BeginningReachedIff(protocol: Protocol, stored: Option<Saved>, passes: seq<Pass>)
    requires Run(protocol, stored, passes).Some?
    ensures var start, steps := StartBlock(protocol, stored, passes), BackwardSteps(protocol, stored, passes);
            Run(protocol, stored, passes).value.earliest == 0 <==>
                (start + protocol.Delta()) / (protocol.Delta() + 1) <= steps
  {
    EarliestCountsSteps(protocol, stored, passes);
    var start, steps := StartBlock(protocol, stored, passes), BackwardSteps(protocol, stored, passes);
    match protocol {
      case Eth => assert Descend(Eth, start, steps) == 0 <==> start <= steps * 1001;
      case Erc20 => assert Descend(Erc20, start, steps) == 0 <==> start <= steps * 10001;
    }
  }

  lemma CoveredFromBeginning(saved: Saved)
    requires EthCovered(saved) && saved.earliest == 0
    ensures forall b: nat :: 1 <= b <= saved.latest ==> Times(saved.windows, b) == 1
  {
    forall b: nat | 1 <= b <= saved.latest ensures Times(saved.windows, b) == 1 {
      assert EthCoveredAt(saved, b);
    }
  }

  /** Then every ETH block of the chain up to `latest` has been downloaded, exactly once. */
  lemma CompleteOnceBeginningReached(stored: Option<Saved>, passes: seq<Pass>)
    requires stored.Some? ==> EthCovered(stored.value)
    requires Run(Eth, stored, passes).Some?
    requires (StartBlock(Eth, stored, passes) + 1000) / 1001 <= BackwardSteps(Eth, stored, passes)
    ensures var end := Run(Eth, stored, passes).value;
            forall b: nat :: 1 <= b <= end.latest ==> Times(end.windows, b) == 1
  {
    EthScansEachBlockOnce(stored, passes);
    BeginningReachedIff(Eth, stored, passes);
    CoveredFromBeginning(Run(Eth, stored, passes).value);
  }

  // ---------- how far forward ----------

  ghost predicate CompletesBackward(pass: Pass) {
    pass.current.Some? && pass.current.value > 0 && pass.backwardOk
  }

  /** A history is stored as soon as a pass above block 0 completes its backward window. */
  lemma {:induction false} StoredIff(protocol: Protocol, stored: Option<Saved>, passes: seq<Pass>)
    ensures Run(protocol, stored, passes).Some?
       <==> stored.Some? || exists i :: 0 <= i < |passes| && CompletesBackward(passes[i])
  {
    if passes != [] {
      var last := |passes| - 1;
      StoredIff(protocol, stored, passes[..last]);
      assert forall i :: 0 <= i < last ==> passes[..last][i] == passes[i];
    }
  }

  /** Pass `i` gets to its forward window, and both of its queries succeed. */
  ghost predicate GoesForward(protocol: Protocol, stored: Option<Saved>, passes: seq<Pass>, i: nat)
    requires i < |passes|
  {
    var before := Run(protocol, stored, passes[..i]);
    && passes[i].current.Some? && passes[i].forwardOk
    && (passes[i].backwardOk || (before.Some? && before.value.earliest == 0))
  }

  /** The latest block when a history is first stored. */
  ghost function FirstLatest(protocol: Protocol, stored: Option<Saved>, passes: seq<Pass>): nat {
    if stored.Some? then stored.value.latest else StartBlock(protocol, None, passes)
  }

  ghost predicate GoesForwardTo(protocol: Protocol, stored: Option<Saved>, passes: seq<Pass>, i: nat, height: nat) {
    i < |passes| && GoesForward(protocol, stored, passes, i) && passes[i].current.value == height
  }

  /**
   Over every run: the history reaches up to the greatest height among the passes that get to go forward, or to where it
   started.
   */
  lemma {:induction false} LatestIsGreatestHeight(protocol: Protocol, stored: Option<Saved>, passes: seq<Pass>)
    requires Run(protocol, stored, passes).Some?
    ensures var latest := Run(protocol, stored, passes).value.latest;
            && FirstLatest(protocol, stored, passes) <= latest
            && (forall i: nat, height: nat :: GoesForwardTo(protocol, stored, passes, i, height) ==> height <= latest)
            && (latest == FirstLatest(protocol, stored, passes)
                || exists i: nat :: GoesForwardTo(protocol, stored, passes, i, latest))
  {
    if passes != [] {
      var last := |passes| - 1;
      var init := passes[..last];
      var latest := Run(protocol, stored, passes).value.latest;
      forall i: nat, height: nat | i < last
        ensures GoesForwardTo(protocol, stored, passes, i, height) <==> GoesForwardTo(protocol, stored, init, i, height)
      {
        assert init[..i] == passes[..i];
      }
      LastPassLatest(protocol, Run(protocol, stored, init), passes[last]);
      assert forall height: nat :: GoesForwardTo(protocol, stored, passes, last, height) ==> height <= latest;
      if Run(protocol, stored, init).Some? {
        LatestIsGreatestHeight(protocol, stored, init);
        if latest != Run(protocol, stored, init).value.latest {
          assert GoesForwardTo(protocol, stored, passes, last, latest);
        }
      } else {
        StoredIff(protocol, stored, init);
        NothingBeforeFirst(protocol, stored, init);
      }
    }
  }

  /** What one pass does to the latest block. */
  lemma LastPassLatest(protocol: Protocol, before: Option<Saved>, pass: Pass)
    ensures var after := AfterPass(protocol, before, pass);
            var forward := pass.current.Some? && pass.forwardOk
                           && (pass.backwardOk || (before.Some? && before.value.earliest == 0));
            && (before.Some? ==>
                  && after.Some?
                  && after.value.latest == MaxNat(before.value.latest, if forward then pass.current.value else 0))
            && (before.None? && after.Some? ==> pass.current.Some? && after.value.latest == pass.current.value)
  {
  }

  /** As long as nothing is stored, no pass above block 0 gets to go forward. */
  lemma NothingBeforeFirst(protocol: Protocol, stored: Option<Saved>, passes: seq<Pass>)
    requires Run(protocol, stored, passes).None?
    ensures forall i: nat, height: nat :: GoesForwardTo(protocol, stored, passes, i, height) ==> height == 0
  {
    StoredIff(protocol, stored, passes);
    forall i: nat, height: nat | GoesForwardTo(protocol, stored, passes, i, height) ensures height == 0 {
      StoredIff(protocol, stored, passes[..i]);
      assert forall j :: 0 <= j < i ==> passes[..i][j] == passes[j];
      assert !CompletesBackward(passes[i]);
    }
  }

  // ---------- ERC20: what its windows leave out ----------

  /** Blocks whose distance below `origin` is a multiple of 10001. */
  ghost predicate OnStride(origin: nat, b: nat) {
    b <= origin && (origin - b) % 10001 == 0
  }

  /**
   ERC20, for a history that started at block `origin`: of the blocks from `earliest` up,
   exactly those on the stride of `origin` are missing; all others up to `latest` were scanned once.
   */
  ghost predicate Erc20Covered(saved: Saved, origin: nat) {
    && saved.earliest <= origin <= saved.latest
    && (saved.earliest == 0 || OnStride(origin, saved.earliest))
    && forall b: nat :: Erc20CoveredAt(saved, origin, b)
  }

  ghost predicate Erc20CoveredAt(saved: Saved, origin: nat, b: nat) {
    Times(saved.windows, b) == if saved.earliest <= b <= saved.latest && !OnStride(origin, b) then 1 else 0
  }

  lemma Erc20BackwardCovers(saved: Saved, origin: nat)
    requires Erc20Covered(saved, origin) && saved.earliest > 0
    ensures Erc20Covered(Backward(Erc20, saved), origin)
  {
    var w := BackwardWindow(Erc20, saved.earliest);
    forall b: nat ensures Erc20CoveredAt(Backward(Erc20, saved), origin, b) {
      assert Erc20CoveredAt(saved, origin, b);
      TimesOfOneMore(saved.windows, w, b);
      if w.from <= b <= w.to || b == saved.earliest - 10001 {
        StrideFrom(origin, saved.earliest, b);
      }
    }
    if saved.earliest > 10000 {
      StrideFrom(origin, saved.earliest, saved.earliest - 10001);
    }
  }

  /** Going down from a block of the stride, the next one is 10001 blocks away. */
  lemma StrideFrom(origin: nat, top: nat, b: nat)
    requires OnStride(origin, top) && top - 10001 <= b < top
    ensures OnStride(origin, b) <==> b == top - 10001
  {
    var q := (origin - top) / 10001;
    assert origin - b == 10001 * q + (top - b);
  }

  lemma Erc20ForwardCovers(saved: Saved, origin: nat, current: nat)
    requires Erc20Covered(saved, origin) && current > saved.latest
    ensures Erc20Covered(Forward(saved, current), origin)
  {
    forall b: nat ensures Erc20CoveredAt(Forward(saved, current), origin, b) {
      assert Erc20CoveredAt(saved, origin, b);
      TimesOfOneMore(saved.windows, Window(saved.latest + 1, current), b);
    }
  }

  /**
   Over every run, from a history stored earlier or from none: no ERC20 block is downloaded twice, and exactly the
   stated blocks are missing. A history stored earlier may have been started at any block above its earliest one.
   */
  lemma {:induction false} Erc20ScansAllButStride(stored: Option<Saved>, origin: nat, passes: seq<Pass>)
    requires stored.Some? ==> Erc20Covered(stored.value, origin)
    ensures var end := Run(Erc20, stored, passes);
            end.Some? ==> Erc20Covered(end.value, if stored.Some? then origin else StartBlock(Erc20, None, passes))
  {
    if passes != [] {
      var init, pass := passes[..|passes| - 1], passes[|passes| - 1];
      Erc20ScansAllButStride(stored, origin, init);
      var before := Run(Erc20, stored, init);
      if pass.current.Some? {
        var current := pass.current.value;
        var saved := if before.Some? then before.value else Saved([], current, current);
        var from := if stored.Some? then origin else StartBlock(Erc20, None, passes);
        if stored.Some? {
          RunExtends(Erc20, stored, init);
        }
        assert Erc20Covered(saved, from);
        var here := if saved.earliest > 0 then Backward(Erc20, saved) else saved;
        if saved.earliest > 0 {
          Erc20BackwardCovers(saved, from);
        }
        if current > here.latest {
          Erc20ForwardCovers(here, from, current);
        }
      }
    }
  }
}
