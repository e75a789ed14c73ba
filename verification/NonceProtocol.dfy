/**
 Nonces of one address: many senders share a lock, each asks every node for the pending
 transaction count, signs with the highest answer, broadcasts, and keeps the lock until some
 node reports a higher count.

 `GetAddrNonce` is the query with its retries. The rest is a state machine over single
 replies, so that counts may change between the replies of one round.
 */
module NonceProtocol {
  import opened Common

  // ---------- one query with its retries ----------

  /** Replies of one round, node by node; `None` is a failed request. */
  type Round = seq<Option<nat>>

  ghost predicate Answered(round: Round, n: nat) {
    exists i :: 0 <= i < |round| && round[i] == Some(n)
  }

  ghost predicate IsMaximum(round: Round, max: nat) {
    Answered(round, max) && forall n: nat :: Answered(round, n) ==> n <= max
  }

  ghost predicate Silent(round: Round) {
    forall i :: 0 <= i < |round| ==> round[i].None?
  }

  /** Nodes are positions in the round. The list is ascending, so each node is in it once. */
  ghost predicate AreTheNodesReporting(nodes: seq<nat>, round: Round, n: nat) {
    && (forall i, j :: 0 <= i < j < |nodes| ==> nodes[i] < nodes[j])
    && (forall k: nat :: k in nodes <==> k < |round| && round[k] == Some(n))
  }

  /**
   The answer written out: the highest count of the round, with exactly the nodes that reported it, at least one, in
   order.
   */
  ghost predicate IsNonceAnswer(round: Round, max: nat, nodes: seq<nat>) {
    && nodes != []
    && (forall i, j :: 0 <= i < j < |nodes| ==> nodes[i] < nodes[j])
    && (forall i: nat :: i in nodes <==> i < |round| && round[i] == Some(max))
    && (forall i :: 0 <= i < |round| && round[i].Some? ==> round[i].value <= max)
  }

  method Highest(round: Round) returns (max: Option<nat>)
    ensures max.None? <==> Silent(round)
    ensures max.Some? ==> IsMaximum(round, max.value)
  {
    max := None;
    for i := 0 to |round|
      invariant max.None? <==> Silent(round[..i])
      invariant max.Some? ==> Answered(round, max.value) && forall j :: 0 <= j < i && round[j].Some? ==>
          round[j].value <= max.value
    {
      if round[i].Some? && (max.None? || max.value < round[i].value) {
        max := round[i];
      }
    }
  }

  method NodesReporting(round: Round, n: nat) returns (nodes: seq<nat>)
    ensures AreTheNodesReporting(nodes, round, n)
  {
    nodes := [];
    for i := 0 to |round|
      invariant forall k, l :: 0 <= k < l < |nodes| ==> nodes[k] < nodes[l]
      invariant forall k :: 0 <= k < |nodes| ==> nodes[k] < i
      invariant forall k: nat :: k in nodes <==> k < i && round[k] == Some(n)
    {
      if round[i] == Some(n) {
        nodes := nodes + [i];
      }
    }
  }

  /**
   The first of at most six rounds in which a node answers decides; its nodes are the ones the transaction goes to.
   */
  method GetAddrNonce(rounds: nat -> Round) returns (r: Option<(nat, seq<nat>)>)
    ensures r.None? <==> forall k: nat, i: nat :: k < 6 && i < |rounds(k)| ==> rounds(k)[i].None?
    ensures r.Some? ==> exists k: nat ::
              && k < 6 && (forall j: nat, i: nat :: j < k && i < |rounds(j)| ==> rounds(j)[i].None?)
              && IsNonceAnswer(rounds(k), r.value.0, r.value.1)
  {
    var errors: nat := 0;
    while true
      invariant errors <= 5
      invariant forall k: nat :: k < errors ==> Silent(rounds(k))
      decreases 6 - errors
    {
      var max := Highest(rounds(errors));
      if max.Some? {
        var nodes := NodesReporting(rounds(errors), max.value);
        assert IsNonceAnswer(rounds(errors), max.value, nodes) by {
          var i :| 0 <= i < |rounds(errors)| && rounds(errors)[i] == max;
          assert i in nodes;
          assert forall i :: 0 <= i < |rounds(errors)| && rounds(errors)[i].Some? ==>
              Answered(rounds(errors), rounds(errors)[i].value);
        }
        return Some((max.value, nodes));
      }
      errors := errors + 1;
      if errors > 5 {
        return None;
      }
    }
  }

  // ---------- many senders ----------

  type Sender = nat

  type Replies = map<nat, Option<nat>>

  /**
   What the holder of the lock is doing: collecting replies to choose its nonce, about to
   broadcast, or waiting for a node to report a higher count.
   */
  datatype Phase =
    | Asking(replies: Replies, best: nat)
    | Signed(nonce: nat)
    | Confirming(nonce: nat)

  datatype State = State(
    counts: seq<nat>,                     // pending count each node would report now
    holder: Option<(Sender, Phase)>,      // the address lock
    broadcast: seq<nat>)                  // nonces of the successful broadcasts, in order

  ghost predicate IsHighest(counts: seq<nat>, node: nat) {
    node < |counts| && forall i :: 0 <= i < |counts| ==> counts[i] <= counts[node]
  }

  /** The round of `n` nodes, once all their replies have come in. */
  ghost function RoundOf(replies: Replies, n: nat): (round: Round)
    ensures |round| == n
  {
    seq(n, i => if i in replies then replies[i] else None)
  }

  ghost predicate CountsGrow(before: seq<nat>, after: seq<nat>) {
    |before| == |after| && forall i :: 0 <= i < |before| ==> before[i] <= after[i]
  }

  /**
   The steps. `reliable` is the assumption on the nodes: a node that had the highest count when the
   lock was taken does answer. Without it any node may fail to answer.
   */
  datatype Step =
    | NodesAdvance(counts: seq<nat>)
    | TakeLock(sender: Sender, best: nat)
    | Reply(node: nat, reply: Option<nat>)
    | Retry
    | Sign(nonce: nat)
    | GiveUp
    | Broadcast
    | SeeIncrease(node: nat)

  ghost predicate Enabled(s: State, step: Step, reliable: bool) {
    match step
    case NodesAdvance(counts) => CountsGrow(s.counts, counts)
    case TakeLock(_, best) => s.holder.None? && IsHighest(s.counts, best)
    case Reply(node, reply) =>
      && s.holder.Some? && s.holder.value.1.Asking?
      && node < |s.counts| && node !in s.holder.value.1.replies
      && (if reply.Some? then reply.value == s.counts[node] else reliable ==> node != s.holder.value.1.best)
    case Retry =>
      // a silent round is repeated
      && s.holder.Some? && s.holder.value.1.Asking?
      && RoundOver(s, s.holder.value.1.replies) && Silent(RoundOf(s.holder.value.1.replies, |s.counts|))
    case Sign(nonce) =>
      && s.holder.Some? && s.holder.value.1.Asking?
      && RoundOver(s, s.holder.value.1.replies) && IsMaximum(RoundOf(s.holder.value.1.replies, |s.counts|), nonce)
    case GiveUp => s.holder.Some? && !s.holder.value.1.Confirming?
    case Broadcast => s.holder.Some? && s.holder.value.1.Signed?
    case SeeIncrease(node) =>
      && s.holder.Some? && s.holder.value.1.Confirming?
      && node < |s.counts| && s.counts[node] > s.holder.value.1.nonce
  }

  ghost predicate RoundOver(s: State, replies: Replies) {
    forall i :: 0 <= i < |s.counts| ==> i in replies
  }

  ghost function Next(s: State, step: Step, reliable: bool): State
    requires Enabled(s, step, reliable)
  {
    match step
    case NodesAdvance(counts) => s.(counts := counts)
    case TakeLock(sender, best) => s.(holder := Some((sender, Asking(map[], best))))
    case Reply(node, reply) =>
      var (sender, phase) := s.holder.value;
      s.(holder := Some((sender, Asking(phase.replies[node := reply], phase.best))))
    case Retry =>
      var (sender, phase) := s.holder.value;
      s.(holder := Some((sender, Asking(map[], phase.best))))
    case Sign(nonce) => s.(holder := Some((s.holder.value.0, Signed(nonce))))
    case GiveUp => s.(holder := None)
    case Broadcast =>
      var nonce := s.holder.value.1.nonce;
      s.(holder := Some((s.holder.value.0, Confirming(nonce))), broadcast := s.broadcast + [nonce])
    case SeeIncrease(_) => s.(holder := None)
  }

  ghost predicate IsRun(states: seq<State>, steps: seq<Step>, reliable: bool) {
    && |states| == |steps| + 1
    && states[0].holder == None && states[0].broadcast == []
    && forall i :: 0 <= i < |steps| ==>
         Enabled(states[i], steps[i], reliable) && states[i + 1] == Next(states[i], steps[i], reliable)
  }

  ghost predicate Increasing(nonces: seq<nat>) {
    forall i, j :: 0 <= i < j < |nonces| ==> nonces[i] < nonces[j]
  }

  ghost predicate AllBelow(nonces: seq<nat>, bound: nat) {
    forall i :: 0 <= i < |nonces| ==> nonces[i] < bound
  }

  ghost predicate SomeNodeIsPast(s: State) {
    s.broadcast == [] || exists i :: 0 <= i < |s.counts| && AllBelow(s.broadcast, s.counts[i])
  }

  /**
   Until the next broadcast some node is past every broadcast nonce. For an asking sender the best node
   of its round is such a node, and so is the reply of that node once it has come in.
   */
  ghost predicate Inv(s: State) {
    && Increasing(s.broadcast)
    && match s.holder
       case None => SomeNodeIsPast(s)
       case Some((_, Asking(replies, best))) =>
         && best < |s.counts| && AllBelow(s.broadcast, s.counts[best])
         && (best in replies ==> replies[best].Some? && AllBelow(s.broadcast, replies[best].value))
       case Some((_, Signed(nonce))) => SomeNodeIsPast(s) && AllBelow(s.broadcast, nonce)
       case Some((_, Confirming(nonce))) => |s.broadcast| > 0 && s.broadcast[|s.broadcast| - 1] == nonce
  }

  lemma AllBelowGrows(nonces: seq<nat>, bound: nat, higher: nat)
    requires AllBelow(nonces, bound) && bound <= higher
    ensures AllBelow(nonces, higher)
  {
  }

  lemma NodesAdvanceKeepsInv(s: State, counts: seq<nat>)
    requires Inv(s) && CountsGrow(s.counts, counts)
    ensures Inv(s.(counts := counts))
  {
    if s.broadcast != [] && exists i :: 0 <= i < |s.counts| && AllBelow(s.broadcast, s.counts[i]) {
      var i :| 0 <= i < |s.counts| && AllBelow(s.broadcast, s.counts[i]);
      AllBelowGrows(s.broadcast, s.counts[i], counts[i]);
    }
    if s.holder.Some? && s.holder.value.1.Asking? {
      var best := s.holder.value.1.best;
      AllBelowGrows(s.broadcast, s.counts[best], counts[best]);
    }
  }

  lemma StepKeepsInv(s: State, step: Step)
    requires Inv(s) && Enabled(s, step, true)
    ensures Inv(Next(s, step, true))
  {
    match step {
      case NodesAdvance(counts) => NodesAdvanceKeepsInv(s, counts);
      case TakeLock(_, best) =>
        if s.broadcast != [] {
          var i :| 0 <= i < |s.counts| && AllBelow(s.broadcast, s.counts[i]);
          AllBelowGrows(s.broadcast, s.counts[i], s.counts[best]);
        }
      case Sign(nonce) =>
        var Asking(replies, best) := s.holder.value.1;
        var round := RoundOf(replies, |s.counts|);
        assert round[best] == replies[best] && Answered(round, replies[best].value);
        AllBelowGrows(s.broadcast, replies[best].value, nonce);
      case SeeIncrease(node) =>
        assert AllBelow(s.broadcast, s.counts[node]);
      case _ =>
    }
  }

  /**
   In every interleaving of senders, replies and growing counts, successful broadcasts carry strictly increasing
   nonces.
   */
  lemma {:induction false} NoncesStrictlyIncrease(states: seq<State>, steps: seq<Step>, i: nat)
    requires IsRun(states, steps, true) && i < |states|
    ensures Inv(states[i]) && Increasing(states[i].broadcast)
  {
    if i > 0 {
      NoncesStrictlyIncrease(states, steps, i - 1);
      StepKeepsInv(states[i - 1], steps[i - 1]);
    }
  }

  // ---------- without the assumption: exactly when nonces increase ----------

  /** In the round of the asking sender some node has replied with a count past every broadcast nonce. */
  ghost predicate PastNodeAnswered(s: State) {
    && s.holder.Some? && s.holder.value.1.Asking?
    && exists node :: node in s.holder.value.1.replies && node < |s.counts|
                      && s.holder.value.1.replies[node].Some?
                      && AllBelow(s.broadcast, s.holder.value.1.replies[node].value)
  }

  lemma SignIsPastIff(s: State, nonce: nat)
    requires Enabled(s, Sign(nonce), false)
    ensures AllBelow(s.broadcast, nonce) <==> PastNodeAnswered(s)
  {
    var replies := s.holder.value.1.replies;
    var round := RoundOf(replies, |s.counts|);
    var best :| 0 <= best < |round| && round[best] == Some(nonce);
    assert best in replies && replies[best] == Some(nonce);
    if PastNodeAnswered(s) {
      var node :|
        node in replies && node < |s.counts| && replies[node].Some? && AllBelow(s.broadcast, replies[node].value);
      assert round[node] == replies[node] && Answered(round, replies[node].value);
      AllBelowGrows(s.broadcast, replies[node].value, nonce);
    }
  }

  /** Step `j` signs the transaction that is broadcast at step `i`: nothing but changes of counts lies between. */
  ghost predicate SignedAt(steps: seq<Step>, j: nat, i: nat) {
    && j < i <= |steps| && steps[j].Sign?
    && forall k :: j < k < i ==> steps[k].NodesAdvance?
  }

  /** A signed transaction has its signing step, before which the same nonces were broadcast. */
  lemma {:induction false} SignedEarlier(states: seq<State>, steps: seq<Step>, i: nat) returns (j: nat)
    requires IsRun(states, steps, false) && i <= |steps|
    requires states[i].holder.Some? && states[i].holder.value.1.Signed?
    ensures SignedAt(steps, j, i) && steps[j].nonce == states[i].holder.value.1.nonce
    ensures states[j].broadcast == states[i].broadcast
  {
    var before, step := states[i - 1], steps[i - 1];
    assert Enabled(before, step, false) && states[i] == Next(before, step, false);
    if step.Sign? {
      j := i - 1;
    } else {
      j := SignedEarlier(states, steps, i - 1);
    }
  }

  /** Every broadcast transaction was signed after a node past all earlier broadcasts had answered. */
  ghost predicate EveryBroadcastHeardPastNode(states: seq<State>, steps: seq<Step>, n: nat)
    requires |states| == |steps| + 1 && n <= |steps|
  {
    forall i: nat, j: nat :: i < n && steps[i].Broadcast? && SignedAt(steps, j, i) ==> PastNodeAnswered(states[j])
  }

  /**
   Over every run, whichever requests fail: the broadcast nonces increase strictly if and only if each round that led
   to a broadcast got an answer from some node that was past all nonces broadcast before.
   */
  lemma {:induction false} NoncesIncreaseIff(states: seq<State>, steps: seq<Step>, n: nat)
    requires IsRun(states, steps, false) && n <= |steps|
    ensures Increasing(states[n].broadcast) <==> EveryBroadcastHeardPastNode(states, steps, n)
  {
    if n > 0 {
      var before, step := states[n - 1], steps[n - 1];
      NoncesIncreaseIff(states, steps, n - 1);
      assert Enabled(before, step, false) && states[n] == Next(before, step, false);
      if step.Broadcast? {
        var j := SignedEarlier(states, steps, n - 1);
        var nonce := steps[j].nonce;
        assert Enabled(states[j], steps[j], false);
        SignIsPastIff(states[j], nonce);
        IncreasingWithOneMoreIff(before.broadcast, nonce);
      }
    }
  }

  /** The assumption of `NoncesStrictlyIncrease` is a sufficient condition for that. */
  lemma ReliableNodesAreHeard(states: seq<State>, steps: seq<Step>)
    requires IsRun(states, steps, true)
    ensures EveryBroadcastHeardPastNode(states, steps, |steps|)
  {
    forall i | 0 <= i < |steps|
      ensures Enabled(states[i], steps[i], false) && states[i + 1] == Next(states[i], steps[i], false)
    {
      assert Enabled(states[i], steps[i], true) && states[i + 1] == Next(states[i], steps[i], true);
    }
    NoncesStrictlyIncrease(states, steps, |steps|);
    NoncesIncreaseIff(states, steps, |steps|);
  }

  lemma IncreasingWithOneMoreIff(nonces: seq<nat>, nonce: nat)
    ensures Increasing(nonces + [nonce]) <==> Increasing(nonces) && AllBelow(nonces, nonce)
  {
    var more := nonces + [nonce];
    assert forall i :: 0 <= i < |nonces| ==> more[i] == nonces[i];
    if Increasing(more) {
      assert forall i :: 0 <= i < |nonces| ==> more[i] < more[|nonces|];
    }
  }

  lemma Extend(states: seq<State>, steps: seq<Step>, step: Step) returns (states': seq<State>, steps': seq<Step>)
    requires IsRun(states, steps, false) && Enabled(states[|steps|], step, false)
    ensures IsRun(states', steps', false)
    ensures |steps'| == |steps| + 1 && states'[|steps'|] == Next(states[|steps|], step, false)
  {
    states', steps' := states + [Next(states[|steps|], step, false)], steps + [step];
  }

  /** Node after node reports its count. */
  lemma AllReply(states: seq<State>, steps: seq<Step>, sender: Sender, best: nat)
    returns (states': seq<State>, steps': seq<Step>)
    requires IsRun(states, steps, false) && states[|steps|].holder == Some((sender, Asking(map[], best)))
    ensures IsRun(states', steps', false)
    ensures var s := states[|steps|];
            states'[|steps'|]
            == s.(holder := Some((sender, Asking(map i: nat | i < |s.counts| :: Some(s.counts[i]), best))))
  {
    states', steps' := states, steps;
    var s := states[|steps|];
    for k := 0 to |s.counts|
      invariant IsRun(states', steps', false)
      invariant states'[|steps'|] == s.(holder := Some((sender, Asking(map i: nat | i < k :: Some(s.counts[i]), best))))
    {
      var replies := map i: nat | i < k :: Some(s.counts[i]);
      states', steps' := Extend(states', steps', Reply(k, Some(s.counts[k])));
      assert replies[k := Some(s.counts[k])] == map i: nat | i < k + 1 :: Some(s.counts[i]);
    }
  }

  /**
   When all nodes answer, a sender that finds the lock free broadcasts with the highest count, and gives the lock back
   once that node has counted its transaction.
   */
  lemma AnsweringNodesServeSender(states: seq<State>, steps: seq<Step>, sender: Sender, best: nat)
    returns (states': seq<State>, steps': seq<Step>)
    requires IsRun(states, steps, false) && states[|steps|].holder == None && IsHighest(states[|steps|].counts, best)
    ensures IsRun(states', steps', false)
    ensures var s := states[|steps|];
            states'[|steps'|] == State(s.counts[best := s.counts[best] + 1], None, s.broadcast + [s.counts[best]])
  {
    var s := states[|steps|];
    var nonce := s.counts[best];
    states', steps' := Extend(states, steps, TakeLock(sender, best));
    states', steps' := AllReply(states', steps', sender, best);
    HighestIsMaximum(s, best);
    states', steps' := Extend(states', steps', Sign(nonce));
    states', steps' := Extend(states', steps', Broadcast);
    states', steps' := Release(states', steps', sender, best, nonce);
  }

  lemma HighestIsMaximum(s: State, best: nat)
    requires IsHighest(s.counts, best)
    ensures IsMaximum(RoundOf(map i: nat | i < |s.counts| :: Some(s.counts[i]), |s.counts|), s.counts[best])
  {
    var round := RoundOf(map i: nat | i < |s.counts| :: Some(s.counts[i]), |s.counts|);
    assert forall i :: 0 <= i < |round| ==> round[i] == Some(s.counts[i]);
    assert round[best] == Some(s.counts[best]);
  }

  /** Once a node has counted the transaction, the lock is free. */
  lemma Release(states: seq<State>, steps: seq<Step>, sender: Sender, best: nat, nonce: nat)
    returns (states': seq<State>, steps': seq<Step>)
    requires IsRun(states, steps, false) && states[|steps|].holder == Some((sender, Confirming(nonce)))
    requires best < |states[|steps|].counts| && states[|steps|].counts[best] == nonce
    ensures IsRun(states', steps', false)
    ensures var s := states[|steps|];
            states'[|steps'|] == State(s.counts[best := nonce + 1], None, s.broadcast)
  {
    states', steps' := Extend(states, steps, NodesAdvance(states[|steps|].counts[best := nonce + 1]));
    states', steps' := Extend(states', steps', SeeIncrease(best));
  }

  /**
   A sender that has not broadcast can give up, and one whose round is silent can ask again; neither changes a nonce.
   */
  lemma SilentSenderIsFree(s: State, reliable: bool)
    requires s.holder.Some? && s.holder.value.1.Asking?
    ensures Enabled(s, GiveUp, reliable) && Next(s, GiveUp, reliable) == s.(holder := None)
    ensures (forall i: nat :: i < |s.counts| ==> i in s.holder.value.1.replies && s.holder.value.1.replies[i].None?) ==>
              && Enabled(s, Retry, reliable)
              && Next(s, Retry, reliable).holder == Some((s.holder.value.0, Asking(map[], s.holder.value.1.best)))
              && Next(s, Retry, reliable).broadcast == s.broadcast
  {
  }

  /**
   One transaction of a sender when two nodes stand at the given counts and only the second one may be trusted to
   answer.
   */
  lemma SendOnce(states: seq<State>, steps: seq<Step>, sender: Sender, first: Option<nat>)
    returns (states': seq<State>, steps': seq<Step>)
    requires IsRun(states, steps, false)
    requires var s := states[|steps|];
             && s.holder == None && |s.counts| == 2 && s.counts[1] == 0 <= s.counts[0]
             && (first.Some? ==> first.value == s.counts[0] == 0)
    ensures IsRun(states', steps', false)
    ensures states'[|steps'|]
        == State(states[|steps|].counts, Some((sender, Confirming(0))), states[|steps|].broadcast + [0])
  {
    states', steps' := Extend(states, steps, TakeLock(sender, 0));
    states', steps' := Extend(states', steps', Reply(0, first));
    states', steps' := Extend(states', steps', Reply(1, Some(0)));
    var replies := states'[|steps'|].holder.value.1.replies;
    assert replies == map[0 := first, 1 := Some(0)];
    var round := RoundOf(replies, 2);
    assert round == [first, Some(0)] && round[1] == Some(0);
    assert Answered(round, 0);
    states', steps' := Extend(states', steps', Sign(0));
    states', steps' := Extend(states', steps', Broadcast);
  }

  /**
   Such a run with equal nonces: the node that is ahead fails to answer the second sender, and no other node is past 0.
   */
  lemma SilentBestNodeRepeatsNonce()
    ensures exists states: seq<State>, steps: seq<Step> ::
              && IsRun(states, steps, false) && states[|steps|].broadcast == [0, 0]
              && !EveryBroadcastHeardPastNode(states, steps, |steps|)
  {
    var states, steps := [State([0, 0], None, [])], [];
    states, steps := SendOnce(states, steps, 1, Some(0));
    states, steps := Extend(states, steps, NodesAdvance([1, 0]));
    states, steps := Extend(states, steps, SeeIncrease(0));
    states, steps := SendOnce(states, steps, 2, None);
    assert states[|steps|].broadcast == [0, 0];
    assert states[|steps|].broadcast[0] == states[|steps|].broadcast[1];
    NoncesIncreaseIff(states, steps, |steps|);
  }
}
