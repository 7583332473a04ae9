/**
 Trajectories: what `validate` accepts, and the rewards-to-go a training sequence
 is given. Rewards and log-probabilities are reals, so all of them are finite.
 */
module Trajectory {
  import opened Strings
  import opened Wrappers

  datatype StepKind = PolicyAction | ToolResult | UserTurn | Context

  datatype Step = Step(kind: StepKind, start: nat, end: nat, reward: Option<real>)

  datatype Trajectory = Trajectory(scenarioId: string, tokens: seq<int>, oldLogprobs: seq<real>,
                                   trainMask: seq<bool>, steps: seq<Step>, reward: Option<real>, truncated: bool)

  datatype Invalid =
    | EmptyScenario
    | LengthsDiffer
    | FirstTokenTrained
    | LogprobsDoNotAlign
    | NotAPartition(step: nat)
    | TrainedOutsidePolicy(step: nat)
    | NotCovered

  /** `trim().is_empty()`. */
  predicate IsBlank(s: string) {
    forall i :: 0 <= i < |s| ==> IsSpace(s[i])
  }

  /** The positions of the trained tokens, in order. */
  function TrainedUpTo(mask: seq<bool>, n: nat): (r: seq<nat>)
    requires n <= |mask|
    ensures forall k :: 0 <= k < |r| ==> r[k] < n && mask[r[k]]
    ensures forall p: nat :: p < n && mask[p] ==> p in r
    ensures forall j, k :: 0 <= j < k < |r| ==> r[j] < r[k]
  {
    if n == 0 then []
    else
      var rest := TrainedUpTo(mask, n - 1);
      if mask[n - 1] then rest + [n - 1] else rest
  }

  function Trained(t: Trajectory): seq<nat> {
    TrainedUpTo(t.trainMask, |t.trainMask|)
  }

  predicate AnyTrained(mask: seq<bool>, start: nat, end: nat)
    requires start <= end <= |mask|
  {
    exists p :: start <= p < end && mask[p]
  }

  /** The steps follow each other from the first token on, none empty. */
  predicate Partitions(steps: seq<Step>, n: nat) {
    forall i: nat :: i < |steps| ==> FollowsOn(steps, i, n)
  }

  predicate FollowsOn(steps: seq<Step>, i: nat, n: nat)
    requires i < |steps|
  {
    && steps[i].start == (if i == 0 then 0 else steps[i - 1].end)
    && steps[i].start < steps[i].end <= n
  }

  /** Only policy actions hold trained tokens. */
  predicate PolicyTrains(t: Trajectory, steps: seq<Step>)
    requires Partitions(steps, |t.trainMask|)
  {
    forall i: nat :: i < |steps| && steps[i].kind != PolicyAction ==>
      (assert FollowsOn(steps, i, |t.trainMask|); !AnyTrained(t.trainMask, steps[i].start, steps[i].end))
  }

  function EndOf(steps: seq<Step>): nat {
    if steps == [] then 0 else steps[|steps| - 1].end
  }

  predicate Valid(t: Trajectory) {
    && !IsBlank(t.scenarioId)
    && |t.tokens| == |t.trainMask| && |t.tokens| > 0 && !t.trainMask[0]
    && Trained(t) != [] && |t.oldLogprobs| == |Trained(t)|
    && Partitions(t.steps, |t.tokens|) && PolicyTrains(t, t.steps)
    && EndOf(t.steps) == |t.tokens|
  }

  predicate InStep(s: Step, p: nat) {
    s.start <= p < s.end
  }

  /** `why` is a true fault of the trajectory. */
  ghost predicate IsFault(t: Trajectory, why: Invalid) {
    match why
    case EmptyScenario => forall i :: 0 <= i < |t.scenarioId| ==> IsSpace(t.scenarioId[i])
    case LengthsDiffer => |t.tokens| != |t.trainMask|
    case FirstTokenTrained => |t.tokens| == 0 || (t.trainMask != [] && t.trainMask[0])
    case LogprobsDoNotAlign => Trained(t) == [] || |t.oldLogprobs| != |Trained(t)|
    case NotAPartition(i) =>
      && i < |t.steps|
      && (t.steps[i].start != EndOf(t.steps[..i]) || t.steps[i].start >= t.steps[i].end || t.steps[i].end > |t.tokens|)
    case TrainedOutsidePolicy(i) =>
      && i < |t.steps| && t.steps[i].kind != PolicyAction
      && exists p: nat :: InStep(t.steps[i], p) && p < |t.trainMask| && t.trainMask[p]
    case NotCovered => EndOf(t.steps) != |t.tokens|
  }

  /** `validate` accepts exactly the valid trajectories, and otherwise names a true fault. */
  method Validate(t: Trajectory) returns (r: Result<(), Invalid>)
    ensures r.Ok? <==> Valid(t)
    ensures r.Err? ==> IsFault(t, r.error)
    ensures r == Err(EmptyScenario) <==> IsFault(t, EmptyScenario)
  {
    if IsBlank(t.scenarioId) {
      return Err(EmptyScenario);
    }
    if |t.tokens| != |t.trainMask| {
      return Err(LengthsDiffer);
    }
    if |t.tokens| == 0 || t.trainMask[0] {
      return Err(FirstTokenTrained);
    }
    var trained := |Trained(t)|;
    if trained == 0 || |t.oldLogprobs| != trained {
      return Err(LogprobsDoNotAlign);
    }
    var cursor: nat := 0;
    for i := 0 to |t.steps|
      invariant Partitions(t.steps[..i], |t.tokens|) && PolicyTrains(t, t.steps[..i])
      invariant cursor == if i == 0 then 0 else t.steps[i - 1].end
    {
      hide TrainedUpTo, IsBlank, AnyTrained;
      var step := t.steps[i];
      assert FollowsOn(t.steps, i, |t.tokens|) ==> step.start == cursor;
      if step.start != cursor || step.end <= step.start || step.end > |t.tokens| {
        return Err(NotAPartition(i));
      }
      if step.kind != PolicyAction && AnyTrained(t.trainMask, step.start, step.end) {
        return Err(TrainedOutsidePolicy(i));
      }
      ghost var through := t.steps[..i + 1];
      forall k: nat | k < |through| ensures FollowsOn(through, k, |t.tokens|) {
        assert k < i ==> FollowsOn(t.steps[..i], k, |t.tokens|);
      }
      cursor := step.end;
    }
    assert t.steps[..|t.steps|] == t.steps;
    if cursor != |t.tokens| {
      return Err(NotCovered);
    }
    return Ok(());
  }

  // ----- each trained token lies in one policy action

  lemma {:induction false} StepsAscend(steps: seq<Step>, n: nat, i: nat, j: nat)
    requires Partitions(steps, n) && i < j < |steps|
    ensures steps[i].end <= steps[j].start
    decreases j
  {
    assert FollowsOn(steps, j, n);
    if i < j - 1 {
      assert FollowsOn(steps, j - 1, n);
      StepsAscend(steps, n, i, j - 1);
    }
  }

  lemma {:induction false} SomeStepHolds(steps: seq<Step>, n: nat, p: nat) returns (i: nat)
    requires Partitions(steps, n) && p < EndOf(steps)
    ensures i < |steps| && InStep(steps[i], p)
    decreases |steps|
  {
    i := |steps| - 1;
    if p < steps[i].start {
      var front := steps[..i];
      assert FollowsOn(steps, i, n);
      forall k: nat | k < i ensures FollowsOn(front, k, n) {
        assert FollowsOn(steps, k, n);
      }
      i := SomeStepHolds(front, n, p);
    }
  }

  /** On every accepted trajectory each trained token lies in exactly one step, and
      that step is a policy action. */
  lemma TrainedTokensLieInOnePolicyAction(t: Trajectory, p: nat)
    requires Valid(t) && p < |t.tokens| && t.trainMask[p]
    ensures exists i :: 0 <= i < |t.steps| && InStep(t.steps[i], p) && t.steps[i].kind == PolicyAction
    ensures forall i, j :: 0 <= i < j < |t.steps| ==> !(InStep(t.steps[i], p) && InStep(t.steps[j], p))
  {
    var i := SomeStepHolds(t.steps, |t.tokens|, p);
    assert FollowsOn(t.steps, i, |t.tokens|);
    assert AnyTrained(t.trainMask, t.steps[i].start, t.steps[i].end);
    forall i, j | 0 <= i < j < |t.steps| ensures !(InStep(t.steps[i], p) && InStep(t.steps[j], p)) {
      StepsAscend(t.steps, |t.tokens|, i, j);
    }
  }

  // ----- rewards

  function RewardOf(s: Step): real {
    match s.reward case Some(r) => r case None => 0.0
  }

  function StepRewardSum(steps: seq<Step>): real {
    if steps == [] then 0.0 else RewardOf(steps[0]) + StepRewardSum(steps[1..])
  }

  function TotalReward(t: Trajectory): real {
    (match t.reward case Some(r) => r case None => 0.0) + StepRewardSum(t.steps)
  }

  predicate Graded(steps: seq<Step>) {
    exists i :: 0 <= i < |steps| && steps[i].reward.Some?
  }

  /** The rewards of the steps that start at `position` or later. */
  function ReturnFrom(steps: seq<Step>, position: nat): real {
    if steps == [] then 0.0
    else (if steps[0].start >= position then RewardOf(steps[0]) else 0.0) + ReturnFrom(steps[1..], position)
  }

  datatype TrainSequence = TrainSequence(tokens: seq<int>, oldLogprobs: seq<real>, trainMask: seq<bool>, reward: real,
                                         groupId: nat, intermediateReturns: seq<real>)

  datatype TrainError = NotValid | TruncatedMember | NotRewarded

  function IntermediateReturns(t: Trajectory): seq<real> {
    if !Graded(t.steps) then []
    else seq(|Trained(t)|, k requires 0 <= k < |Trained(t)| => ReturnFrom(t.steps, Trained(t)[k]))
  }

  /** `to_train_sequence`; `drop` is the truncation policy that refuses partial trajectories. */
  function ToTrainSequence(t: Trajectory, groupId: nat, drop: bool): Result<TrainSequence, TrainError> {
    if !Valid(t) then Err(NotValid)
    else if t.truncated && drop then Err(TruncatedMember)
    else match t.reward
      case None => Err(NotRewarded)
      case Some(reward) =>
        Ok(TrainSequence(t.tokens, t.oldLogprobs, t.trainMask, reward + StepRewardSum(t.steps), groupId,
                         IntermediateReturns(t)))
  }

  // ----- the returns are rewards-to-go

  /** The reward entering at each token: of the step that starts there, if one does. */
  function RewardAt(steps: seq<Step>, position: nat): real {
    if steps == [] then 0.0
    else (if steps[0].start == position then RewardOf(steps[0]) else 0.0) + RewardAt(steps[1..], position)
  }

  lemma {:induction false} ReturnStepsBack(steps: seq<Step>, position: nat)
    ensures ReturnFrom(steps, position) == RewardAt(steps, position) + ReturnFrom(steps, position + 1)
  {
    if steps != [] {
      ReturnStepsBack(steps[1..], position);
    }
  }

  lemma {:induction false} NothingStartsPastTheEnd(steps: seq<Step>, n: nat)
    requires forall i :: 0 <= i < |steps| ==> steps[i].start < n
    ensures ReturnFrom(steps, n) == 0.0
  {
    if steps != [] {
      NothingStartsPastTheEnd(steps[1..], n);
    }
  }

  /** One pass from the last token to the first, adding each step's reward where the
      step starts, computes the return of every token. */
  method RewardsToGo(t: Trajectory) returns (togo: seq<real>)
    requires Valid(t)
    ensures |togo| == |t.tokens|
    ensures forall p :: 0 <= p < |t.tokens| ==> togo[p] == ReturnFrom(t.steps, p)
    ensures Graded(t.steps) ==>
              && |IntermediateReturns(t)| == |Trained(t)|
              && forall k :: 0 <= k < |Trained(t)| ==> IntermediateReturns(t)[k] == togo[Trained(t)[k]]
  {
    togo := [];
    var running := 0.0;
    var p: nat := |t.tokens|;
    forall i | 0 <= i < |t.steps| ensures t.steps[i].start < |t.tokens| {
      assert FollowsOn(t.steps, i, |t.tokens|);
    }
    NothingStartsPastTheEnd(t.steps, |t.tokens|);
    while p > 0
      invariant p <= |t.tokens| && |togo| == |t.tokens| - p
      invariant running == ReturnFrom(t.steps, p)
      invariant forall q :: p <= q < |t.tokens| ==> togo[q - p] == ReturnFrom(t.steps, q)
    {
      p := p - 1;
      ReturnStepsBack(t.steps, p);
      running := RewardAt(t.steps, p) + running;
      togo := [running] + togo;
    }
  }

  /** The rewards of the steps that start from `from` on and before `to`. */
  function RewardBetween(steps: seq<Step>, from: nat, to: nat): real {
    if steps == [] then 0.0
    else (if from <= steps[0].start < to then RewardOf(steps[0]) else 0.0) + RewardBetween(steps[1..], from, to)
  }

  lemma {:induction false} ReturnsDiffer(steps: seq<Step>, from: nat, to: nat)
    requires from <= to
    ensures ReturnFrom(steps, from) - ReturnFrom(steps, to) == RewardBetween(steps, from, to)
  {
    if steps != [] {
      ReturnsDiffer(steps[1..], from, to);
    }
  }

  /** The returns of a graded trajectory stand one to one with its log-probabilities;
      two of them differ by exactly what is earned by the steps that start between their
      tokens; and tokens of one policy action share one return, which a reward of
      that action itself does not enter. */
  lemma ReturnsAlignAndDifferByTheRewardsBetween(t: Trajectory, groupId: nat, drop: bool)
    requires ToTrainSequence(t, groupId, drop).Ok? && Graded(t.steps)
    ensures var s := ToTrainSequence(t, groupId, drop).value;
            var togo, at := s.intermediateReturns, Trained(t);
            && |togo| == |s.oldLogprobs| == |at|
            && s.reward == TotalReward(t)
            && (forall j, k :: 0 <= j <= k < |at| ==>
                  togo[j] - togo[k] == RewardBetween(t.steps, at[j], at[k]))
  {
    var at := Trained(t);
    forall j, k | 0 <= j <= k < |at|
      ensures ReturnFrom(t.steps, at[j]) - ReturnFrom(t.steps, at[k]) == RewardBetween(t.steps, at[j], at[k])
    {
      ReturnsDiffer(t.steps, at[j], at[k]);
    }
  }

  lemma {:induction false} OnlyStepStartingBetween(steps: seq<Step>, i: nat, from: nat, to: nat)
    requires i < |steps|
    requires forall k :: 0 <= k < |steps| && k != i ==> !(from <= steps[k].start < to)
    ensures RewardBetween(steps, from, to) == if from <= steps[i].start < to then RewardOf(steps[i]) else 0.0
  {
    if i == 0 {
      NothingStartsBetween(steps[1..], from, to);
    } else {
      OnlyStepStartingBetween(steps[1..], i - 1, from, to);
    }
  }

  lemma {:induction false} NothingStartsBetween(steps: seq<Step>, from: nat, to: nat)
    requires forall k :: 0 <= k < |steps| ==> !(from <= steps[k].start < to)
    ensures RewardBetween(steps, from, to) == 0.0
  {
    if steps != [] {
      NothingStartsBetween(steps[1..], from, to);
    }
  }

  lemma {:induction false} AllStepsCount(steps: seq<Step>)
    ensures ReturnFrom(steps, 0) == StepRewardSum(steps)
  {
    if steps != [] {
      AllStepsCount(steps[1..]);
    }
  }

  /** Where steps are and are not graded: the rewards of `steps` from the first to the last. */
  lemma {:induction false} UngradedStepsEarnNothing(before: seq<Step>, step: Step, after: seq<Step>)
    ensures StepRewardSum(before + [step] + after)
         == StepRewardSum(before) + (if step.reward.Some? then step.reward.value else 0.0) + StepRewardSum(after)
  {
    if before == [] {
      assert [] + [step] + after == [step] + after && ([step] + after)[1..] == after;
    } else {
      UngradedStepsEarnNothing(before[1..], step, after);
      assert (before + [step] + after)[1..] == before[1..] + [step] + after;
    }
  }

  /** What is trained on is the trajectory as it is, with its own reward and all that its
      steps earned; and it is refused exactly when it is not valid, or partial and such are
      dropped, or not rewarded. */
  lemma TrainSequencesAreTheirTrajectories(t: Trajectory, groupId: nat, drop: bool)
    ensures var r := ToTrainSequence(t, groupId, drop);
            && (r.Ok? <==> Valid(t) && !(t.truncated && drop) && t.reward.Some?)
            && (r == Err(NotValid) <==> !Valid(t))
            && (r.Ok? ==>
                  && r.value.tokens == t.tokens && r.value.oldLogprobs == t.oldLogprobs
                  && r.value.trainMask == t.trainMask && r.value.groupId == groupId
                  && r.value.reward == t.reward.value + ReturnFrom(t.steps, 0)
                  && (r.value.intermediateReturns == [] <==> forall i :: 0 <= i < |t.steps| ==> t.steps[i].reward.None?))
  {
    AllStepsCount(t.steps);
    hide ReturnFrom, StepRewardSum, Partitions, PolicyTrains, IsBlank, TrainedUpTo;
  }

  /** Within one step the returns of all tokens agree, except that the reward of the
      step itself reaches its first token only. */
  lemma ReturnsWithinOneStep(t: Trajectory, i: nat, p: nat, q: nat)
    requires Valid(t) && i < |t.steps|
    requires t.steps[i].start <= p < q < t.steps[i].end
    ensures ReturnFrom(t.steps, p) == ReturnFrom(t.steps, q)
            + (if p == t.steps[i].start && t.steps[i].reward.Some? then t.steps[i].reward.value else 0.0)
  {
    forall k | 0 <= k < |t.steps| && k != i ensures !(p <= t.steps[k].start < q) {
      assert FollowsOn(t.steps, k, |t.tokens|);
      if k < i {
        StepsAscend(t.steps, |t.tokens|, k, i);
      } else {
        StepsAscend(t.steps, |t.tokens|, i, k);
      }
    }
    OnlyStepStartingBetween(t.steps, i, p, q);
    ReturnsDiffer(t.steps, p, q);
  }
}
