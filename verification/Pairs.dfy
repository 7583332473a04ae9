/**
 Pairs mode: a scenario's best passing trace against its worst writable one, cut
 where both are answered next. Validation of the finished pair is a parameter.
 Also the seeds the attempts of a collection start from.
 */
module Pairs {
  import opened Integers
  import opened Wrappers
  import opened Sequences
  import opened StableSort
  import opened Collect

  // ----- cutting two traces at their common prompt

  /** How many messages two traces open with alike. */
  function CommonLength(a: seq<ChatMessage>, b: seq<ChatMessage>): (n: nat)
    ensures n <= |a| && n <= |b| && a[..n] == b[..n]
    ensures n < |a| && n < |b| ==> a[n] != b[n]
  {
    if a == [] || b == [] || a[0] != b[0] then 0
    else
      var n := CommonLength(a[1..], b[1..]);
      assert a[..n + 1] == [a[0]] + a[1..][..n] && b[..n + 1] == [b[0]] + b[1..][..n];
      n + 1
  }

  /** At `at` the assistant answers a user turn or an observation. */
  predicate AnswersNext(messages: seq<ChatMessage>, at: nat) {
    && at < |messages| && messages[at].role == "assistant"
    && at > 0 && (messages[at - 1].role == "user" || messages[at - 1].role == "tool")
  }

  /** The last position from `at` down where both traces are answered next. */
  function FindCut(a: seq<ChatMessage>, b: seq<ChatMessage>, at: nat): (r: Option<nat>)
    ensures r.Some? ==> 1 <= r.value <= at && AnswersNext(a, r.value) && AnswersNext(b, r.value)
    ensures forall n: nat :: 1 <= n <= at && AnswersNext(a, n) && AnswersNext(b, n) ==> r.Some? && n <= r.value
  {
    if at == 0 then None
    else if AnswersNext(a, at) && AnswersNext(b, at) then Some(at)
    else FindCut(a, b, at - 1)
  }

  function PreferencePair(chosen: ChatExample, rejected: ChatExample): Option<Pair> {
    if chosen.tools != rejected.tools then None
    else match FindCut(chosen.messages, rejected.messages, CommonLength(chosen.messages, rejected.messages))
      case None => None
      case Some(cut) => Some(Pair(chosen.tools, chosen.messages[..cut], chosen.messages[cut..], rejected.messages[cut..]))
  }

  /** The first `n` messages of both traces are the same prompt, it ends with what the user
      said or what was observed, and the assistant answers it in both. */
  predicate SharesPrompt(a: ChatExample, b: ChatExample, n: nat) {
    && 0 < n < |a.messages| && n < |b.messages| && a.messages[..n] == b.messages[..n]
    && a.messages[n - 1].role in {"user", "tool"}
    && a.messages[n].role == "assistant" && b.messages[n].role == "assistant"
  }

  lemma SharedPromptsAreAnswered(a: ChatExample, b: ChatExample, n: nat)
    requires n <= |a.messages| && n <= |b.messages| && a.messages[..n] == b.messages[..n]
    ensures SharesPrompt(a, b, n) <==> AnswersNext(a.messages, n) && AnswersNext(b.messages, n)
  {
    if n > 0 {
      assert a.messages[n - 1] == a.messages[..n][n - 1] == b.messages[n - 1];
    }
  }

  lemma {:induction false} CommonLengthIsLongest(a: seq<ChatMessage>, b: seq<ChatMessage>, n: nat)
    requires n <= |a| && n <= |b| && a[..n] == b[..n]
    ensures n <= CommonLength(a, b)
  {
    if n > 0 {
      assert a[0] == a[..n][0] == b[..n][0] == b[0];
      assert a[1..][..n - 1] == a[..n][1..] && b[1..][..n - 1] == b[..n][1..];
      CommonLengthIsLongest(a[1..], b[1..], n - 1);
    }
  }

  /** Prompt and response rebuild each trace; the prompt is the longest the traces
      share and are both answered after; and there is no pair exactly when the tools
      differ or no prompt is shared. */
  lemma PairsAreCutAtTheLongestPrompt(chosen: ChatExample, rejected: ChatExample)
    ensures var r := PreferencePair(chosen, rejected);
            && (r.Some? <==> chosen.tools == rejected.tools && exists n: nat :: SharesPrompt(chosen, rejected, n))
            && (r.Some? ==>
                  var pair := r.value;
                  && pair.tools == chosen.tools == rejected.tools
                  && pair.prompt + pair.chosen == chosen.messages
                  && pair.prompt + pair.rejected == rejected.messages
                  && SharesPrompt(chosen, rejected, |pair.prompt|)
                  && forall n: nat :: SharesPrompt(chosen, rejected, n) ==> n <= |pair.prompt|)
  {
    var (a, b) := (chosen.messages, rejected.messages);
    var common := CommonLength(a, b);
    var cut := FindCut(a, b, common);
    forall n: nat | SharesPrompt(chosen, rejected, n) ensures cut.Some? && n <= cut.value {
      CommonLengthIsLongest(a, b, n);
      SharedPromptsAreAnswered(chosen, rejected, n);
    }
    if cut.Some? {
      SliceOfSlice(a, 0, common, 0, cut.value);
      SliceOfSlice(b, 0, common, 0, cut.value);
      SharedPromptsAreAnswered(chosen, rejected, cut.value);
      assert SharesPrompt(chosen, rejected, cut.value);
    }
  }

  // ----- choosing the two traces

  predicate Within(indices: seq<nat>, n: nat) {
    forall k :: 0 <= k < |indices| ==> indices[k] < n
  }

  /** The first of `indices` that no other is ranked strictly before, as `min_by` finds it. */
  function FirstBest(leq: (Candidate, Candidate) -> bool, cs: seq<Candidate>, indices: seq<nat>): (r: Option<nat>)
    requires Within(indices, |cs|)
    ensures r.Some? ==> r.value in indices && r.value < |cs|
    ensures r.None? <==> indices == []
  {
    if indices == [] then None
    else
      var last := indices[|indices| - 1];
      match FirstBest(leq, cs, indices[..|indices| - 1])
      case None => Some(last)
      case Some(best) => if leq(cs[best], cs[last]) then Some(best) else Some(last)
  }

  lemma {:induction false} FirstBestIsBest(leq: (Candidate, Candidate) -> bool, cs: seq<Candidate>, indices: seq<nat>)
    requires TotalPreorder(leq) && indices != [] && Within(indices, |cs|)
    ensures var best := FirstBest(leq, cs, indices).value;
            forall k :: 0 <= k < |indices| ==> leq(cs[best], cs[indices[k]])
    decreases |indices|
  {
    var front, last := indices[..|indices| - 1], indices[|indices| - 1];
    assert indices == front + [last];
    if front != [] {
      FirstBestIsBest(leq, cs, front);
    }
  }

  /** Worst first; of two equal failures the longer one, then the member. */
  predicate RanksLast(a: Candidate, b: Candidate) {
    || a.reward < b.reward
    || (a.reward == b.reward && (a.length > b.length || (a.length == b.length && a.member <= b.member)))
  }

  function Passing(cs: seq<Candidate>, n: nat, config: CollectConfig): (r: seq<nat>)
    requires n <= |cs|
    ensures Within(r, n) && forall i: nat :: i in r <==> i < n && Rejection(cs[i], config).None?
  {
    if n == 0 then []
    else
      var rest := Passing(cs, n - 1, config);
      if Rejection(cs[n - 1], config).None? then rest + [n - 1] else rest
  }

  function Writable(cs: seq<Candidate>, n: nat, other: nat): (r: seq<nat>)
    requires n <= |cs|
    ensures Within(r, n) && forall i: nat :: i in r <==> i < n && i != other && cs[i].record.Ok?
  {
    if n == 0 then []
    else
      var rest := Writable(cs, n - 1, other);
      if n - 1 != other && cs[n - 1].record.Ok? then rest + [n - 1] else rest
  }

  function Best(cs: seq<Candidate>, config: CollectConfig): (r: Option<nat>)
    ensures r.Some? ==> r.value < |cs|
  {
    FirstBest(Ranks, cs, Passing(cs, |cs|, config))
  }

  function Worst(cs: seq<Candidate>, best: nat): (r: Option<nat>)
    ensures r.Some? ==> r.value < |cs| && r.value != best && cs[r.value].record.Ok?
  {
    FirstBest(RanksLast, cs, Writable(cs, |cs|, best))
  }

  /** How one scenario ends in pairs mode. */
  datatype Ending =
    | PairKept(best: nat, worst: nat, pair: Pair)
    | SingleMember
    | NoGap
    | PromptMismatch
    | Unexportable

  function Outcome(cs: seq<Candidate>, config: CollectConfig, minGap: real, validate: Pair -> bool): Ending {
    if |cs| <= 1 then SingleMember
    else match Best(cs, config)
      case None => NoGap
      case Some(best) =>
        match Worst(cs, best)
        case None => Unexportable
        case Some(worst) =>
          if cs[best].reward - cs[worst].reward < minGap then NoGap
          else if cs[best].record.Err? then Unexportable
          else match PreferencePair(cs[best].record.value, cs[worst].record.value)
            case None => PromptMismatch
            case Some(pair) => if validate(pair) then PairKept(best, worst, pair) else Unexportable
  }

  lemma RanksLastOrders()
    ensures TotalPreorder(RanksLast)
  {
  }

  /** `a` earned no more than `b`; if as little, it is no shorter; if as long, too, it is of
      no later member. */
  predicate StandsLast(a: Candidate, b: Candidate) {
    && a.reward <= b.reward
    && (a.reward == b.reward ==> a.length >= b.length)
    && (a.reward == b.reward && a.length == b.length ==> a.member <= b.member)
  }

  lemma RankingsAreFigures(a: Candidate, b: Candidate)
    ensures Ranks(a, b) <==> StandsFirst(a, b)
    ensures RanksLast(a, b) <==> StandsLast(a, b)
  {
  }

  /** A kept pair sets the best passing trace against another member, the worst of those
      that can be written, the longer of two equal failures; they are at least the gap
      apart and the pair is theirs, cut at their longest common prompt. */
  lemma KeptPairIsBestAgainstWorst(cs: seq<Candidate>, config: CollectConfig, minGap: real, validate: Pair -> bool)
    ensures var e := Outcome(cs, config, minGap, validate);
            e.PairKept? ==>
              && e.best < |cs| && e.worst < |cs| && e.best != e.worst
              && Rejection(cs[e.best], config).None? && cs[e.best].record.Ok? && cs[e.worst].record.Ok?
              && (forall i :: 0 <= i < |cs| && Rejection(cs[i], config).None? ==> StandsFirst(cs[e.best], cs[i]))
              && (forall i :: 0 <= i < |cs| && i != e.best && cs[i].record.Ok? ==> StandsLast(cs[e.worst], cs[i]))
              && cs[e.best].reward - cs[e.worst].reward >= minGap && validate(e.pair)
              && PreferencePair(cs[e.best].record.value, cs[e.worst].record.value) == Some(e.pair)
  {
    hide PreferencePair, Rejection, Ranks, RanksLast, StandsFirst, StandsLast;
    var e := Outcome(cs, config, minGap, validate);
    if e.PairKept? {
      RanksOrders();
      RanksLastOrders();
      var passing, writable := Passing(cs, |cs|, config), Writable(cs, |cs|, e.best);
      FirstBestIsBest(Ranks, cs, passing);
      FirstBestIsBest(RanksLast, cs, writable);
      forall i | 0 <= i < |cs| && Rejection(cs[i], config).None? ensures StandsFirst(cs[e.best], cs[i]) {
        var k :| 0 <= k < |passing| && passing[k] == i;
        RankingsAreFigures(cs[e.best], cs[i]);
      }
      forall i | 0 <= i < |cs| && i != e.best && cs[i].record.Ok? ensures StandsLast(cs[e.worst], cs[i]) {
        var k :| 0 <= k < |writable| && writable[k] == i;
        RankingsAreFigures(cs[e.worst], cs[i]);
      }
    }
  }

  ghost predicate SomePasses(cs: seq<Candidate>, config: CollectConfig) {
    exists i :: 0 <= i < |cs| && Rejection(cs[i], config).None?
  }

  /** A group whose best passing trace and some writable other one lie the gap apart
      is never refused for want of a gap, and a group of two or more in which nothing
      passes, or in which all lie closer, always is. */
  lemma NoGapMeansNoPairIsFarEnoughApart(cs: seq<Candidate>, config: CollectConfig, minGap: real, validate: Pair -> bool)
    requires |cs| > 1
    ensures !SomePasses(cs, config) ==> Outcome(cs, config, minGap, validate) == NoGap
    ensures SomePasses(cs, config) ==>
              var best := Best(cs, config);
              && best.Some?
              && (Outcome(cs, config, minGap, validate) == NoGap <==>
                  (exists j :: 0 <= j < |cs| && j != best.value && cs[j].record.Ok?)
                  && forall i, j :: 0 <= i < |cs| && 0 <= j < |cs| && Rejection(cs[i], config).None?
                                    && j != best.value && cs[j].record.Ok? ==>
                                      cs[i].reward - cs[j].reward < minGap)
  {
    if SomePasses(cs, config) {
      BestHasTheHighestReward(cs, config);
      WorstHasTheLowestReward(cs, Best(cs, config).value);
    } else {
      NonePassing(cs, |cs|, config);
    }
    hide Best, Worst, PreferencePair, Rejection, Passing;
  }

  lemma {:induction false} NonePassing(cs: seq<Candidate>, n: nat, config: CollectConfig)
    requires !SomePasses(cs, config) && n <= |cs|
    ensures Passing(cs, n, config) == []
  {
    if n > 0 {
      NonePassing(cs, n - 1, config);
    }
  }

  lemma BestHasTheHighestReward(cs: seq<Candidate>, config: CollectConfig)
    requires SomePasses(cs, config)
    ensures var best := Best(cs, config);
            && best.Some? && Rejection(cs[best.value], config).None?
            && forall i :: 0 <= i < |cs| && Rejection(cs[i], config).None? ==> cs[i].reward <= cs[best.value].reward
  {
    hide Rejection, FirstBest;
    var passing := Passing(cs, |cs|, config);
    var i :| 0 <= i < |cs| && Rejection(cs[i], config).None?;
    assert i in passing;
    RanksOrders();
    FirstBestIsBest(Ranks, cs, passing);
    var best := Best(cs, config).value;
    assert best in passing;
    forall i | 0 <= i < |cs| && Rejection(cs[i], config).None? ensures cs[i].reward <= cs[best].reward {
      var k :| 0 <= k < |passing| && passing[k] == i;
    }
  }

  lemma WorstHasTheLowestReward(cs: seq<Candidate>, best: nat)
    ensures var worst := Worst(cs, best);
            && (worst.Some? <==> exists j :: 0 <= j < |cs| && j != best && cs[j].record.Ok?)
            && (worst.Some? ==>
                  forall j :: 0 <= j < |cs| && j != best && cs[j].record.Ok? ==> cs[worst.value].reward <= cs[j].reward)
  {
    hide FirstBest;
    var writable := Writable(cs, |cs|, best);
    RanksLastOrders();
    if writable != [] {
      FirstBestIsBest(RanksLast, cs, writable);
      var worst := Worst(cs, best).value;
      forall j | 0 <= j < |cs| && j != best && cs[j].record.Ok? ensures cs[worst].reward <= cs[j].reward {
        var k :| 0 <= k < |writable| && writable[k] == j;
      }
    } else {
      assert forall j: nat :: j < |cs| && j != best ==> j !in writable;
    }
  }

  /** Some trace other than the best can be written. */
  ghost predicate SomeOther(cs: seq<Candidate>, best: nat) {
    exists j :: 0 <= j < |cs| && j != best && cs[j].record.Ok?
  }

  /** The best lies the gap above some other trace that can be written. */
  ghost predicate FarEnough(cs: seq<Candidate>, best: nat, minGap: real)
    requires best < |cs|
  {
    exists j :: 0 <= j < |cs| && j != best && cs[j].record.Ok? && cs[best].reward - cs[j].reward >= minGap
  }

  /** Why a group that has a best passing trace and a gap yields no pair, and when a group
      is too small or has nothing to be rejected. */
  lemma WhyNoPairIsKept(cs: seq<Candidate>, config: CollectConfig, minGap: real, validate: Pair -> bool)
    ensures var e := Outcome(cs, config, minGap, validate);
            && (e.SingleMember? <==> |cs| <= 1)
            && (|cs| > 1 && SomePasses(cs, config) ==>
                  var best := Best(cs, config).value;
                  var worst := Worst(cs, best);
                  && (worst.Some? <==> SomeOther(cs, best))
                  && (!SomeOther(cs, best) ==> e.Unexportable?)
                  && (SomeOther(cs, best) && FarEnough(cs, best, minGap) ==>
                        && (e.Unexportable? <==>
                              || cs[best].record.Err?
                              || (var pair := PreferencePair(cs[best].record.value, cs[worst.value].record.value);
                                  pair.Some? && !validate(pair.value)))
                        && (e.PromptMismatch? <==>
                              && cs[best].record.Ok?
                              && PreferencePair(cs[best].record.value, cs[worst.value].record.value).None?)))
  {
    hide PreferencePair, Rejection;
    if SomePasses(cs, config) {
      BestHasTheHighestReward(cs, config);
      WorstHasTheLowestReward(cs, Best(cs, config).value);
    }
    hide Best, Worst, SomePasses;
  }

  // ----- `keep_pair`

  function CountEnding(p: PairRejections, ending: Ending): PairRejections {
    match ending
    case SingleMember => p.(singleMember := p.singleMember + 1)
    case NoGap => p.(noGap := p.noGap + 1)
    case PromptMismatch => p.(promptMismatch := p.promptMismatch + 1)
    case _ => p
  }

  function CountUnexportable(r: Rejections, ending: Ending): Rejections {
    if ending.Unexportable? then r.(unexportable := r.unexportable + 1) else r
  }

  /** `keep_pair`: exactly one of the five endings is entered, next to the filters
      every attempt is counted on; only a kept pair reaches the sink. */
  method KeepPair(scenarioId: string, attempted: nat, candidates: seq<Candidate>, minGap: real, config: CollectConfig,
                  validate: Pair -> bool, stats: CollectStats, sink: CollectSink) returns (ok: bool)
    modifies stats, sink
    ensures var ending := Outcome(candidates, config, minGap, validate);
            var passed := |Passing(candidates, |candidates|, config)|;
            && (ok <==> !(ending.PairKept? && old(sink.room) == 0))
            && sink.records == old(sink.records)
            && sink.pairs == old(sink.pairs) + (if ending.PairKept? && ok then [ending.pair] else [])
            && stats.attempted == old(stats.attempted) + attempted && stats.failures == old(stats.failures)
            && stats.kept == old(stats.kept) + (if ending.PairKept? && ok then 1 else 0)
            && stats.rejected == CountUnexportable(Filtered(old(stats.rejected), candidates, config), ending)
            && stats.pairs == CountEnding(old(stats.pairs), ending)
            && stats.scenarios == old(stats.scenarios) +
                 (if ok then [ScenarioReport(scenarioId, attempted, passed, if ending.PairKept? then 1 else 0,
                                             PassRate(passed, attempted))] else [])
  {
    hide Outcome, PassRate, Rejection, Count, CountEnding, CountUnexportable;
    stats.attempted := stats.attempted + attempted;
    var passing: seq<nat> := [];
    for index := 0 to |candidates|
      invariant passing == Passing(candidates, index, config)
      invariant stats.rejected == Filtered(old(stats.rejected), candidates[..index], config)
      invariant stats.attempted == old(stats.attempted) + attempted && stats.kept == old(stats.kept)
      invariant stats.failures == old(stats.failures)
      invariant stats.pairs == old(stats.pairs) && stats.scenarios == old(stats.scenarios)
      invariant sink.room == old(sink.room) && sink.records == old(sink.records) && sink.pairs == old(sink.pairs)
    {
      NextAttempt(old(stats.rejected), candidates, index, config);
      match Rejection(candidates[index], config)
      case Some(cause) => stats.rejected := Count(stats.rejected, cause);
      case None => passing := passing + [index];
    }
    assert candidates[..|candidates|] == candidates;
    hide Passing, Filtered;
    var passed := |passing|;
    var kept;
    var ending := Decide(candidates, passing, config, minGap, validate);
    ok, kept := EnterEnding(ending, stats, sink);
    if !ok {
      return;
    }
    stats.kept := stats.kept + kept;
    stats.scenarios := stats.scenarios +
      [ScenarioReport(scenarioId, attempted, passed, kept, PassRate(passed, attempted))];
  }

  /** `min_by` over some of the candidates: the first that no other is ranked before. */
  method MinBy(leq: (Candidate, Candidate) -> bool, cs: seq<Candidate>, indices: seq<nat>) returns (best: Option<nat>)
    requires Within(indices, |cs|)
    ensures best == FirstBest(leq, cs, indices)
  {
    best := None;
    for i := 0 to |indices|
      invariant best == FirstBest(leq, cs, indices[..i])
    {
      assert indices[..i + 1][..i] == indices[..i];
      if best.None? || !leq(cs[best.value], cs[indices[i]]) {
        best := Some(indices[i]);
      }
    }
    assert indices[..|indices|] == indices;
  }

  /** The other traces that can be written. */
  method Others(cs: seq<Candidate>, chosen: nat) returns (indices: seq<nat>)
    ensures indices == Writable(cs, |cs|, chosen)
  {
    indices := [];
    for i := 0 to |cs|
      invariant indices == Writable(cs, i, chosen)
    {
      if i != chosen && cs[i].record.Ok? {
        indices := indices + [i];
      }
    }
  }

  /** How the group ends, found the way `keep_pair` does. */
  method Decide(cs: seq<Candidate>, passing: seq<nat>, config: CollectConfig, minGap: real, validate: Pair -> bool)
    returns (ending: Ending)
    requires passing == Passing(cs, |cs|, config)
    ensures ending == Outcome(cs, config, minGap, validate)
  {
    hide FirstBest, Writable, PreferencePair, Ranks, RanksLast;
    var chosen := MinBy(Ranks, cs, passing);
    if |cs| <= 1 {
      return SingleMember;
    }
    if chosen.None? {
      return NoGap;
    }
    var others := Others(cs, chosen.value);
    var rejected := MinBy(RanksLast, cs, others);
    if rejected.None? {
      return Unexportable;
    }
    var best, worst := cs[chosen.value], cs[rejected.value];
    if best.reward - worst.reward < minGap {
      return NoGap;
    }
    if best.record.Err? {
      return Unexportable;
    }
    var pair := PreferencePair(best.record.value, worst.record.value);
    if pair.None? {
      return PromptMismatch;
    }
    if !validate(pair.value) {
      return Unexportable;
    }
    return PairKept(chosen.value, rejected.value, pair.value);
  }

  lemma NextAttempt(r: Rejections, cs: seq<Candidate>, i: nat, config: CollectConfig)
    requires i < |cs|
    ensures Filtered(r, cs[..i + 1], config) ==
            match Rejection(cs[i], config)
            case Some(cause) => Count(Filtered(r, cs[..i], config), cause)
            case None => Filtered(r, cs[..i], config)
  {
    assert cs[..i + 1][..i] == cs[..i];
  }

  /** Counts how the scenario ended, or hands the pair to the sink. */
  method EnterEnding(ending: Ending, stats: CollectStats, sink: CollectSink) returns (ok: bool, kept: nat)
    modifies stats`pairs, stats`rejected, sink
    ensures ok <==> !(ending.PairKept? && old(sink.room) == 0)
    ensures kept == if ending.PairKept? && ok then 1 else 0
    ensures sink.records == old(sink.records)
    ensures sink.pairs == old(sink.pairs) + (if ending.PairKept? && ok then [ending.pair] else [])
    ensures stats.rejected == CountUnexportable(old(stats.rejected), ending)
    ensures stats.pairs == CountEnding(old(stats.pairs), ending)
  {
    ok, kept := true, 0;
    match ending
    case SingleMember => stats.pairs := stats.pairs.(singleMember := stats.pairs.singleMember + 1);
    case NoGap => stats.pairs := stats.pairs.(noGap := stats.pairs.noGap + 1);
    case PromptMismatch => stats.pairs := stats.pairs.(promptMismatch := stats.pairs.promptMismatch + 1);
    case Unexportable => stats.rejected := stats.rejected.(unexportable := stats.rejected.unexportable + 1);
    case PairKept(_, _, pair) =>
      ok := sink.RecordPair(pair);
      kept := if ok then 1 else 0;
  }

  // ----- seeds

  /** `base_seed`: `seed + index * k`, both wrapping at 64 bits. */
  function BaseSeed(seed: nat, k: nat, index: nat): nat {
    (seed + index * k % U64_END) % U64_END
  }

  /** The seed of one attempt: each member one further than the last. */
  function AttemptSeed(seed: nat, k: nat, index: nat, m: nat): nat {
    (BaseSeed(seed, k, index) + m) % U64_END
  }

  /** Attempts of a collection by scenario and member. */
  ghost predicate SeedsAreDistinct(seed: nat, k: nat, scenarios: nat) {
    forall i: nat, m: nat, j: nat, n: nat ::
      i < scenarios && j < scenarios && m < k && n < k && AttemptSeed(seed, k, i, m) == AttemptSeed(seed, k, j, n)
      ==> i == j && m == n
  }

  lemma AttemptSeedIs(seed: nat, k: nat, index: nat, m: nat)
    ensures AttemptSeed(seed, k, index, m) == (seed + (index * k + m)) % U64_END
  {
    var product := index * k;
    assert product == product / U64_END * U64_END + product % U64_END;
    WrapTwice(seed + product % U64_END, m);
    WrapMultiple(seed + product % U64_END + m, product / U64_END);
  }

  lemma WrapTwice(x: nat, m: nat)
    ensures (x % U64_END + m) % U64_END == (x + m) % U64_END
  {
  }

  lemma WrapMultiple(x: nat, q: nat)
    ensures (x + q * U64_END) % U64_END == x % U64_END
  {
  }

  lemma WrapsApart(x: nat, d: nat)
    requires 0 < d < U64_END
    ensures (x + d) % U64_END != x % U64_END
  {
  }

  /** Attempts in order of scenario and member are numbered without gaps. */
  lemma AttemptNumber(k: nat, scenarios: nat, i: nat, m: nat, j: nat, n: nat)
    requires i < scenarios && j < scenarios && m < k && n < k
    ensures i * k + m < scenarios * k
    ensures i * k + m == j * k + n ==> i == j && m == n
  {
    assert (i + 1) * k <= scenarios * k;
    if i < j {
      assert (i + 1) * k <= j * k;
    } else if j < i {
      assert (j + 1) * k <= i * k;
    }
  }

  lemma DistinctSeeds(seed: nat, k: nat, scenarios: nat, i: nat, m: nat, j: nat, n: nat)
    requires scenarios * k <= U64_END && i < scenarios && j < scenarios && m < k && n < k
    requires AttemptSeed(seed, k, i, m) == AttemptSeed(seed, k, j, n)
    ensures i == j && m == n
  {
    hide AttemptSeed;
    AttemptSeedIs(seed, k, i, m);
    AttemptSeedIs(seed, k, j, n);
    AttemptNumber(k, scenarios, i, m, j, n);
    AttemptNumber(k, scenarios, j, n, i, m);
    var a, b := i * k + m, j * k + n;
    if a < b {
      WrapsApart(seed + a, b - a);
    } else if b < a {
      WrapsApart(seed + b, a - b);
    }
  }

  lemma LessFactor(a: nat, b: nat, k: nat)
    requires a * k < b * k
    ensures a < b
  {
  }

  /** The attempt number 2^64 starts over with the seed of the first. */
  lemma RepeatedSeed(seed: nat, k: nat, scenarios: nat) returns (i: nat, m: nat)
    requires k > 0 && scenarios * k > U64_END
    ensures i < scenarios && m < k && (i > 0 || m > 0)
    ensures AttemptSeed(seed, k, i, m) == AttemptSeed(seed, k, 0, 0)
  {
    i, m := U64_END / k, U64_END % k;
    assert i * k + m == U64_END;
    LessFactor(i, scenarios, k);
    AttemptSeedIs(seed, k, i, m);
    AttemptSeedIs(seed, k, 0, 0);
    WrapMultiple(seed, 1);
  }

  /** No two attempts of a collection share a seed, members and scenarios alike,
      exactly as long as there are at most 2^64 of them. */
  lemma SeedsAreDistinctUpToTheWordSize(seed: nat, k: nat, scenarios: nat)
    requires k > 0
    ensures SeedsAreDistinct(seed, k, scenarios) <==> scenarios * k <= U64_END
  {
    hide AttemptSeed;
    if scenarios * k <= U64_END {
      forall i: nat, m: nat, j: nat, n: nat
        | i < scenarios && j < scenarios && m < k && n < k && AttemptSeed(seed, k, i, m) == AttemptSeed(seed, k, j, n)
        ensures i == j && m == n
      {
        DistinctSeeds(seed, k, scenarios, i, m, j, n);
      }
    } else {
      var i, m := RepeatedSeed(seed, k, scenarios);
    }
  }
}
