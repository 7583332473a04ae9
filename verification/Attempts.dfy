/**
 From the attempts at a scenario to the candidates among them, and a collection from
 a remote model, scenario after scenario.

 What the attempts came to is a parameter. The candidates made of a policy's rollouts
 have the same form: those members, too, are numbered by their place among the attempts
 (crates/retrograd-agent/src/rollout/lockstep.rs:382-385).
 */
module Attempts {
  import opened Wrappers
  import opened Sequences
  import opened StableSort
  import opened Collect
  import opened Pairs
  import opened Duplicates

  /** What one attempt came to. `length` is what counts when the shorter of two traces is
      looked for. */
  datatype Attempt =
    | Failed
    | Truncated
    | Finished(record: Result<ChatExample, string>, length: nat, reward: Option<real>, invalidTurns: nat,
               verification: Option<string>)
  {
    predicate IsGraded() {
      Finished? && reward.Some?
    }
  }

  function CandidateOf(a: Attempt, member: nat, seed: nat): Candidate
    requires a.IsGraded()
  {
    Candidate(a.reward.value, a.length, member, seed, a.invalidTurns, a.verification, a.record)
  }

  /** The graded ones among the attempts at scenario `index`, in order. */
  function CandidatesOf(attempts: seq<Attempt>, index: nat, config: CollectConfig): seq<Candidate> {
    if attempts == [] then []
    else
      var member := |attempts| - 1;
      var rest, last := CandidatesOf(attempts[..member], index, config), attempts[member];
      if last.IsGraded() then rest + [CandidateOf(last, member, AttemptSeed(config.seed, config.k, index, member))]
      else rest
  }

  function CountAttempt(r: Rejections, a: Attempt): Rejections {
    match a
    case Truncated => r.(truncated := r.truncated + 1)
    case Finished(_, _, None, _, _) => r.(unscored := r.unscored + 1)
    case _ => r
  }

  function CountAttempts(r: Rejections, attempts: seq<Attempt>): Rejections {
    if attempts == [] then r
    else CountAttempt(CountAttempts(r, attempts[..|attempts| - 1]), attempts[|attempts| - 1])
  }

  function FailedAmong(attempts: seq<Attempt>): nat {
    if attempts == [] then 0
    else FailedAmong(attempts[..|attempts| - 1]) + if attempts[|attempts| - 1].Failed? then 1 else 0
  }

  /** Counts the attempts that came to nothing, and makes candidates of the others. */
  method Grade(attempts: seq<Attempt>, index: nat, config: CollectConfig, stats: CollectStats)
    returns (candidates: seq<Candidate>)
    modifies stats`rejected, stats`failures
    ensures candidates == CandidatesOf(attempts, index, config)
    ensures stats.rejected == CountAttempts(old(stats.rejected), attempts)
    ensures stats.failures == old(stats.failures) + FailedAmong(attempts)
  {
    candidates := [];
    for member := 0 to |attempts|
      invariant candidates == CandidatesOf(attempts[..member], index, config)
      invariant stats.rejected == CountAttempts(old(stats.rejected), attempts[..member])
      invariant stats.failures == old(stats.failures) + FailedAmong(attempts[..member])
    {
      assert attempts[..member + 1][..member] == attempts[..member];
      match attempts[member]
      case Truncated => stats.rejected := stats.rejected.(truncated := stats.rejected.truncated + 1);
      case Finished(_, _, None, _, _) => stats.rejected := stats.rejected.(unscored := stats.rejected.unscored + 1);
      case Finished(record, length, Some(reward), invalidTurns, verification) =>
        candidates := candidates +
          [Candidate(reward, length, member, AttemptSeed(config.seed, config.k, index, member),
                     invalidTurns, verification, record)];
      case Failed => stats.failures := stats.failures + 1;
    }
    assert attempts[..|attempts|] == attempts;
  }

  // ----- the ranking is total

  /** Candidates carry the number of their attempt, and the seed it was made with. */
  lemma {:induction false} CandidatesAreNumbered(attempts: seq<Attempt>, index: nat, config: CollectConfig)
    ensures var cs := CandidatesOf(attempts, index, config);
            && NumberedApart(cs)
            && forall c :: c in cs ==>
                 && c.member < |attempts| && attempts[c.member].IsGraded()
                 && c == CandidateOf(attempts[c.member], c.member, AttemptSeed(config.seed, config.k, index, c.member))
    decreases |attempts|
  {
    hide AttemptSeed;
    if attempts != [] {
      CandidatesAreNumbered(attempts[..|attempts| - 1], index, config);
    }
  }

  /** The order in which a scenario's attempts are looked at is determined: whatever the
      attempts came to, those that pass have one order only. */
  lemma RankingIsTotal(attempts: seq<Attempt>, index: nat, config: CollectConfig)
    ensures HasOneArrangement(Ranks, Eligible(CandidatesOf(attempts, index, config), config))
  {
    hide NoTwoPassingTie, HasOneArrangement, Ranks;
    CandidatesAreNumbered(attempts, index, config);
    NumberedApartNeverTie(CandidatesOf(attempts, index, config), config);
    RankingIsTotalWithoutTies(CandidatesOf(attempts, index, config), config);
  }

  // ----- every attempt is accounted for

  lemma {:induction false} AttemptsAreCounted(r: Rejections, attempts: seq<Attempt>, index: nat, config: CollectConfig)
    ensures CountAttempts(r, attempts).Total() + |CandidatesOf(attempts, index, config)| + FailedAmong(attempts)
         == r.Total() + |attempts|
    decreases |attempts|
  {
    hide AttemptSeed;
    if attempts != [] {
      AttemptsAreCounted(r, attempts[..|attempts| - 1], index, config);
    }
  }

  /** Every attempt failed, is kept, or lands on exactly one counter. */
  lemma EveryAttemptIsAccountedFor(r: Rejections, attempts: seq<Attempt>, index: nat, config: CollectConfig)
    ensures var cs := CandidatesOf(attempts, index, config);
            Accounted(CountAttempts(r, attempts), cs, config).Total() + |Kept(cs, config)| + FailedAmong(attempts)
            == r.Total() + |attempts|
  {
    AttemptsAreCounted(r, attempts, index, config);
    hide CountAttempts, CandidatesOf, FailedAmong, Accounted, Kept;
    EveryCandidateIsAccountedFor(CountAttempts(r, attempts), CandidatesOf(attempts, index, config), config);
  }

  // ----- a duplicate of nothing that is kept

  /** An attempt that says one thing. */
  function Saying(body: string, reward: real): Attempt {
    Finished(Ok(ChatExample([], [ChatMessage("assistant", body)])), 1, Some(reward), 0, None)
  }

  lemma FingerprintOfSaying(body: string, reward: real, member: nat, seed: nat)
    ensures FingerprintOf(CandidateOf(Saying(body, reward), member, seed)) == [ChatMessage("assistant", body)]
  {
    var m := ChatMessage("assistant", body);
    assert [m][0] == m && [m][1..] == [] && Turns([]) == [] && [m] + [] == [m];
  }

  lemma ThreeCandidates(attempts: seq<Attempt>, config: CollectConfig) returns (a: Candidate, b: Candidate, c: Candidate)
    requires |attempts| == 3 && forall i :: 0 <= i < 3 ==> attempts[i].IsGraded()
    ensures CandidatesOf(attempts, 0, config) == [a, b, c]
    ensures a == CandidateOf(attempts[0], 0, AttemptSeed(config.seed, config.k, 0, 0))
    ensures b == CandidateOf(attempts[1], 1, AttemptSeed(config.seed, config.k, 0, 1))
    ensures c == CandidateOf(attempts[2], 2, AttemptSeed(config.seed, config.k, 0, 2))
  {
    hide AttemptSeed;
    a := CandidateOf(attempts[0], 0, AttemptSeed(config.seed, config.k, 0, 0));
    b := CandidateOf(attempts[1], 1, AttemptSeed(config.seed, config.k, 0, 1));
    c := CandidateOf(attempts[2], 2, AttemptSeed(config.seed, config.k, 0, 2));
    assert attempts[..2][..1] == attempts[..1] && attempts[..1][..0] == [];
    assert CandidatesOf(attempts[..1], 0, config) == [a];
    assert CandidatesOf(attempts[..2], 0, config) == [a, b];
  }

  lemma {:induction false} AllEnter(r: Rejections, cs: seq<Candidate>, config: CollectConfig)
    requires forall i :: 0 <= i < |cs| ==> Rejection(cs[i], config).None?
    ensures Eligible(cs, config) == cs && Filtered(r, cs, config) == r
    decreases |cs|
  {
    hide Rejection;
    if cs != [] {
      AllEnter(r, cs[..|cs| - 1], config);
      assert cs == cs[..|cs| - 1] + [cs[|cs| - 1]];
    }
  }

  /** Ranked already, the last two with one fingerprint and the first with another. */
  lemma KeptOfThree(a: Candidate, b: Candidate, c: Candidate, config: CollectConfig)
    requires Rejection(a, config).None? && Rejection(b, config).None? && Rejection(c, config).None?
    requires a.record.Ok? && b.record.Ok? && c.record.Ok? && config.keep == 1
    requires Ranks(a, b) && Ranks(b, c) && FingerprintOf(a) != FingerprintOf(b) && FingerprintOf(b) == FingerprintOf(c)
    ensures Ranked([a, b, c], config) == [a, b, c] && Distinct(Exportable([a, b, c])) == [a, b]
    ensures Exportable([a, b, c]) == [a, b, c] && Kept([a, b, c], config) == [a]
  {
    hide FingerprintOf, Rejection, Ranks;
    AllEnter(Rejections(0, 0, 0, 0, 0, 0, 0, 0), [a, b, c], config);
    var one, two, three := [a], [a, b], [a, b, c];
    assert one[..0] == [] && two[..1] == one && three[..2] == two;
    RanksOrders();
    assert Sorted(Ranks, three);
    SortedStays(Ranks, three);
    assert Exportable(one) == one && Exportable(two) == two && Exportable(three) == three;
    assert forall d :: d in one <==> d == a;
    assert FingerprintOf(b) !in Fingerprints(one) && b in two && FingerprintOf(c) in Fingerprints(two);
    assert Distinct(one) == one && Distinct(two) == two && Distinct(three) == two;
  }

  lemma AccountedOfThree(a: Candidate, b: Candidate, c: Candidate, config: CollectConfig)
    requires config.keep == 1
    requires Ranked([a, b, c], config) == [a, b, c] && Distinct(Exportable([a, b, c])) == [a, b]
    requires Exportable([a, b, c]) == [a, b, c]
    requires forall i :: 0 <= i < 3 ==> Rejection([a, b, c][i], config).None?
    ensures Accounted(Rejections(0, 0, 0, 0, 0, 0, 0, 0), [a, b, c], config) == Rejections(0, 0, 0, 0, 0, 1, 1, 0)
  {
    hide Ranked, Distinct, Exportable, Rejection;
    AllEnter(Rejections(0, 0, 0, 0, 0, 0, 0, 0), [a, b, c], config);
    hide Filtered;
  }

  lemma NothingLike(cs: seq<Candidate>, config: CollectConfig, kept: Candidate, c: Candidate)
    requires Kept(cs, config) == [kept] && IsDuplicate(cs, config, c) && FingerprintOf(c) != FingerprintOf(kept)
    ensures !DuplicatesRepeatKept(cs, config)
  {
    hide FingerprintOf, Kept, IsDuplicate;
    assert forall d :: d in [kept] <==> d == kept;
  }

  /** Three attempts and room for one: the first is the best, the others say the same
      worse thing. The second is over the cap, and the third is counted as a duplicate,
      although nothing like it is kept. */
  lemma ADuplicateMayRepeatNothingKept() returns (attempts: seq<Attempt>, config: CollectConfig)
    ensures |attempts| == config.k == 3
    ensures var cs := CandidatesOf(attempts, 0, config);
            && |cs| == 3 && Kept(cs, config) == [cs[0]]
            && Accounted(Rejections(0, 0, 0, 0, 0, 0, 0, 0), cs, config) == Rejections(0, 0, 0, 0, 0, 1, 1, 0)
            && IsDuplicate(cs, config, cs[2]) && !DuplicatesRepeatKept(cs, config)
  {
    hide AttemptSeed, FingerprintOf;
    attempts := [Saying("a", 1.0), Saying("b", 0.0), Saying("b", 0.0)];
    config := CollectConfig(3, 1, None, false, 0, None);
    var a, b, c := ThreeCandidates(attempts, config);
    FingerprintOfSaying("a", 1.0, a.member, a.seed);
    FingerprintOfSaying("b", 0.0, b.member, b.seed);
    FingerprintOfSaying("b", 0.0, c.member, c.seed);
    assert [ChatMessage("assistant", "a")][0] != [ChatMessage("assistant", "b")][0];
    KeptOfThree(a, b, c, config);
    var cs := [a, b, c];
    assert cs[1] == b && cs[2] == c && b in cs && c in cs;
    assert b.member == 1 && c.member == 2;
    AccountedOfThree(a, b, c, config);
    NothingLike(cs, config, a, c);
  }

  // ----- a whole collection

  /** The records of one scenario. */
  function ScenarioRecords(id: string, attempts: seq<Attempt>, index: nat, config: CollectConfig): seq<Written> {
    var cs := CandidatesOf(attempts, index, config);
    KeptRecords(id, PassRate(|Eligible(cs, config)|, config.k), Ranked(cs, config), config.keep)
  }

  /** The records of the first `n` scenarios. */
  function CollectedRecords(ids: seq<string>, attempts: seq<seq<Attempt>>, config: CollectConfig, n: nat): seq<Written>
    requires n <= |ids| == |attempts|
  {
    if n == 0 then []
    else CollectedRecords(ids, attempts, config, n - 1) + ScenarioRecords(ids[n - 1], attempts[n - 1], n - 1, config)
  }

  lemma {:induction false} CollectedGrow(ids: seq<string>, attempts: seq<seq<Attempt>>, config: CollectConfig, m: nat, n: nat)
    requires m <= n <= |ids| == |attempts|
    ensures IsPrefix(CollectedRecords(ids, attempts, config, m), CollectedRecords(ids, attempts, config, n))
    decreases n - m
  {
    hide ScenarioRecords;
    if m < n {
      CollectedGrow(ids, attempts, config, m, n - 1);
      var had, has := CollectedRecords(ids, attempts, config, n - 1), CollectedRecords(ids, attempts, config, n);
      assert has[..|had|] == had;
      SliceOfSlice(has, 0, |had|, 0, |CollectedRecords(ids, attempts, config, m)|);
    }
  }

  /** What is collected with too little room for scenario `index`. */
  lemma CollectedUpTo(ids: seq<string>, attempts: seq<seq<Attempt>>, config: CollectConfig, index: nat, n: nat, room: nat)
    requires index < n <= |ids| == |attempts|
    requires |CollectedRecords(ids, attempts, config, index)| <= room
             < |CollectedRecords(ids, attempts, config, index + 1)|
    ensures |CollectedRecords(ids, attempts, config, n)| > room
    ensures var had := CollectedRecords(ids, attempts, config, index);
            CollectedRecords(ids, attempts, config, n)[..room]
            == had + ScenarioRecords(ids[index], attempts[index], index, config)[..room - |had|]
  {
    hide ScenarioRecords;
    CollectedGrow(ids, attempts, config, index + 1, n);
    var has, all := CollectedRecords(ids, attempts, config, index + 1), CollectedRecords(ids, attempts, config, n);
    assert all[..|has|][..room] == all[..room];
  }

  lemma NothingCollected(ids: seq<string>, attempts: seq<seq<Attempt>>, config: CollectConfig)
    requires |ids| == |attempts|
    ensures CollectedRecords(ids, attempts, config, 0) == []
  {
  }

  lemma OneMoreScenario(ids: seq<string>, attempts: seq<seq<Attempt>>, config: CollectConfig, index: nat)
    requires index < |ids| == |attempts|
    ensures CollectedRecords(ids, attempts, config, index + 1)
         == CollectedRecords(ids, attempts, config, index) + ScenarioRecords(ids[index], attempts[index], index, config)
    ensures (index + 1) * config.k == index * config.k + config.k
  {
  }

  /** Every attempt made is on the books. */
  predicate IsBalanced(stats: CollectStats)
    reads stats
  {
    stats.attempted == stats.kept + stats.rejected.Total() + stats.failures
  }

  /** One scenario, outside pairs mode. */
  method CollectScenario(id: string, attempts: seq<Attempt>, index: nat, config: CollectConfig,
                         stats: CollectStats, sink: CollectSink) returns (ok: bool)
    requires |attempts| == config.k
    modifies stats, sink
    ensures var records := ScenarioRecords(id, attempts, index, config);
            && (ok <==> |records| <= old(sink.room))
            && sink.records == old(sink.records) + (if ok then records else records[..old(sink.room)])
            && sink.pairs == old(sink.pairs) && (ok ==> sink.room == old(sink.room) - |records|)
            && stats.attempted == old(stats.attempted) + config.k
            && (ok ==> stats.kept == old(stats.kept) + |records| && (old(IsBalanced(stats)) ==> IsBalanced(stats)))
  {
    hide CandidatesOf, CountAttempts, FailedAmong, Accounted, Ranked, Eligible, Chosen, RecordsOf, PassRate;
    EveryAttemptIsAccountedFor(stats.rejected, attempts, index, config);
    var candidates := Grade(attempts, index, config, stats);
    ok := KeepBest(id, config.k, candidates, config, stats, sink);
  }

  /** Outside pairs mode. `stop` is the scenario before which an interrupt is noticed. With
      room for them the sink gets the records of all scenarios before that, in order, and
      every attempt at them is accounted for; without it, it gets as many as fit. */
  method CollectFromApi(ids: seq<string>, attempts: seq<seq<Attempt>>, stop: nat, config: CollectConfig, sink: CollectSink)
    returns (ok: bool, stats: CollectStats)
    requires |attempts| == |ids| && forall i :: 0 <= i < |ids| ==> |attempts[i]| == config.k
    modifies sink
    ensures fresh(stats)
    ensures var n := if stop <= |ids| then stop else |ids|;
            var records := CollectedRecords(ids, attempts, config, n);
            && (ok <==> |records| <= old(sink.room))
            && sink.records == old(sink.records) + (if ok then records else records[..old(sink.room)])
            && sink.pairs == old(sink.pairs)
            && (ok ==> stats.attempted == n * config.k && stats.kept == |records| && IsBalanced(stats))
  {
    hide ScenarioRecords, CollectedRecords;
    stats := new CollectStats();
    ok := true;
    var n := if stop <= |ids| then stop else |ids|;
    NothingCollected(ids, attempts, config);
    for index := 0 to n
      invariant ok && fresh(stats) && IsBalanced(stats) && stats.attempted == index * config.k
      invariant stats.kept == |CollectedRecords(ids, attempts, config, index)|
      invariant stats.kept + sink.room == old(sink.room)
      invariant sink.records == old(sink.records) + CollectedRecords(ids, attempts, config, index)
      invariant sink.pairs == old(sink.pairs)
    {
      OneMoreScenario(ids, attempts, config, index);
      ok := CollectScenario(ids[index], attempts[index], index, config, stats, sink);
      if !ok {
        CollectedUpTo(ids, attempts, config, index, n, old(sink.room));
        return;
      }
    }
  }
}
