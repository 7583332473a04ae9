/**
 Rejection sampling: what is kept of one scenario's graded attempts, and how
 every attempt is accounted for.

 Rewards are reals. A record's fingerprint is the sequence of its assistant and
 tool turns: the digest taken of it is injective.
 */
module Collect {
  import opened Wrappers
  import opened Sequences
  import opened StableSort

  datatype ChatMessage = ChatMessage(role: string, body: string)

  datatype ChatExample = ChatExample(tools: seq<string>, messages: seq<ChatMessage>)

  datatype Candidate = Candidate(reward: real, length: nat, member: nat, seed: nat, invalidTurns: nat,
                                 verification: Option<string>, record: Result<ChatExample, string>)

  datatype PairsConfig = PairsConfig(minGap: real)

  datatype CollectConfig = CollectConfig(k: nat, keep: nat, minReward: Option<real>, requireVerified: bool,
                                         seed: nat, pairs: Option<PairsConfig>)

  datatype Rejections = Rejections(truncated: nat, unscored: nat, invalidTurns: nat, belowMinReward: nat,
                                   unverified: nat, duplicate: nat, overKeep: nat, unexportable: nat)
  {
    function Total(): nat {
      truncated + unscored + invalidTurns + belowMinReward + unverified + duplicate + overKeep + unexportable
    }
  }

  datatype PairRejections = PairRejections(noGap: nat, singleMember: nat, promptMismatch: nat)

  datatype ScenarioReport = ScenarioReport(id: string, attempted: nat, passed: nat, kept: nat, passRate: real)

  datatype Pair = Pair(tools: seq<string>, prompt: seq<ChatMessage>, chosen: seq<ChatMessage>, rejected: seq<ChatMessage>)

  class CollectStats {
    var attempted: nat
    var kept: nat
    var rejected: Rejections
    var pairs: PairRejections
    /** Attempts that came to no trace at all. */
    var failures: nat
    var scenarios: seq<ScenarioReport>

    constructor ()
      ensures attempted == 0 && kept == 0 && failures == 0 && scenarios == []
      ensures rejected == Rejections(0, 0, 0, 0, 0, 0, 0, 0) && pairs == PairRejections(0, 0, 0)
    {
      attempted, kept, failures, scenarios := 0, 0, 0, [];
      rejected, pairs := Rejections(0, 0, 0, 0, 0, 0, 0, 0), PairRejections(0, 0, 0);
    }
  }

  // ----- filtering

  datatype Cause = InvalidTurns | BelowMinReward | Unverified

  /** The first filter an attempt fails. */
  function Rejection(c: Candidate, config: CollectConfig): Option<Cause> {
    if c.invalidTurns > 0 then Some(InvalidTurns)
    else if config.minReward.Some? && c.reward < config.minReward.value then Some(BelowMinReward)
    else if config.requireVerified && c.verification != Some("passed") then Some(Unverified)
    else None
  }

  function Count(r: Rejections, cause: Cause): Rejections {
    match cause
    case InvalidTurns => r.(invalidTurns := r.invalidTurns + 1)
    case BelowMinReward => r.(belowMinReward := r.belowMinReward + 1)
    case Unverified => r.(unverified := r.unverified + 1)
  }

  /** The attempts that pass every filter, in order. */
  function Eligible(cs: seq<Candidate>, config: CollectConfig): seq<Candidate> {
    if cs == [] then []
    else
      var rest, last := Eligible(cs[..|cs| - 1], config), cs[|cs| - 1];
      if Rejection(last, config).None? then rest + [last] else rest
  }

  /** The counters once every failed filter of `cs` is entered. */
  function Filtered(r: Rejections, cs: seq<Candidate>, config: CollectConfig): Rejections {
    if cs == [] then r
    else
      var rest := Filtered(r, cs[..|cs| - 1], config);
      match Rejection(cs[|cs| - 1], config)
      case Some(cause) => Count(rest, cause)
      case None => rest
  }

  // ----- ranking and deduplication

  /** The higher reward goes first, then the shorter trace, then the lower member. */
  predicate Ranks(a: Candidate, b: Candidate) {
    || a.reward > b.reward
    || (a.reward == b.reward && (a.length < b.length || (a.length == b.length && a.member <= b.member)))
  }

  function Ranked(cs: seq<Candidate>, config: CollectConfig): seq<Candidate> {
    Sort(Ranks, Eligible(cs, config))
  }

  function Exportable(cs: seq<Candidate>): seq<Candidate> {
    if cs == [] then []
    else
      var rest, last := Exportable(cs[..|cs| - 1]), cs[|cs| - 1];
      if last.record.Ok? then rest + [last] else rest
  }

  predicate IsTurn(m: ChatMessage) {
    m.role == "assistant" || m.role == "tool"
  }

  function Turns(messages: seq<ChatMessage>): seq<ChatMessage> {
    if messages == [] then []
    else (if IsTurn(messages[0]) then [messages[0]] else []) + Turns(messages[1..])
  }

  type Fingerprint = seq<ChatMessage>

  function FingerprintOf(c: Candidate): Fingerprint {
    if c.record.Ok? then Turns(c.record.value.messages) else []
  }

  function Fingerprints(cs: seq<Candidate>): set<Fingerprint> {
    set c | c in cs :: FingerprintOf(c)
  }

  /** The first trace of each fingerprint, in order. */
  function Distinct(cs: seq<Candidate>): (r: seq<Candidate>)
    ensures |r| <= |cs|
  {
    if cs == [] then []
    else
      var front, last := cs[..|cs| - 1], cs[|cs| - 1];
      if FingerprintOf(last) in Fingerprints(front) then Distinct(front) else Distinct(front) + [last]
  }

  function Capped(cs: seq<Candidate>, keep: nat): (r: seq<Candidate>)
    ensures |r| == if |cs| <= keep then |cs| else keep
  {
    if |cs| <= keep then cs else cs[..keep]
  }

  /** What comes through exporting, deduplicating and capping ranked traces. */
  function Chosen(ranked: seq<Candidate>, keep: nat): seq<Candidate> {
    Capped(Distinct(Exportable(ranked)), keep)
  }

  /** The traces kept of a scenario: the first `keep` distinct ones that can be
      written, best first. */
  function Kept(cs: seq<Candidate>, config: CollectConfig): seq<Candidate> {
    Chosen(Ranked(cs, config), config.keep)
  }

  /** The counters after `keep_best`. */
  function Accounted(r: Rejections, cs: seq<Candidate>, config: CollectConfig): Rejections {
    Ranking(Filtered(r, cs, config), Ranked(cs, config), config.keep)
  }

  /** The counters once the ranked traces `cs` are exported, deduplicated and capped. */
  function Ranking(r: Rejections, cs: seq<Candidate>, keep: nat): Rejections {
    ExportableShrinks(cs);
    var exportable := Exportable(cs);
    var distinct := Distinct(exportable);
    r.(unexportable := r.unexportable + (|cs| - |exportable|),
       duplicate := r.duplicate + (|exportable| - |distinct|),
       overKeep := r.overKeep + (|distinct| - |Capped(distinct, keep)|))
  }

  lemma {:induction false} ExportableShrinks(cs: seq<Candidate>)
    ensures |Exportable(cs)| <= |cs|
    decreases |cs|
  {
    if cs != [] {
      ExportableShrinks(cs[..|cs| - 1]);
    }
  }

  // ----- writing

  datatype Metadata = Metadata(scenarioId: string, seed: nat, member: nat, reward: real,
                               verification: Option<string>, turns: nat, passRate: real)

  datatype Written = Written(example: ChatExample, metadata: Metadata)

  function AssistantTurns(messages: seq<ChatMessage>): nat {
    if messages == [] then 0
    else (if messages[0].role == "assistant" then 1 else 0) + AssistantTurns(messages[1..])
  }

  function PassRate(passed: nat, attempted: nat): real {
    if attempted == 0 then 0.0 else passed as real / attempted as real
  }

  function RecordOf(scenarioId: string, passRate: real, c: Candidate): Written
    requires c.record.Ok?
  {
    Written(c.record.value, Metadata(scenarioId, c.seed, c.member, c.reward, c.verification,
                                     AssistantTurns(c.record.value.messages), passRate))
  }

  predicate AllWritable(cs: seq<Candidate>) {
    forall i :: 0 <= i < |cs| ==> cs[i].record.Ok?
  }

  function RecordsOf(scenarioId: string, passRate: real, cs: seq<Candidate>): (r: seq<Written>)
    requires AllWritable(cs)
    ensures |r| == |cs|
  {
    seq(|cs|, i requires 0 <= i < |cs| => RecordOf(scenarioId, passRate, cs[i]))
  }

  lemma {:induction false} DistinctAreMembers(cs: seq<Candidate>)
    ensures forall c :: c in Distinct(cs) ==> c in cs
    decreases |cs|
  {
    if cs != [] {
      DistinctAreMembers(cs[..|cs| - 1]);
    }
  }

  lemma {:induction false} ExportableAreWritable(cs: seq<Candidate>)
    ensures forall c :: c in Exportable(cs) <==> c in cs && c.record.Ok?
    decreases |cs|
  {
    if cs != [] {
      ExportableAreWritable(cs[..|cs| - 1]);
      assert cs == cs[..|cs| - 1] + [cs[|cs| - 1]];
    }
  }

  lemma ChosenAreWritable(ranked: seq<Candidate>, keep: nat)
    ensures AllWritable(Chosen(ranked, keep))
  {
    var exportable := Exportable(ranked);
    ExportableAreWritable(ranked);
    DistinctAreMembers(exportable);
    forall i | 0 <= i < |Chosen(ranked, keep)| ensures Chosen(ranked, keep)[i].record.Ok? {
      assert Chosen(ranked, keep)[i] in Distinct(exportable);
    }
  }

  function KeptRecords(scenarioId: string, passRate: real, ranked: seq<Candidate>, keep: nat): (r: seq<Written>)
    ensures |r| == |Chosen(ranked, keep)|
  {
    ChosenAreWritable(ranked, keep);
    RecordsOf(scenarioId, passRate, Chosen(ranked, keep))
  }

  /** What the next ranked trace does to the counters, the fingerprints seen and the
      traces chosen. */
  lemma NextRanked(ranked: seq<Candidate>, i: nat, keep: nat, r: Rejections)
    requires i < |ranked|
    ensures var (seen, c) := (Fingerprints(Exportable(ranked[..i])), ranked[i]);
            var (before, after) := (Ranking(r, ranked[..i], keep), Ranking(r, ranked[..i + 1], keep));
            var (had, has) := (Chosen(ranked[..i], keep), Chosen(ranked[..i + 1], keep));
            if c.record.Err? then
              has == had && after == before.(unexportable := before.unexportable + 1)
              && Fingerprints(Exportable(ranked[..i + 1])) == seen
            else if FingerprintOf(c) in seen then
              has == had && after == before.(duplicate := before.duplicate + 1)
              && Fingerprints(Exportable(ranked[..i + 1])) == seen
            else
              && Fingerprints(Exportable(ranked[..i + 1])) == seen + {FingerprintOf(c)}
              && if |had| == keep then has == had && after == before.(overKeep := before.overKeep + 1)
                 else has == had + [c] && after == before
  {
    var front, through := ranked[..i], ranked[..i + 1];
    assert through[..i] == front;
    var exportable := Exportable(front);
    ExportableShrinks(front);
    ExportableShrinks(through);
    if ranked[i].record.Ok? {
      var more := exportable + [ranked[i]];
      assert Exportable(through) == more && more[..|more| - 1] == exportable;
      assert forall c :: c in more <==> c in exportable || c == ranked[i];
    }
  }

  lemma OneMoreChosen(ranked: seq<Candidate>, i: nat, keep: nat)
    requires i < |ranked|
    ensures IsPrefix(Chosen(ranked[..i], keep), Chosen(ranked[..i + 1], keep))
  {
    NextRanked(ranked, i, keep, Rejections(0, 0, 0, 0, 0, 0, 0, 0));
    hide Chosen;
  }

  lemma {:induction false} ChosenGrows(ranked: seq<Candidate>, i: nat, keep: nat)
    requires i <= |ranked|
    ensures IsPrefix(Chosen(ranked[..i], keep), Chosen(ranked, keep))
    decreases |ranked| - i
  {
    if i == |ranked| {
      assert ranked[..i] == ranked;
    } else {
      OneMoreChosen(ranked, i, keep);
      ChosenGrows(ranked, i + 1, keep);
      hide Chosen;
      var had, has, all := Chosen(ranked[..i], keep), Chosen(ranked[..i + 1], keep), Chosen(ranked, keep);
      SliceOfSlice(all, 0, |has|, 0, |had|);
    }
  }

  /** Where records go; it takes as many as it has room for and then fails. */
  class CollectSink {
    var records: seq<Written>
    var pairs: seq<Pair>
    var room: nat

    method Record(example: Written) returns (ok: bool)
      modifies this
      ensures ok <==> old(room) > 0
      ensures pairs == old(pairs)
      ensures ok ==> records == old(records) + [example] && room == old(room) - 1
      ensures !ok ==> records == old(records) && room == old(room)
    {
      ok := room > 0;
      if ok {
        records := records + [example];
        room := room - 1;
      }
    }

    method RecordPair(pair: Pair) returns (ok: bool)
      modifies this
      ensures ok <==> old(room) > 0
      ensures records == old(records)
      ensures ok ==> pairs == old(pairs) + [pair] && room == old(room) - 1
      ensures !ok ==> pairs == old(pairs) && room == old(room)
    {
      ok := room > 0;
      if ok {
        pairs := pairs + [pair];
        room := room - 1;
      }
    }
  }

  /** `keep_best` outside pairs mode. With room for what is kept, the sink receives
      exactly the records of `Kept`, in that order, and every candidate lands on one
      counter; without it, the sink receives as many of them as fit and the call
      fails before the scenario is reported. */
  method KeepBest(scenarioId: string, attempted: nat, candidates: seq<Candidate>, config: CollectConfig,
                  stats: CollectStats, sink: CollectSink) returns (ok: bool)
    modifies stats, sink
    ensures var passed := |Eligible(candidates, config)|;
            var passRate := PassRate(passed, attempted);
            var records := KeptRecords(scenarioId, passRate, Ranked(candidates, config), config.keep);
            && stats.attempted == old(stats.attempted) + attempted
            && stats.pairs == old(stats.pairs) && stats.failures == old(stats.failures)
            && (ok <==> |records| <= old(sink.room))
            && sink.records == old(sink.records) + (if ok then records else records[..old(sink.room)])
            && sink.pairs == old(sink.pairs) && (ok ==> sink.room == old(sink.room) - |records|)
            && stats.kept == old(stats.kept) + (if ok then |records| else 0)
            && (ok ==> stats.rejected == Accounted(old(stats.rejected), candidates, config))
            && stats.scenarios == old(stats.scenarios) +
                 (if ok then [ScenarioReport(scenarioId, attempted, passed, |records|, passRate)] else [])
  {
    stats.attempted := stats.attempted + attempted;
    var eligible := [];
    for i := 0 to |candidates|
      invariant eligible == Eligible(candidates[..i], config)
      invariant stats.rejected == Filtered(old(stats.rejected), candidates[..i], config)
      invariant stats.attempted == old(stats.attempted) + attempted && stats.pairs == old(stats.pairs)
      invariant stats.failures == old(stats.failures)
      invariant stats.kept == old(stats.kept) && stats.scenarios == old(stats.scenarios)
      invariant sink.room == old(sink.room) && sink.records == old(sink.records) && sink.pairs == old(sink.pairs)
    {
      assert candidates[..i + 1][..i] == candidates[..i];
      match Rejection(candidates[i], config)
      case Some(cause) => stats.rejected := Count(stats.rejected, cause);
      case None => eligible := eligible + [candidates[i]];
    }
    assert candidates[..|candidates|] == candidates;
    var passed := |eligible|;
    var passRate := PassRate(passed, attempted);
    var ranked := Sort(Ranks, eligible);
    var kept;
    ok, kept := WriteRanked(scenarioId, passRate, ranked, config.keep, stats, sink);
    if !ok {
      return;
    }
    stats.kept := stats.kept + kept;
    stats.scenarios := stats.scenarios + [ScenarioReport(scenarioId, attempted, passed, kept, passRate)];
  }

  /** The second loop of `keep_best`: exports, deduplicates, caps and writes. */
  method WriteRanked(scenarioId: string, passRate: real, ranked: seq<Candidate>, keep: nat,
                     stats: CollectStats, sink: CollectSink) returns (ok: bool, kept: nat)
    modifies stats`rejected, sink
    ensures var records := KeptRecords(scenarioId, passRate, ranked, keep);
            && (ok <==> |records| <= old(sink.room))
            && sink.records == old(sink.records) + (if ok then records else records[..old(sink.room)])
            && sink.pairs == old(sink.pairs) && (ok ==> sink.room == old(sink.room) - |records|)
            && (ok ==> kept == |records| && stats.rejected == Ranking(old(stats.rejected), ranked, keep))
  {
    hide Ranking, Chosen, Exportable, FingerprintOf, RecordOf;
    var seen: set<Fingerprint> := {};
    kept := 0;
    NothingRanked(ranked, keep, stats.rejected);
    for i := 0 to |ranked|
      invariant seen == Fingerprints(Exportable(ranked[..i]))
      invariant kept == |Chosen(ranked[..i], keep)| && kept <= keep
      invariant stats.rejected == Ranking(old(stats.rejected), ranked[..i], keep)
      invariant kept + sink.room == old(sink.room) && sink.pairs == old(sink.pairs)
      invariant sink.records == old(sink.records) + KeptRecords(scenarioId, passRate, ranked[..i], keep)
    {
      NextRanked(ranked, i, keep, old(stats.rejected));
      var candidate := ranked[i];
      if candidate.record.Err? {
        stats.rejected := stats.rejected.(unexportable := stats.rejected.unexportable + 1);
        continue;
      }
      var fingerprint := FingerprintOf(candidate);
      if fingerprint in seen {
        stats.rejected := stats.rejected.(duplicate := stats.rejected.duplicate + 1);
        continue;
      }
      seen := seen + {fingerprint};
      if kept == keep {
        stats.rejected := stats.rejected.(overKeep := stats.rejected.overKeep + 1);
        continue;
      }
      var written := sink.Record(RecordOf(scenarioId, passRate, candidate));
      if !written {
        EarlierRecords(scenarioId, passRate, ranked, i, keep);
        EarlierRecords(scenarioId, passRate, ranked, i + 1, keep);
        return false, kept;
      }
      kept := kept + 1;
    }
    assert ranked[..|ranked|] == ranked;
    ok := true;
  }

  lemma NothingRanked(ranked: seq<Candidate>, keep: nat, r: Rejections)
    ensures Fingerprints(Exportable(ranked[..0])) == {} && Chosen(ranked[..0], keep) == []
    ensures Ranking(r, ranked[..0], keep) == r
  {
  }

  lemma EarlierRecords(scenarioId: string, passRate: real, ranked: seq<Candidate>, i: nat, keep: nat)
    requires i <= |ranked|
    ensures IsPrefix(KeptRecords(scenarioId, passRate, ranked[..i], keep), KeptRecords(scenarioId, passRate, ranked, keep))
  {
    hide Chosen;
    ChosenGrows(ranked, i, keep);
  }

  // ----- what is kept, and why nothing better is left out

  lemma RanksOrders()
    ensures TotalPreorder(Ranks)
  {
  }

  lemma {:induction false} EligibleMembers(cs: seq<Candidate>, config: CollectConfig, c: Candidate)
    ensures c in Eligible(cs, config) <==> c in cs && Rejection(c, config).None?
    decreases |cs|
  {
    if cs != [] {
      EligibleMembers(cs[..|cs| - 1], config, c);
      assert cs == cs[..|cs| - 1] + [cs[|cs| - 1]];
    }
  }

  lemma RankedMembers(cs: seq<Candidate>, config: CollectConfig, c: Candidate)
    ensures c in Ranked(cs, config) <==> c in cs && Rejection(c, config).None?
    ensures Sorted(Ranks, Ranked(cs, config)) && |Ranked(cs, config)| == |Eligible(cs, config)|
  {
    RanksOrders();
    SortSorts(Ranks, Eligible(cs, config));
    EligibleMembers(cs, config, c);
    SameMembers(Ranked(cs, config), Eligible(cs, config), c);
  }

  lemma LastIsWorst(cs: seq<Candidate>, c: Candidate)
    requires Sorted(Ranks, cs) && cs != [] && c in cs
    ensures Ranks(c, cs[|cs| - 1])
  {
  }

  lemma {:induction false} ExportableStaysSorted(cs: seq<Candidate>)
    requires Sorted(Ranks, cs)
    ensures Sorted(Ranks, Exportable(cs))
    decreases |cs|
  {
    if cs != [] {
      var front := cs[..|cs| - 1];
      ExportableStaysSorted(front);
      ExportableAreWritable(front);
      forall c | c in Exportable(front) ensures Ranks(c, cs[|cs| - 1]) {
        assert c in cs;
        LastIsWorst(cs, c);
      }
    }
  }

  lemma LastIsWorstOfAll(cs: seq<Candidate>, front: seq<Candidate>, last: Candidate)
    requires Sorted(Ranks, cs) && cs == front + [last]
    ensures Sorted(Ranks, front) && forall c :: c in front ==> Ranks(c, last)
  {
    assert front == cs[..|front|];
    forall c | c in front ensures Ranks(c, last) {
      assert c in cs;
      LastIsWorst(cs, c);
    }
  }

  lemma {:induction false} DistinctStaysSorted(cs: seq<Candidate>)
    requires Sorted(Ranks, cs)
    ensures Sorted(Ranks, Distinct(cs))
    decreases |cs|
  {
    if cs != [] {
      var front, last := cs[..|cs| - 1], cs[|cs| - 1];
      LastIsWorstOfAll(cs, front, last);
      DistinctStaysSorted(front);
      DistinctAreMembers(front);
      hide Ranks, FingerprintOf;
    }
  }

  lemma {:induction false} DistinctRepeatsNothing(cs: seq<Candidate>)
    ensures NoFingerprintTwice(Distinct(cs))
    decreases |cs|
  {
    hide FingerprintOf;
    if cs != [] {
      var front := cs[..|cs| - 1];
      DistinctRepeatsNothing(front);
      DistinctAreMembers(front);
      assert forall c :: c in Distinct(front) ==> FingerprintOf(c) in Fingerprints(front);
    }
  }

  ghost predicate NoFingerprintTwice(cs: seq<Candidate>) {
    forall i, j :: 0 <= i < j < |cs| ==> FingerprintOf(cs[i]) != FingerprintOf(cs[j])
  }

  /** Deduplication keeps for every trace one with its fingerprint that ranks no worse. */
  lemma {:induction false} DistinctKeepsTheBest(cs: seq<Candidate>, d: Candidate)
    requires Sorted(Ranks, cs) && d in cs
    ensures HasBetter(Distinct(cs), d)
    decreases |cs|
  {
    hide FingerprintOf, HasBetter;
    var front, last := cs[..|cs| - 1], cs[|cs| - 1];
    LastIsWorstOfAll(cs, front, last);
    hide Ranks;
    if d in front {
      DistinctKeepsTheBest(front, d);
      if FingerprintOf(last) !in Fingerprints(front) {
        MoreHasBetter(Distinct(front), last, d);
      }
    } else if FingerprintOf(last) in Fingerprints(front) {
      var c :| c in front && FingerprintOf(c) == FingerprintOf(last);
      DistinctKeepsTheBest(front, c);
      SameFingerprintHasBetter(Distinct(front), c, last);
    } else {
      LastHasItself(Distinct(front), last);
    }
  }

  lemma LastHasItself(cs: seq<Candidate>, last: Candidate)
    ensures HasBetter(cs + [last], last)
  {
    assert (cs + [last])[|cs|] == last && Ranks(last, last);
  }

  lemma SameFingerprintHasBetter(cs: seq<Candidate>, c: Candidate, d: Candidate)
    requires HasBetter(cs, c) && FingerprintOf(c) == FingerprintOf(d) && Ranks(c, d)
    ensures HasBetter(cs, d)
  {
  }

  /** Some trace of `cs` has the fingerprint of `d` and ranks no worse. */
  ghost predicate HasBetter(cs: seq<Candidate>, d: Candidate) {
    exists i :: 0 <= i < |cs| && FingerprintOf(cs[i]) == FingerprintOf(d) && Ranks(cs[i], d)
  }

  lemma MoreHasBetter(cs: seq<Candidate>, last: Candidate, d: Candidate)
    requires HasBetter(cs, d)
    ensures HasBetter(cs + [last], d)
  {
    var i :| 0 <= i < |cs| && FingerprintOf(cs[i]) == FingerprintOf(d) && Ranks(cs[i], d);
    assert (cs + [last])[i] == cs[i];
  }

  /** Every kept trace passed the filters and can be written; no fingerprint is kept
      twice; they stand best first; and a passing, writable trace is left out only
      for one with its fingerprint that ranks no worse, or because the cap is full
      of traces that all rank no worse. */
  lemma NothingBetterIsLeftOut(cs: seq<Candidate>, config: CollectConfig)
    ensures var kept := Kept(cs, config);
            && |kept| <= config.keep && Sorted(Ranks, kept)
            && (forall c :: c in kept ==> c in cs && Rejection(c, config).None? && c.record.Ok?)
            && NoFingerprintTwice(kept)
            && (forall d :: d in cs && Rejection(d, config).None? && d.record.Ok? ==>
                  HasBetter(kept, d) || (|kept| == config.keep && forall k :: k in kept ==> Ranks(k, d)))
  {
    hide FingerprintOf, Rejection;
    RanksOrders();
    var ranked, kept := Ranked(cs, config), Kept(cs, config);
    var exportable := Exportable(ranked);
    var distinct := Distinct(exportable);
    forall c ensures c in exportable <==> c in cs && Rejection(c, config).None? && c.record.Ok? {
      RankedMembers(cs, config, c);
      ExportableAreWritable(ranked);
    }
    assert Sorted(Ranks, ranked) by { SortSorts(Ranks, Eligible(cs, config)); }
    ExportableStaysSorted(ranked);
    DistinctStaysSorted(exportable);
    DistinctRepeatsNothing(exportable);
    DistinctAreMembers(exportable);
    assert forall i :: 0 <= i < |kept| ==> kept[i] == distinct[i];
    forall d | d in exportable
      ensures HasBetter(kept, d) || (|kept| == config.keep && forall k :: k in kept ==> Ranks(k, d))
    {
      DistinctKeepsTheBest(exportable, d);
      var j :| 0 <= j < |distinct| && FingerprintOf(distinct[j]) == FingerprintOf(d) && Ranks(distinct[j], d);
      if j < |kept| {
        assert kept[j] == distinct[j];
      } else {
        forall k | k in kept ensures Ranks(k, d) {
          var i :| 0 <= i < |kept| && kept[i] == k;
          assert Ranks(distinct[i], distinct[j]);
        }
      }
    }
  }

  /** `a` earned no less than `b`; if as much, it is no longer; if as long, too, it is of
      no later member. */
  predicate StandsFirst(a: Candidate, b: Candidate) {
    && a.reward >= b.reward
    && (a.reward == b.reward ==> a.length <= b.length)
    && (a.reward == b.reward && a.length == b.length ==> a.member <= b.member)
  }

  /** The best are kept and the best stand first, in plain figures: a kept trace stands first
      before those behind it, before those that repeat its fingerprint, and before every
      passing, writable trace whose fingerprint is not kept. */
  lemma BestAreKeptFirst(cs: seq<Candidate>, config: CollectConfig)
    ensures var kept := Kept(cs, config);
            && (forall i, j :: 0 <= i < j < |kept| ==> StandsFirst(kept[i], kept[j]))
            && (forall d, k :: d in cs && HasFate(d, config, CanBeWritten) && k in kept
                  && (FingerprintOf(d) == FingerprintOf(k) || FingerprintOf(d) !in Fingerprints(kept))
                  ==> StandsFirst(k, d))
            && (forall d :: d in cs && HasFate(d, config, CanBeWritten) && FingerprintOf(d) !in Fingerprints(kept)
                  ==> |kept| == config.keep)
  {
    var kept := Kept(cs, config);
    NothingBetterIsLeftOut(cs, config);
    forall a, b ensures Ranks(a, b) ==> StandsFirst(a, b) {
    }
    hide FingerprintOf, Rejection, Passes, Ranks, StandsFirst, Kept;
    forall d, k | d in cs && HasFate(d, config, CanBeWritten) && k in kept
                  && (FingerprintOf(d) == FingerprintOf(k) || FingerprintOf(d) !in Fingerprints(kept))
      ensures StandsFirst(k, d)
    {
      FateOfRejected(d, config, InvalidTurns);
      if FingerprintOf(d) == FingerprintOf(k) {
        KeptAreBestOfTheirOwn(cs, config, d, k);
      } else {
        OthersHaveNoBetter(kept, d);
      }
    }
    forall d | d in cs && HasFate(d, config, CanBeWritten) && FingerprintOf(d) !in Fingerprints(kept)
      ensures |kept| == config.keep
    {
      FateOfRejected(d, config, InvalidTurns);
      OthersHaveNoBetter(kept, d);
    }
  }

  lemma OthersHaveNoBetter(kept: seq<Candidate>, d: Candidate)
    requires FingerprintOf(d) !in Fingerprints(kept)
    ensures !HasBetter(kept, d)
  {
    hide FingerprintOf, Ranks;
    forall i | 0 <= i < |kept| ensures FingerprintOf(kept[i]) in Fingerprints(kept) {
      assert kept[i] in kept;
    }
  }

  lemma KeptAreBestOfTheirOwn(cs: seq<Candidate>, config: CollectConfig, d: Candidate, k: Candidate)
    requires d in cs && HasFate(d, config, CanBeWritten) && k in Kept(cs, config)
    requires FingerprintOf(d) == FingerprintOf(k)
    ensures Ranks(k, d)
  {
    hide FingerprintOf, Rejection, Passes, Ranks, Distinct, Exportable;
    var ranked := Ranked(cs, config);
    var exportable := Exportable(ranked);
    FateOfRejected(d, config, InvalidTurns);
    RankedMembers(cs, config, d);
    ExportableAreWritable(ranked);
    ExportableStaysSorted(ranked);
    DistinctKeepsTheBest(exportable, d);
    DistinctRepeatsNothing(exportable);
    var distinct := Distinct(exportable);
    var j :| 0 <= j < |distinct| && FingerprintOf(distinct[j]) == FingerprintOf(d) && Ranks(distinct[j], d);
    var i :| 0 <= i < |Kept(cs, config)| && Kept(cs, config)[i] == k;
    assert distinct[i] == k;
  }

  lemma {:induction false} EveryFilteredAttemptIsCounted(r: Rejections, cs: seq<Candidate>, config: CollectConfig)
    ensures Filtered(r, cs, config).Total() + |Eligible(cs, config)| == r.Total() + |cs|
    decreases |cs|
  {
    if cs != [] {
      EveryFilteredAttemptIsCounted(r, cs[..|cs| - 1], config);
    }
  }

  /** Nothing is lost and nothing counted twice: every candidate is either kept or
      lands on exactly one counter. */
  lemma EveryCandidateIsAccountedFor(r: Rejections, cs: seq<Candidate>, config: CollectConfig)
    ensures Accounted(r, cs, config).Total() + |Kept(cs, config)| == r.Total() + |cs|
  {
    hide Filtered, Eligible;
    EveryFilteredAttemptIsCounted(r, cs, config);
    RanksOrders();
    SortSorts(Ranks, Eligible(cs, config));
    ExportableShrinks(Ranked(cs, config));
  }

  // ----- what each counter counts

  /** Where one attempt ends up before anything is deduplicated. */
  datatype Fate = HeldBack(cause: Cause) | CannotBeWritten | CanBeWritten

  predicate ScoresTooLow(c: Candidate, config: CollectConfig) {
    config.minReward.Some? && c.reward < config.minReward.value
  }

  predicate LacksVerification(c: Candidate, config: CollectConfig) {
    config.requireVerified && c.verification != Some("passed")
  }

  predicate Passes(c: Candidate, config: CollectConfig) {
    c.invalidTurns == 0 && !ScoresTooLow(c, config) && !LacksVerification(c, config)
  }

  /** The filters apply in order: an attempt with invalid turns is held back for those
      alone, and one that scores too low is not looked at for its verification. */
  predicate HasFate(c: Candidate, config: CollectConfig, fate: Fate) {
    match fate
    case HeldBack(InvalidTurns) => c.invalidTurns > 0
    case HeldBack(BelowMinReward) => c.invalidTurns == 0 && ScoresTooLow(c, config)
    case HeldBack(Unverified) => c.invalidTurns == 0 && !ScoresTooLow(c, config) && LacksVerification(c, config)
    case CannotBeWritten => Passes(c, config) && c.record.Err?
    case CanBeWritten => Passes(c, config) && c.record.Ok?
  }

  function HowMany(cs: seq<Candidate>, config: CollectConfig, fate: Fate): nat {
    if cs == [] then 0
    else (if HasFate(cs[0], config, fate) then 1 else 0) + HowMany(cs[1..], config, fate)
  }

  lemma {:induction false} HowManyAppends(cs: seq<Candidate>, c: Candidate, config: CollectConfig, fate: Fate)
    ensures HowMany(cs + [c], config, fate) == HowMany(cs, config, fate) + if HasFate(c, config, fate) then 1 else 0
  {
    hide HasFate;
    if cs == [] {
      assert [] + [c] == [c] && [c][1..] == [];
    } else {
      HowManyAppends(cs[1..], c, config, fate);
      assert (cs + [c])[1..] == cs[1..] + [c];
    }
  }

  lemma {:induction false} HowManyInserts(c: Candidate, cs: seq<Candidate>, config: CollectConfig, fate: Fate)
    ensures HowMany(Insert(Ranks, c, cs), config, fate)
         == HowMany(cs, config, fate) + if HasFate(c, config, fate) then 1 else 0
  {
    hide Ranks, HasFate;
    if cs == [] || Ranks(c, cs[0]) {
      assert ([c] + cs)[1..] == cs;
    } else {
      HowManyInserts(c, cs[1..], config, fate);
      var rest := Insert(Ranks, c, cs[1..]);
      assert ([cs[0]] + rest)[1..] == rest;
    }
  }

  lemma {:induction false} HowManyIgnoresOrder(cs: seq<Candidate>, config: CollectConfig, fate: Fate)
    ensures HowMany(Sort(Ranks, cs), config, fate) == HowMany(cs, config, fate)
  {
    hide HasFate;
    if cs != [] {
      HowManyIgnoresOrder(cs[1..], config, fate);
      HowManyInserts(cs[0], Sort(Ranks, cs[1..]), config, fate);
    }
  }

  lemma FateOfRejected(c: Candidate, config: CollectConfig, cause: Cause)
    ensures Rejection(c, config) == Some(cause) <==> HasFate(c, config, HeldBack(cause))
    ensures Rejection(c, config).None? <==> Passes(c, config)
  {
  }

  /** Each filter's counter grows by the attempts it is the first to hold back. */
  lemma {:induction false} FiltersAreCountedInOrder(r: Rejections, cs: seq<Candidate>, config: CollectConfig)
    ensures Filtered(r, cs, config) ==
            r.(invalidTurns := r.invalidTurns + HowMany(cs, config, HeldBack(InvalidTurns)),
               belowMinReward := r.belowMinReward + HowMany(cs, config, HeldBack(BelowMinReward)),
               unverified := r.unverified + HowMany(cs, config, HeldBack(Unverified)))
    decreases |cs|
  {
    hide HasFate, Rejection, Passes;
    if cs != [] {
      var front, last := cs[..|cs| - 1], cs[|cs| - 1];
      assert cs == front + [last];
      FiltersAreCountedInOrder(r, front, config);
      HowManyAppends(front, last, config, HeldBack(InvalidTurns));
      HowManyAppends(front, last, config, HeldBack(BelowMinReward));
      HowManyAppends(front, last, config, HeldBack(Unverified));
      FateOfRejected(last, config, InvalidTurns);
      FateOfRejected(last, config, BelowMinReward);
      FateOfRejected(last, config, Unverified);
      hide HowMany;
    }
  }

  lemma {:induction false} EligibleAreCounted(cs: seq<Candidate>, config: CollectConfig, fate: Fate)
    requires !fate.HeldBack?
    ensures HowMany(Eligible(cs, config), config, fate) == HowMany(cs, config, fate)
    decreases |cs|
  {
    hide Rejection;
    if cs != [] {
      var front, last := cs[..|cs| - 1], cs[|cs| - 1];
      assert cs == front + [last];
      EligibleAreCounted(front, config, fate);
      HowManyAppends(Eligible(front, config), last, config, fate);
      HowManyAppends(front, last, config, fate);
      FateOfRejected(last, config, InvalidTurns);
    }
  }

  lemma {:induction false} ExportableAreCounted(cs: seq<Candidate>, config: CollectConfig)
    requires forall i :: 0 <= i < |cs| ==> Passes(cs[i], config)
    ensures |Exportable(cs)| == HowMany(cs, config, CanBeWritten)
    ensures |cs| - |Exportable(cs)| == HowMany(cs, config, CannotBeWritten)
    decreases |cs|
  {
    hide Passes;
    if cs != [] {
      var front, last := cs[..|cs| - 1], cs[|cs| - 1];
      assert cs == front + [last];
      ExportableAreCounted(front, config);
      HowManyAppends(front, last, config, CanBeWritten);
      HowManyAppends(front, last, config, CannotBeWritten);
    }
  }

  lemma OneMoreFingerprint(cs: seq<Candidate>, front: seq<Candidate>, last: Candidate)
    requires cs == front + [last]
    ensures |Fingerprints(cs)| == |Fingerprints(front)| + if FingerprintOf(last) in Fingerprints(front) then 0 else 1
  {
    hide FingerprintOf;
    assert forall c :: c in cs <==> c in front || c == last;
    assert Fingerprints(cs) == Fingerprints(front) + {FingerprintOf(last)};
    if FingerprintOf(last) in Fingerprints(front) {
      assert Fingerprints(cs) == Fingerprints(front);
    }
  }

  lemma {:induction false} DistinctAreFingerprints(cs: seq<Candidate>)
    ensures |Distinct(cs)| == |Fingerprints(cs)|
    decreases |cs|
  {
    if cs == [] {
      assert Fingerprints(cs) == {};
    } else {
      hide FingerprintOf, Fingerprints;
      var front, last := cs[..|cs| - 1], cs[|cs| - 1];
      DistinctAreFingerprints(front);
      OneMoreFingerprint(cs, front, last);
    }
  }

  /** The fingerprints of the attempts that pass and can be written. */
  ghost function PassingFingerprints(cs: seq<Candidate>, config: CollectConfig): set<Fingerprint> {
    set c | c in cs && HasFate(c, config, CanBeWritten) :: FingerprintOf(c)
  }

  /** As many traces are kept as there are different ones to keep, up to the cap, and
      the last three counters count what passed and cannot be written, what repeats a
      fingerprint, and what is over the cap. */
  lemma KeptAndDroppedAreCounted(r: Rejections, cs: seq<Candidate>, config: CollectConfig)
    ensures var different := |PassingFingerprints(cs, config)|;
            var writable := HowMany(cs, config, CanBeWritten);
            var filtered := Filtered(r, cs, config);
            && |Kept(cs, config)| == (if different <= config.keep then different else config.keep)
            && different <= writable
            && Accounted(r, cs, config) ==
               filtered.(unexportable := filtered.unexportable + HowMany(cs, config, CannotBeWritten),
                         duplicate := filtered.duplicate + (writable - different),
                         overKeep := filtered.overKeep + (different - |Kept(cs, config)|))
  {
    hide Filtered, FingerprintOf, Rejection, Ranks, Passes, HowMany, Sort;
    var ranked := Ranked(cs, config);
    var exportable := Exportable(ranked);
    RankedAreCounted(cs, config);
    DistinctAreFingerprints(exportable);
    PassingAreExportable(cs, config);
    hide Exportable, Distinct, Fingerprints;
  }

  lemma RankedAreCounted(cs: seq<Candidate>, config: CollectConfig)
    ensures |Exportable(Ranked(cs, config))| == HowMany(cs, config, CanBeWritten)
    ensures |Ranked(cs, config)| - |Exportable(Ranked(cs, config))| == HowMany(cs, config, CannotBeWritten)
  {
    hide Rejection, Ranks, Passes, HowMany, HasFate, Exportable, Eligible;
    var ranked := Ranked(cs, config);
    forall i | 0 <= i < |ranked| ensures Passes(ranked[i], config) {
      RankedMembers(cs, config, ranked[i]);
      FateOfRejected(ranked[i], config, InvalidTurns);
    }
    ExportableAreCounted(ranked, config);
    HowManyIgnoresOrder(Eligible(cs, config), config, CanBeWritten);
    HowManyIgnoresOrder(Eligible(cs, config), config, CannotBeWritten);
    EligibleAreCounted(cs, config, CanBeWritten);
    EligibleAreCounted(cs, config, CannotBeWritten);
  }

  lemma PassingAreExportable(cs: seq<Candidate>, config: CollectConfig)
    ensures Fingerprints(Exportable(Ranked(cs, config))) == PassingFingerprints(cs, config)
  {
    hide Rejection, Ranks, Passes, FingerprintOf, Exportable, Ranked;
    var ranked := Ranked(cs, config);
    forall c ensures c in Exportable(ranked) <==> c in cs && HasFate(c, config, CanBeWritten) {
      RankedMembers(cs, config, c);
      FateOfRejected(c, config, InvalidTurns);
      ExportableAreWritable(ranked);
    }
  }

  // ----- what makes a fingerprint, and what a record says

  /** A fingerprint is made of all that the assistant said and all that was observed, in
      order, and of nothing else. */
  lemma {:induction false} OtherTurnsDoNotCount(before: seq<ChatMessage>, m: ChatMessage, after: seq<ChatMessage>)
    ensures m.role != "assistant" && m.role != "tool" ==> Turns(before + [m] + after) == Turns(before + after)
    ensures (forall i :: 0 <= i < |before| ==> before[i].role == "assistant" || before[i].role == "tool") ==>
              Turns(before) == before
  {
    if before == [] {
      assert [] + [m] + after == [m] + after && ([m] + after)[1..] == after && [] + after == after;
    } else {
      OtherTurnsDoNotCount(before[1..], m, after);
      assert (before + [m] + after)[1..] == before[1..] + [m] + after && (before + after)[1..] == before[1..] + after;
    }
  }

  /** Where the assistant speaks, from a place on. */
  ghost function AssistantPlaces(messages: seq<ChatMessage>, from: nat): set<nat> {
    set i: nat | from <= i < |messages| && messages[i].role == "assistant"
  }

  lemma {:induction false} AssistantTurnsAreCounted(messages: seq<ChatMessage>, from: nat)
    requires from <= |messages|
    ensures AssistantTurns(messages[from..]) == |AssistantPlaces(messages, from)|
    decreases |messages| - from
  {
    if from == |messages| {
      assert AssistantPlaces(messages, from) == {};
    } else {
      AssistantTurnsAreCounted(messages, from + 1);
      assert messages[from..][1..] == messages[from + 1..];
      var here: set<nat> := if messages[from].role == "assistant" then {from} else {};
      assert AssistantPlaces(messages, from) == here + AssistantPlaces(messages, from + 1);
    }
  }

  /** The record holds the trace of `c` and says which scenario and attempt that was, what it
      earned, what the environment said of it and how often the assistant spoke. */
  ghost predicate Describes(record: Written, scenarioId: string, c: Candidate) {
    && c.record == Ok(record.example)
    && record.metadata.scenarioId == scenarioId
    && record.metadata.seed == c.seed && record.metadata.member == c.member
    && record.metadata.reward == c.reward && record.metadata.verification == c.verification
    && record.metadata.turns == |AssistantPlaces(record.example.messages, 0)|
  }

  lemma RecordsDescribe(scenarioId: string, passRate: real, c: Candidate)
    requires c.record.Ok?
    ensures Describes(RecordOf(scenarioId, passRate, c), scenarioId, c)
    ensures RecordOf(scenarioId, passRate, c).metadata.passRate == passRate
  {
    AssistantTurnsAreCounted(c.record.value.messages, 0);
    assert c.record.value.messages[0..] == c.record.value.messages;
  }

  lemma RateTimesAttempts(passed: nat, attempted: nat)
    ensures PassRate(passed, attempted) * attempted as real == if attempted == 0 then 0.0 else passed as real
  {
  }

  /** The records of a scenario describe the traces kept, in order, and each gives the pass
      rate of the scenario. */
  lemma RecordsSayWhereTheyComeFrom(scenarioId: string, passRate: real, cs: seq<Candidate>, config: CollectConfig)
    ensures var records := KeptRecords(scenarioId, passRate, Ranked(cs, config), config.keep);
            && |records| == |Kept(cs, config)|
            && forall i :: 0 <= i < |records| ==>
                 Describes(records[i], scenarioId, Kept(cs, config)[i]) && records[i].metadata.passRate == passRate
  {
    hide Ranked, Chosen, KeptRecords, RecordOf, Describes;
    forall i | 0 <= i < |Kept(cs, config)|
      ensures var record := KeptRecords(scenarioId, passRate, Ranked(cs, config), config.keep)[i];
              Describes(record, scenarioId, Kept(cs, config)[i]) && record.metadata.passRate == passRate
    {
      RecordIsOf(scenarioId, passRate, Ranked(cs, config), config.keep, i);
      RecordsDescribe(scenarioId, passRate, Kept(cs, config)[i]);
    }
  }

  /** The pass rate is the share of the attempts that pass every filter, written or not. */
  lemma PassRateIsTheShareThatPasses(cs: seq<Candidate>, config: CollectConfig, attempted: nat)
    ensures var passed := HowMany(cs, config, CanBeWritten) + HowMany(cs, config, CannotBeWritten);
            PassRate(|Eligible(cs, config)|, attempted) * attempted as real == if attempted == 0 then 0.0 else passed as real
  {
    PassingAreCounted(cs, config);
    hide HowMany, Eligible;
    RateTimesAttempts(|Eligible(cs, config)|, attempted);
  }

  lemma RecordIsOf(scenarioId: string, passRate: real, ranked: seq<Candidate>, keep: nat, i: nat)
    requires i < |Chosen(ranked, keep)|
    ensures Chosen(ranked, keep)[i].record.Ok?
    ensures KeptRecords(scenarioId, passRate, ranked, keep)[i] == RecordOf(scenarioId, passRate, Chosen(ranked, keep)[i])
  {
    ChosenAreWritable(ranked, keep);
    hide Chosen, RecordOf;
  }

  lemma PassingAreCounted(cs: seq<Candidate>, config: CollectConfig)
    ensures |Eligible(cs, config)| == HowMany(cs, config, CanBeWritten) + HowMany(cs, config, CannotBeWritten)
  {
    hide Rejection, Passes, HowMany, HasFate, Eligible, Exportable;
    forall i | 0 <= i < |Eligible(cs, config)| ensures Passes(Eligible(cs, config)[i], config) {
      EligibleMembers(cs, config, Eligible(cs, config)[i]);
      FateOfRejected(Eligible(cs, config)[i], config, InvalidTurns);
    }
    ExportableAreCounted(Eligible(cs, config), config);
    EligibleAreCounted(cs, config, CanBeWritten);
    EligibleAreCounted(cs, config, CannotBeWritten);
  }

  // ----- when the ranking is total

  /** Nothing the ranking looks at tells the two apart. */
  predicate TiesWith(a: Candidate, b: Candidate) {
    a.reward == b.reward && a.length == b.length && a.member == b.member
  }

  ghost predicate NoTwoPassingTie(cs: seq<Candidate>, config: CollectConfig) {
    forall a, b :: a in cs && b in cs && Rejection(a, config).None? && Rejection(b, config).None? && TiesWith(a, b)
      ==> a == b
  }

  /** The ranking is total, so that the passing attempts have one order only, if and only
      if no two different ones share reward, length and member. */
  lemma RankingIsTotalWithoutTies(cs: seq<Candidate>, config: CollectConfig)
    ensures HasOneArrangement(Ranks, Eligible(cs, config)) <==> NoTwoPassingTie(cs, config)
  {
    hide Rejection;
    RanksOrders();
    OneArrangementIffNoTies(Ranks, Eligible(cs, config));
    forall c ensures c in Eligible(cs, config) <==> c in cs && Rejection(c, config).None? {
      EligibleMembers(cs, config, c);
    }
    forall a, b ensures Ranks(a, b) && Ranks(b, a) <==> TiesWith(a, b) {
    }
    hide Ranks, TiesWith, Eligible;
  }

  /** No two attempts share a member number. */
  ghost predicate NumberedApart(cs: seq<Candidate>) {
    forall i, j :: 0 <= i < j < |cs| ==> cs[i].member != cs[j].member
  }

  lemma NumberedApartNeverTie(cs: seq<Candidate>, config: CollectConfig)
    requires NumberedApart(cs)
    ensures NoTwoPassingTie(cs, config)
  {
    hide Rejection;
    forall a, b | a in cs && b in cs && TiesWith(a, b) ensures a == b {
      var i :| 0 <= i < |cs| && cs[i] == a;
      var j :| 0 <= j < |cs| && cs[j] == b;
    }
  }

  lemma {:induction false} EligibleHowOften(cs: seq<Candidate>, config: CollectConfig, c: Candidate)
    ensures multiset(Eligible(cs, config))[c] == if Rejection(c, config).None? then multiset(cs)[c] else 0
    decreases |cs|
  {
    hide Rejection;
    if cs != [] {
      EligibleHowOften(cs[..|cs| - 1], config, c);
      assert cs == cs[..|cs| - 1] + [cs[|cs| - 1]];
    }
  }

  /** Without ties it does not matter in what order attempts come back: the same traces
      are kept, in the same order. */
  lemma KeptDoesNotDependOnOrder(cs: seq<Candidate>, ds: seq<Candidate>, config: CollectConfig)
    requires multiset(cs) == multiset(ds) && NoTwoPassingTie(cs, config)
    ensures Kept(cs, config) == Kept(ds, config)
  {
    hide Rejection, Ranks, Eligible, Chosen;
    RankingIsTotalWithoutTies(cs, config);
    RanksOrders();
    SortSorts(Ranks, Eligible(cs, config));
    SortSorts(Ranks, Eligible(ds, config));
    forall c ensures multiset(Eligible(cs, config))[c] == multiset(Eligible(ds, config))[c] {
      EligibleHowOften(cs, config, c);
      EligibleHowOften(ds, config, c);
    }
    assert IsArrangement(Ranks, Ranked(cs, config), Eligible(cs, config));
    assert IsArrangement(Ranks, Ranked(ds, config), Eligible(cs, config));
  }
}
