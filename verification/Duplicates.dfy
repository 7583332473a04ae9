/**
 Which fingerprints of a scenario are kept, what `duplicate` counts, and when all that
 it counts repeats something that is kept. In terms of the attempts as they come in,
 whose members are numbered apart.
 */
module Duplicates {
  import opened StableSort
  import opened Collect

  /** The attempt passes every filter and can be written. */
  predicate Enters(c: Candidate, config: CollectConfig) {
    HasFate(c, config, CanBeWritten)
  }

  /** `e` goes before every entrant with this fingerprint. */
  ghost predicate GoesBefore(e: Candidate, cs: seq<Candidate>, config: CollectConfig, f: Fingerprint) {
    forall d :: d in cs && Enters(d, config) && FingerprintOf(d) == f ==> Ranks(e, d)
  }

  /** The other fingerprints of which some entrant goes before all with this one. */
  ghost function Ahead(cs: seq<Candidate>, config: CollectConfig, f: Fingerprint): set<Fingerprint> {
    set e | e in cs && Enters(e, config) && FingerprintOf(e) != f && GoesBefore(e, cs, config, f) :: FingerprintOf(e)
  }

  /** Another entrant with the same fingerprint goes before `d`. */
  ghost predicate IsDuplicate(cs: seq<Candidate>, config: CollectConfig, d: Candidate) {
    && d in cs && Enters(d, config)
    && exists e :: e in cs && e != d && Enters(e, config) && FingerprintOf(e) == FingerprintOf(d) && Ranks(e, d)
  }

  // ----- the entrants in order

  function Entrants(cs: seq<Candidate>, config: CollectConfig): seq<Candidate> {
    Exportable(Ranked(cs, config))
  }

  lemma EntrantsAre(cs: seq<Candidate>, config: CollectConfig, c: Candidate)
    ensures c in Entrants(cs, config) <==> c in cs && Enters(c, config)
  {
    hide Rejection, Ranks, Passes, FingerprintOf, Exportable, Ranked;
    RankedMembers(cs, config, c);
    FateOfRejected(c, config, InvalidTurns);
    ExportableAreWritable(Ranked(cs, config));
  }

  lemma EntrantsAreSorted(cs: seq<Candidate>, config: CollectConfig)
    ensures Sorted(Ranks, Entrants(cs, config))
  {
    hide Rejection, Ranks, Exportable;
    RanksOrders();
    SortSorts(Ranks, Eligible(cs, config));
    ExportableStaysSorted(Ranked(cs, config));
  }

  lemma FrontIsNumberedApart(cs: seq<Candidate>)
    requires NumberedApart(cs) && cs != []
    ensures NumberedApart(cs[..|cs| - 1]) && NumberedApart(cs[1..])
    ensures forall c :: c in cs[..|cs| - 1] ==> c.member != cs[|cs| - 1].member
    ensures forall c :: c in cs[1..] ==> c.member != cs[0].member
  {
  }

  lemma {:induction false} EligibleAreNumberedApart(cs: seq<Candidate>, config: CollectConfig)
    requires NumberedApart(cs)
    ensures NumberedApart(Eligible(cs, config))
    decreases |cs|
  {
    hide Rejection;
    if cs != [] {
      var front, last := cs[..|cs| - 1], cs[|cs| - 1];
      FrontIsNumberedApart(cs);
      EligibleAreNumberedApart(front, config);
      forall c | c in Eligible(front, config) ensures c.member != last.member {
        EligibleMembers(front, config, c);
      }
    }
  }

  lemma {:induction false} ExportableAreNumberedApart(cs: seq<Candidate>)
    requires NumberedApart(cs)
    ensures NumberedApart(Exportable(cs))
    decreases |cs|
  {
    if cs != [] {
      var front := cs[..|cs| - 1];
      FrontIsNumberedApart(cs);
      ExportableAreNumberedApart(front);
      ExportableAreWritable(front);
    }
  }

  lemma {:induction false} InsertStaysNumberedApart(c: Candidate, cs: seq<Candidate>)
    requires NumberedApart(cs) && forall d :: d in cs ==> d.member != c.member
    ensures NumberedApart(Insert(Ranks, c, cs))
    ensures forall d :: d in Insert(Ranks, c, cs) ==> d == c || d in cs
  {
    hide Ranks;
    if cs != [] && !Ranks(c, cs[0]) {
      FrontIsNumberedApart(cs);
      InsertStaysNumberedApart(c, cs[1..]);
    }
  }

  lemma {:induction false} SortStaysNumberedApart(cs: seq<Candidate>)
    requires NumberedApart(cs)
    ensures NumberedApart(Sort(Ranks, cs))
  {
    if cs != [] {
      FrontIsNumberedApart(cs);
      SortStaysNumberedApart(cs[1..]);
      RanksOrders();
      SortSorts(Ranks, cs[1..]);
      forall d | d in Sort(Ranks, cs[1..]) ensures d.member != cs[0].member {
        SameMembers(Sort(Ranks, cs[1..]), cs[1..], d);
      }
      InsertStaysNumberedApart(cs[0], Sort(Ranks, cs[1..]));
    }
  }

  lemma EntrantsAreNumberedApart(cs: seq<Candidate>, config: CollectConfig)
    requires NumberedApart(cs)
    ensures NumberedApart(Entrants(cs, config))
  {
    hide Rejection, Ranks, Eligible, Sort, Exportable;
    EligibleAreNumberedApart(cs, config);
    SortStaysNumberedApart(Eligible(cs, config));
    ExportableAreNumberedApart(Ranked(cs, config));
  }

  /** Among attempts numbered apart the ranking goes one way only. */
  lemma RanksOneWay(xs: seq<Candidate>, a: Candidate, b: Candidate)
    requires NumberedApart(xs) && a in xs && b in xs && Ranks(a, b) && Ranks(b, a)
    ensures a == b
  {
    var i :| 0 <= i < |xs| && xs[i] == a;
    var j :| 0 <= j < |xs| && xs[j] == b;
  }

  // ----- which fingerprints are kept

  /** Each distinct trace goes before all with its fingerprint. */
  lemma DistinctGoesFirst(xs: seq<Candidate>, j: nat, d: Candidate)
    requires Sorted(Ranks, xs) && j < |Distinct(xs)| && d in xs && FingerprintOf(d) == FingerprintOf(Distinct(xs)[j])
    ensures Ranks(Distinct(xs)[j], d)
  {
    hide Ranks, FingerprintOf, Distinct;
    DistinctKeepsTheBest(xs, d);
    DistinctRepeatsNothing(xs);
    var i :| 0 <= i < |Distinct(xs)| && FingerprintOf(Distinct(xs)[i]) == FingerprintOf(d) && Ranks(Distinct(xs)[i], d);
  }

  lemma {:induction false} AllDifferent(xs: seq<Candidate>)
    requires NoFingerprintTwice(xs)
    ensures |Fingerprints(xs)| == |xs|
    decreases |xs|
  {
    hide FingerprintOf;
    if xs == [] {
      assert Fingerprints(xs) == {};
    } else {
      var front, last := xs[..|xs| - 1], xs[|xs| - 1];
      AllDifferent(front);
      assert xs == front + [last];
      OneMoreFingerprint(xs, front, last);
      assert FingerprintOf(last) !in Fingerprints(front);
    }
  }

  lemma {:induction false} DistinctHasEveryFingerprint(cs: seq<Candidate>, f: Fingerprint) returns (j: nat)
    requires f in Fingerprints(cs)
    ensures j < |Distinct(cs)| && FingerprintOf(Distinct(cs)[j]) == f
    decreases |cs|
  {
    hide FingerprintOf;
    var front, last := cs[..|cs| - 1], cs[|cs| - 1];
    assert cs == front + [last];
    if f in Fingerprints(front) {
      j := DistinctHasEveryFingerprint(front, f);
    } else {
      assert FingerprintOf(last) == f;
      j := |Distinct(front)|;
    }
  }

  lemma KeptUpToTheCap(cs: seq<Candidate>, keep: nat, j: nat)
    requires j < |Distinct(cs)|
    ensures FingerprintOf(Distinct(cs)[j]) in Fingerprints(Capped(Distinct(cs), keep)) <==> j < keep
  {
    hide FingerprintOf;
    var distinct, kept := Distinct(cs), Capped(Distinct(cs), keep);
    DistinctRepeatsNothing(cs);
    hide Distinct;
    assert j < keep ==> kept[j] == distinct[j] && kept[j] in kept;
    if j >= keep {
      forall c | c in kept ensures FingerprintOf(c) != FingerprintOf(distinct[j]) {
        var k :| 0 <= k < |kept| && kept[k] == c;
        assert c == distinct[k];
      }
    }
  }

  lemma EarlierAreAhead(cs: seq<Candidate>, config: CollectConfig, j: nat, i: nat)
    requires var distinct := Distinct(Entrants(cs, config)); i < j < |distinct|
    ensures var distinct := Distinct(Entrants(cs, config));
            FingerprintOf(distinct[i]) in Ahead(cs, config, FingerprintOf(distinct[j]))
  {
    hide FingerprintOf, Entrants, Enters, Distinct;
    var xs := Entrants(cs, config);
    var distinct := Distinct(xs);
    var e, f := distinct[i], FingerprintOf(distinct[j]);
    EntrantsAreSorted(cs, config);
    DistinctAreMembers(xs);
    DistinctStaysSorted(xs);
    DistinctRepeatsNothing(xs);
    assert e in distinct;
    EntrantsAre(cs, config, e);
    forall d | d in cs && Enters(d, config) && FingerprintOf(d) == f ensures Ranks(e, d) {
      EntrantsAre(cs, config, d);
      DistinctGoesFirst(xs, j, d);
    }
  }

  lemma AheadAreEarlier(cs: seq<Candidate>, config: CollectConfig, j: nat, g: Fingerprint) returns (i: nat)
    requires NumberedApart(cs) && j < |Distinct(Entrants(cs, config))|
    requires g in Ahead(cs, config, FingerprintOf(Distinct(Entrants(cs, config))[j]))
    ensures i < j && FingerprintOf(Distinct(Entrants(cs, config))[i]) == g
  {
    hide FingerprintOf, Entrants, Enters, Distinct, Ranks;
    var xs := Entrants(cs, config);
    var distinct := Distinct(xs);
    var f := FingerprintOf(distinct[j]);
    var e :| e in cs && Enters(e, config) && FingerprintOf(e) == g && g != f && GoesBefore(e, cs, config, f);
    EntrantsAre(cs, config, e);
    i := DistinctHasEveryFingerprint(xs, g);
    EntrantsAreSorted(cs, config);
    DistinctAreMembers(xs);
    DistinctStaysSorted(xs);
    assert distinct[i] in distinct && distinct[j] in distinct;
    EntrantsAre(cs, config, distinct[j]);
    DistinctGoesFirst(xs, i, e);
    RanksOrders();
    assert Ranks(distinct[i], distinct[j]);
    if i > j {
      EntrantsAreNumberedApart(cs, config);
      RanksOneWay(xs, distinct[i], distinct[j]);
    }
  }

  lemma AheadIs(cs: seq<Candidate>, config: CollectConfig, j: nat)
    requires NumberedApart(cs) && j < |Distinct(Entrants(cs, config))|
    ensures var distinct := Distinct(Entrants(cs, config));
            |Ahead(cs, config, FingerprintOf(distinct[j]))| == j
  {
    hide FingerprintOf, Entrants, Enters, Distinct, Ranks, Ahead;
    var distinct := Distinct(Entrants(cs, config));
    var f, earlier := FingerprintOf(distinct[j]), distinct[..j];
    forall g ensures g in Fingerprints(earlier) <==> g in Ahead(cs, config, f) {
      if g in Fingerprints(earlier) {
        var c :| c in earlier && FingerprintOf(c) == g;
        var i :| 0 <= i < j && earlier[i] == c;
        EarlierAreAhead(cs, config, j, i);
      }
      if g in Ahead(cs, config, f) {
        var i := AheadAreEarlier(cs, config, j, g);
        assert earlier[i] == distinct[i] && earlier[i] in earlier;
      }
    }
    assert Fingerprints(earlier) == Ahead(cs, config, f);
    DistinctRepeatsNothing(Entrants(cs, config));
    AllDifferent(earlier);
  }

  /** A fingerprint is kept if and only if fewer than `keep` others have an entrant that
      goes before all entrants with this one. */
  lemma KeptIffFewAreAhead(cs: seq<Candidate>, config: CollectConfig, c: Candidate)
    requires NumberedApart(cs) && c in cs && Enters(c, config)
    ensures FingerprintOf(c) in Fingerprints(Kept(cs, config)) <==>
            |Ahead(cs, config, FingerprintOf(c))| < config.keep
  {
    hide FingerprintOf, Enters, Ahead, Exportable, Ranked, Distinct, Capped;
    EntrantsAre(cs, config, c);
    var j := DistinctHasEveryFingerprint(Entrants(cs, config), FingerprintOf(c));
    AheadIs(cs, config, j);
    KeptUpToTheCap(Entrants(cs, config), config.keep, j);
  }

  // ----- what `duplicate` counts

  /** Two entrants with one fingerprint. */
  ghost predicate AreTwins(cs: seq<Candidate>, config: CollectConfig, a: Candidate, b: Candidate) {
    && a in cs && b in cs && a != b && Enters(a, config) && Enters(b, config)
    && FingerprintOf(a) == FingerprintOf(b)
  }

  /** What `duplicate` is documented to count: repeats of a trace that is kept. */
  ghost predicate DuplicatesRepeatKept(cs: seq<Candidate>, config: CollectConfig) {
    forall d :: IsDuplicate(cs, config, d) ==> FingerprintOf(d) in Fingerprints(Kept(cs, config))
  }

  lemma OneTwinIsADuplicate(cs: seq<Candidate>, config: CollectConfig, a: Candidate, b: Candidate)
    requires AreTwins(cs, config, a, b)
    ensures IsDuplicate(cs, config, a) || IsDuplicate(cs, config, b)
  {
    hide FingerprintOf, Enters;
    assert Ranks(a, b) || Ranks(b, a);
  }

  lemma DuplicatesHaveTwins(cs: seq<Candidate>, config: CollectConfig, d: Candidate) returns (e: Candidate)
    requires IsDuplicate(cs, config, d)
    ensures AreTwins(cs, config, d, e)
  {
    hide FingerprintOf, Enters, Ranks;
    e :| e in cs && e != d && Enters(e, config) && FingerprintOf(e) == FingerprintOf(d) && Ranks(e, d);
  }

  /** A fingerprint is entered before the cap is looked at. So every duplicate repeats a
      trace that is kept, if and only if of no fingerprint that two entrants share as
      many as `keep` others are ahead. */
  lemma WhatDuplicatesRepeat(cs: seq<Candidate>, config: CollectConfig)
    requires NumberedApart(cs)
    ensures DuplicatesRepeatKept(cs, config) <==>
            forall a, b :: AreTwins(cs, config, a, b) ==> |Ahead(cs, config, FingerprintOf(a))| < config.keep
  {
    hide FingerprintOf, Enters, Ahead, Kept, IsDuplicate, Fingerprints;
    if a, b :| AreTwins(cs, config, a, b) && |Ahead(cs, config, FingerprintOf(a))| >= config.keep {
      OneTwinIsADuplicate(cs, config, a, b);
      KeptIffFewAreAhead(cs, config, a);
      assert !DuplicatesRepeatKept(cs, config);
    }
    if d :| IsDuplicate(cs, config, d) && FingerprintOf(d) !in Fingerprints(Kept(cs, config)) {
      var e := DuplicatesHaveTwins(cs, config, d);
      KeptIffFewAreAhead(cs, config, d);
    }
  }

  /** Those of `xs` that another one with the same fingerprint goes before. */
  ghost function Repeats(xs: seq<Candidate>): set<Candidate> {
    set d | d in xs && exists e :: e in xs && e != d && FingerprintOf(e) == FingerprintOf(d) && Ranks(e, d)
  }

  lemma OneMoreRepeat(xs: seq<Candidate>, front: seq<Candidate>, last: Candidate)
    requires Sorted(Ranks, xs) && NumberedApart(xs) && xs == front + [last]
    ensures last !in front
    ensures Repeats(xs) == Repeats(front) + if FingerprintOf(last) in Fingerprints(front) then {last} else {}
  {
    hide FingerprintOf;
    LastIsWorstOfAll(xs, front, last);
    hide Ranks;
    FrontIsNumberedApart(xs);
    assert front == xs[..|xs| - 1];
    forall d ensures d in Repeats(xs) <==> d in Repeats(front) || (d == last && FingerprintOf(last) in Fingerprints(front)) {
      if d in front && Ranks(last, d) {
        RanksOneWay(xs, last, d);
      }
    }
  }

  lemma {:induction false} RepeatsAreDropped(xs: seq<Candidate>)
    requires Sorted(Ranks, xs) && NumberedApart(xs)
    ensures |Repeats(xs)| == |xs| - |Distinct(xs)|
    decreases |xs|
  {
    hide FingerprintOf, Ranks, Fingerprints;
    if xs == [] {
      assert Repeats(xs) == {};
    } else {
      var front, last := xs[..|xs| - 1], xs[|xs| - 1];
      assert xs == front + [last];
      LastIsWorstOfAll(xs, front, last);
      FrontIsNumberedApart(xs);
      RepeatsAreDropped(front);
      OneMoreRepeat(xs, front, last);
      assert last !in Repeats(front);
    }
  }

  /** The counter `duplicate` grows by the attempts that another one with the same
      fingerprint goes before. */
  lemma DuplicatesAreCounted(r: Rejections, cs: seq<Candidate>, config: CollectConfig)
    requires NumberedApart(cs)
    ensures Accounted(r, cs, config).duplicate
         == r.duplicate + |set d | d in cs && IsDuplicate(cs, config, d)|
  {
    hide FingerprintOf, Enters, Ranks, Ranked, Exportable, Distinct, HowMany, Capped;
    var xs := Entrants(cs, config);
    EntrantsAreSorted(cs, config);
    EntrantsAreNumberedApart(cs, config);
    RepeatsAreDropped(xs);
    FiltersAreCountedInOrder(r, cs, config);
    forall d ensures d in Repeats(xs) <==> IsDuplicate(cs, config, d) {
      RepeatIs(cs, config, d);
    }
    assert (set d | d in cs && IsDuplicate(cs, config, d)) == Repeats(xs);
  }

  lemma RepeatIs(cs: seq<Candidate>, config: CollectConfig, d: Candidate)
    ensures d in Repeats(Entrants(cs, config)) <==> IsDuplicate(cs, config, d)
  {
    hide FingerprintOf, Enters, Ranks, Entrants;
    forall e ensures e in Entrants(cs, config) <==> e in cs && Enters(e, config) {
      EntrantsAre(cs, config, e);
    }
  }

  lemma KeptFingerprints(cs: seq<Candidate>, config: CollectConfig)
    ensures |Fingerprints(Kept(cs, config))| == |Kept(cs, config)|
    ensures Fingerprints(Kept(cs, config)) <= PassingFingerprints(cs, config)
  {
    hide FingerprintOf, Rejection, Kept, Enters, Ranks;
    NothingBetterIsLeftOut(cs, config);
    AllDifferent(Kept(cs, config));
    forall c | c in Kept(cs, config) ensures c in cs && HasFate(c, config, CanBeWritten) {
      FateOfRejected(c, config, InvalidTurns);
    }
  }

  /** The counter `over_keep` grows by the fingerprints that as many as `keep` others are
      ahead of. */
  lemma OverTheCapAreCounted(r: Rejections, cs: seq<Candidate>, config: CollectConfig)
    requires NumberedApart(cs)
    ensures Accounted(r, cs, config).overKeep == r.overKeep +
            |set c | c in cs && Enters(c, config) && |Ahead(cs, config, FingerprintOf(c))| >= config.keep :: FingerprintOf(c)|
  {
    hide FingerprintOf, Ahead, Kept, Fingerprints, HowMany, Accounted;
    KeptAndDroppedAreCounted(r, cs, config);
    FiltersAreCountedInOrder(r, cs, config);
    KeptFingerprints(cs, config);
    forall c | c in cs && Enters(c, config)
      ensures FingerprintOf(c) in Fingerprints(Kept(cs, config)) <==> |Ahead(cs, config, FingerprintOf(c))| < config.keep
    {
      KeptIffFewAreAhead(cs, config, c);
    }
    var over := set c | c in cs && Enters(c, config) && |Ahead(cs, config, FingerprintOf(c))| >= config.keep :: FingerprintOf(c);
    var all, kept := PassingFingerprints(cs, config), Fingerprints(Kept(cs, config));
    assert over == all - kept;
    assert |all - kept| == |all| - |kept|;
  }
}
