/** What a campaign's tally and verdict say of its results, counted one by one
    (crates/solinv-mutate/src/score.rs). */
module Verdicts {
  import opened Common
  import opened Scores

  predicate IsKilled(r: Result) { r.outcome.Killed? }

  predicate IsKilledAsExpected(r: Result) { r.outcome.Killed? && r.outcome.killer == r.expected }

  predicate IsKilledByAnother(r: Result) { r.outcome.Killed? && r.outcome.killer != r.expected }

  predicate IsSurvivor(r: Result) { r.outcome.Survived? }

  predicate IsUnreached(r: Result) { r.outcome.NotReached? }

  predicate IsUnbuilt(r: Result) { r.outcome.BuildFailed? }

  predicate IsBroken(r: Result) { r.outcome.HarnessError? }

  /** Where the results that satisfy `p` stand. */
  function At(rs: seq<Result>, p: Result -> bool): set<nat> { set i | 0 <= i < |rs| && p(rs[i]) }

  lemma {:induction false} AtMore(rs: seq<Result>, p: Result -> bool)
    requires rs != []
    ensures |At(rs, p)| == |At(rs[..|rs| - 1], p)| + if p(rs[|rs| - 1]) then 1 else 0
  {
    var last := |rs| - 1;
    assert At(rs, p) == At(rs[..last], p) + if p(rs[last]) then {last} else {};
  }

  lemma {:induction false} CountIsAt(rs: seq<Result>, k: Kind, p: Result -> bool)
    requires forall r :: p(r) <==> KindOf(r) == k
    ensures Count(rs, k) == |At(rs, p)|
  {
    if rs != [] {
      AtMore(rs, p);
      CountIsAt(rs[..|rs| - 1], k, p);
    }
  }

  lemma {:induction false} TwoKinds(rs: seq<Result>, j: Kind, k: Kind, p: Result -> bool)
    requires j != k && forall r :: p(r) <==> KindOf(r) == j || KindOf(r) == k
    ensures Count(rs, j) + Count(rs, k) == |At(rs, p)|
  {
    if rs != [] {
      AtMore(rs, p);
      TwoKinds(rs[..|rs| - 1], j, k, p);
    }
  }

  lemma {:induction false} KindsCounted(rs: seq<Result>)
    ensures Count(rs, AsExpected) + Count(rs, ByAnother) == |At(rs, IsKilled)|
    ensures Count(rs, AsExpected) == |At(rs, IsKilledAsExpected)| && Count(rs, ByAnother) == |At(rs, IsKilledByAnother)|
    ensures Count(rs, Alive) == |At(rs, IsSurvivor)| && Count(rs, Unreached) == |At(rs, IsUnreached)|
    ensures Count(rs, Unbuilt) == |At(rs, IsUnbuilt)| && Count(rs, Broken) == |At(rs, IsBroken)|
  {
    hide Count, At;
    TwoKinds(rs, AsExpected, ByAnother, IsKilled);
    CountIsAt(rs, AsExpected, IsKilledAsExpected);
    CountIsAt(rs, ByAnother, IsKilledByAnother);
    CountIsAt(rs, Alive, IsSurvivor);
    CountIsAt(rs, Unreached, IsUnreached);
    CountIsAt(rs, Unbuilt, IsUnbuilt);
    CountIsAt(rs, Broken, IsBroken);
  }

  lemma FractionMeans(killed: nat, reached: nat)
    ensures Fraction(killed, reached).Some? <==> reached > 0
    ensures reached > 0 ==> Fraction(killed, reached).value * reached as real == killed as real
  {
  }

  /** Each field of a tally is the number of results of one outcome; the score is the killed of those
      reached, and there is one exactly when something was reached. */
  lemma {:induction false} TallyExact(rs: seq<Result>)
    ensures var s := ScoreOf(rs);
            && s.killed == |At(rs, IsKilled)| && s.survived == |At(rs, IsSurvivor)|
            && s.byExpected == |At(rs, IsKilledAsExpected)| && s.byOther == |At(rs, IsKilledByAnother)|
            && s.notReached == |At(rs, IsUnreached)| && s.buildFailed == |At(rs, IsUnbuilt)|
            && s.harnessError == |At(rs, IsBroken)| && s.denominator == s.killed + s.survived
    ensures var s := ScoreOf(rs);
            && (s.score.Some? <==> s.denominator > 0)
            && (s.score.Some? ==> s.score.value * s.denominator as real == s.killed as real)
  {
    KindsCounted(rs);
    FractionMeans(ScoreOf(rs).killed, ScoreOf(rs).denominator);
    hide Count, At, Fraction;
  }

  /** The mutant `id` is declared equivalent, and survived. */
  ghost predicate Excluded(equivalent: seq<Equivalent>, rs: seq<Result>, id: string) {
    && (exists j :: 0 <= j < |equivalent| && equivalent[j].id == id)
    && (exists i :: 0 <= i < |rs| && rs[i].id == id && rs[i].outcome.Survived?)
  }

  lemma {:induction false} ExcludedIds(equivalent: seq<Equivalent>, rs: seq<Result>, id: string)
    ensures id in Ids(Honoured(equivalent, SurvivedIds(rs))) <==> Excluded(equivalent, rs, id)
  {
    HonouredIds(equivalent, SurvivedIds(rs));
    if id in Ids(equivalent) {
      var e :| e in equivalent && e.id == id;
      var j :| 0 <= j < |equivalent| && equivalent[j] == e;
    }
    if id in SurvivedIds(rs) {
      var r :| r in rs && r.outcome.Survived? && r.id == id;
      var i :| 0 <= i < |rs| && rs[i] == r;
    }
  }

  /** What is left after an exclusion, counted where it stood. */
  lemma {:induction false} WithoutAt(rs: seq<Result>, ids: set<string>, p: Result -> bool)
    ensures |At(Without(rs, ids), p)| == |At(rs, r => p(r) && r.id !in ids)|
  {
    var q: Result -> bool := r => p(r) && r.id !in ids;
    if rs != [] {
      var r, before := rs[|rs| - 1], Without(rs[..|rs| - 1], ids);
      WithoutAt(rs[..|rs| - 1], ids, p);
      AtMore(rs, q);
      if r.id !in ids {
        AtMore(before + [r], p);
        assert (before + [r])[..|before|] == before;
      }
    } else {
      assert At(Without(rs, ids), p) == {} && At(rs, q) == {};
    }
  }

  /** How many scored results satisfy `p`: those not excluded. */
  ghost function Scored(equivalent: seq<Equivalent>, rs: seq<Result>, p: Result -> bool): nat {
    |set i | 0 <= i < |rs| && p(rs[i]) && !Excluded(equivalent, rs, rs[i].id)|
  }

  lemma {:induction false} ScoredCounts(c: Criterion, equivalent: seq<Equivalent>, rs: seq<Result>, p: Result -> bool)
    ensures |At(Build(c, equivalent, rs).scored, p)| == Scored(equivalent, rs, p)
  {
    var ids := Ids(Honoured(equivalent, SurvivedIds(rs)));
    WithoutAt(rs, ids, p);
    forall i | 0 <= i < |rs| ensures rs[i].id in ids <==> Excluded(equivalent, rs, rs[i].id) {
      ExcludedIds(equivalent, rs, rs[i].id);
    }
    assert At(rs, r => p(r) && r.id !in ids) ==
           set i | 0 <= i < |rs| && p(rs[i]) && !Excluded(equivalent, rs, rs[i].id);
  }

  /** `killed` of `reached` is at least `bar`. */
  predicate Clears(bar: real, killed: nat, reached: nat) {
    if reached > 0 then killed as real >= bar * reached as real else bar <= 0.0
  }

  /** The verdict, of the results that no honoured exclusion names: inconclusive exactly when fewer than
      the required were killed or survived; otherwise a pass exactly when the killed are at least the
      required part of them, and a failure exactly when they are fewer. The score given is that part;
      where nothing was reached and nothing is required, it is 0 and passes only a bar of 0 or less. */
  lemma {:induction false} GateExact(c: Criterion, equivalent: seq<Equivalent>, rs: seq<Result>)
    ensures var gate := Build(c, equivalent, rs).gate;
            var killed := Scored(equivalent, rs, IsKilled);
            var reached := killed + Scored(equivalent, rs, IsSurvivor);
            && (gate.Inconclusive? <==> reached < c.minReached)
            && (gate.Pass? <==> reached >= c.minReached && Clears(c.minScore, killed, reached))
            && gate.reached == reached
            && (gate.Inconclusive? ==> gate.required == c.minReached)
            && (!gate.Inconclusive? ==>
                  gate.score * reached as real == killed as real && (reached == 0 ==> gate.score == 0.0))
  {
    var report := Build(c, equivalent, rs);
    ReportTold(c, equivalent, rs);
    hide Build, Scored, Evaluate;
    Bar(c, report);
  }

  lemma ReportParts(c: Criterion, equivalent: seq<Equivalent>, rs: seq<Result>)
    ensures var report := Build(c, equivalent, rs);
            report.score == ScoreOf(report.scored) && report.gate == Evaluate(c, report.score)
  {
    hide ScoreOf, Evaluate, Honoured, Without;
  }

  lemma {:induction false} ReportTold(c: Criterion, equivalent: seq<Equivalent>, rs: seq<Result>)
    ensures var report := Build(c, equivalent, rs); var s := report.score;
            && report.gate == Evaluate(c, s) && s.denominator == s.killed + s.survived
            && s.killed == Scored(equivalent, rs, IsKilled) && s.survived == Scored(equivalent, rs, IsSurvivor)
            && (s.score.Some? <==> s.denominator > 0)
            && (s.score.Some? ==> s.score.value * s.denominator as real == s.killed as real)
  {
    hide *;
    var scored := Build(c, equivalent, rs).scored;
    ReportParts(c, equivalent, rs);
    TallyExact(scored);
    ScoredCounts(c, equivalent, rs, IsKilled);
    ScoredCounts(c, equivalent, rs, IsSurvivor);
  }

  lemma Bar(c: Criterion, report: Report)
    requires report.score.denominator == report.score.killed + report.score.survived
    requires report.gate == Evaluate(c, report.score)
    requires report.score.score.Some? <==> report.score.denominator > 0
    requires report.score.score.Some? ==>
               report.score.score.value * report.score.denominator as real == report.score.killed as real
    ensures var gate, killed, reached := report.gate, report.score.killed, report.score.denominator;
            && (gate.Inconclusive? <==> reached < c.minReached)
            && (gate.Pass? <==> reached >= c.minReached && Clears(c.minScore, killed, reached))
            && gate.reached == reached
            && (gate.Inconclusive? ==> gate.required == c.minReached)
            && (!gate.Inconclusive? ==>
                  gate.score * reached as real == killed as real && (reached == 0 ==> gate.score == 0.0))
  {
    var n := report.score.denominator as real;
    if report.score.denominator > 0 {
      ScaledBar(report.score.score.value, c.minScore, n);
    }
  }

  lemma ScaledBar(x: real, bar: real, n: real)
    requires n > 0.0
    ensures x >= bar <==> x * n >= bar * n
  {
    if x >= bar { Scaled(bar, x - bar, n); } else { Scaled(x, bar - x, n); }
  }

  lemma Scaled(x: real, more: real, n: real)
    requires n > 0.0 && more >= 0.0
    ensures (x + more) * n >= x * n && (more > 0.0 ==> (x + more) * n > x * n)
  {
    assert (x + more) * n == x * n + more * n;
    assert more > 0.0 ==> more * n > 0.0;
  }
}
