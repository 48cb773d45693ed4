/** Scoring a mutation campaign over the mutants it reached (crates/solinv-mutate/src/score.rs).
    Scores are exact fractions. */
module Scores {
  import opened Common

  datatype Outcome =
    | Killed(killer: string) | Survived | NotReached | BuildFailed(reason: string) | HarnessError(reason: string)

  datatype Result = Result(id: string, expected: string, outcome: Outcome)

  datatype Score = Score(
    killed: nat, byExpected: nat, byOther: nat, survived: nat, notReached: nat, buildFailed: nat, harnessError: nat,
    denominator: nat, score: Option<real>)
  {
    function Total(): nat { denominator + notReached + buildFailed + harnessError }
  }

  /** What a result counts as. */
  datatype Kind = AsExpected | ByAnother | Alive | Unreached | Unbuilt | Broken

  function KindOf(r: Result): Kind {
    match r.outcome
    case Killed(killer) => if killer == r.expected then AsExpected else ByAnother
    case Survived => Alive
    case NotReached => Unreached
    case BuildFailed(_) => Unbuilt
    case HarnessError(_) => Broken
  }

  function Count(rs: seq<Result>, k: Kind): nat {
    if rs == [] then 0 else Count(rs[..|rs| - 1], k) + if KindOf(rs[|rs| - 1]) == k then 1 else 0
  }

  function Fraction(killed: nat, denominator: nat): Option<real> {
    if denominator == 0 then None else Some(killed as real / denominator as real)
  }

  function ScoreOf(rs: seq<Result>): Score {
    var expected, another, alive := Count(rs, AsExpected), Count(rs, ByAnother), Count(rs, Alive);
    var killed := expected + another;
    Score(killed, expected, another, alive, Count(rs, Unreached), Count(rs, Unbuilt), Count(rs, Broken),
      killed + alive, Fraction(killed, killed + alive))
  }

  method Tally(rs: seq<Result>) returns (s: Score)
    ensures s == ScoreOf(rs)
  {
    var killed, byExpected, byOther, survived, notReached, buildFailed, harnessError := 0, 0, 0, 0, 0, 0, 0;
    for i := 0 to |rs|
      invariant byExpected == Count(rs[..i], AsExpected) && byOther == Count(rs[..i], ByAnother)
      invariant killed == byExpected + byOther && survived == Count(rs[..i], Alive)
      invariant notReached == Count(rs[..i], Unreached) && buildFailed == Count(rs[..i], Unbuilt)
      invariant harnessError == Count(rs[..i], Broken)
    {
      var r := rs[i];
      CountNext(rs, i);
      match r.outcome {
        case Killed(killer) =>
          killed := killed + 1;
          if killer == r.expected {
            byExpected := byExpected + 1;
          } else {
            byOther := byOther + 1;
          }
        case Survived => survived := survived + 1;
        case NotReached => notReached := notReached + 1;
        case BuildFailed(_) => buildFailed := buildFailed + 1;
        case HarnessError(_) => harnessError := harnessError + 1;
      }
    }
    assert rs[..|rs|] == rs;
    var denominator := killed + survived;
    var score := if denominator > 0 then Some(killed as real / denominator as real) else None;
    s := Score(killed, byExpected, byOther, survived, notReached, buildFailed, harnessError, denominator, score);
  }

  lemma CountNext(rs: seq<Result>, i: nat)
    requires i < |rs|
    ensures forall k :: Count(rs[..i + 1], k) == Count(rs[..i], k) + if KindOf(rs[i]) == k then 1 else 0
  {
    assert rs[..i + 1][..i] == rs[..i];
  }

  lemma CountLast(rs: seq<Result>, k: Kind)
    requires rs != []
    ensures Count(rs, k) == Count(rs[..|rs| - 1], k) + if KindOf(rs[|rs| - 1]) == k then 1 else 0
  {
  }

  lemma CountMore(rs: seq<Result>, r: Result, k: Kind)
    ensures Count(rs + [r], k) == Count(rs, k) + if KindOf(r) == k then 1 else 0
  {
    assert (rs + [r])[..|rs|] == rs;
  }

  function CountAll(rs: seq<Result>): nat {
    Count(rs, AsExpected) + Count(rs, ByAnother) + Count(rs, Alive) + Count(rs, Unreached) + Count(rs, Unbuilt) +
        Count(rs, Broken)
  }

  lemma {:induction false} AllCounted(rs: seq<Result>)
    ensures CountAll(rs) == |rs|
  {
    if rs != [] {
      AllCounted(rs[..|rs| - 1]);
      CountLast(rs, AsExpected);
      CountLast(rs, ByAnother);
      CountLast(rs, Alive);
      CountLast(rs, Unreached);
      CountLast(rs, Unbuilt);
      CountLast(rs, Broken);
      hide Count;
      assert CountAll(rs) == CountAll(rs[..|rs| - 1]) + 1;
    }
  }

  /** Every result is counted once. */
  lemma TotalIsAll(rs: seq<Result>)
    ensures ScoreOf(rs).Total() == |rs|
    ensures ScoreOf(rs).killed == ScoreOf(rs).byExpected + ScoreOf(rs).byOther
  {
    hide Count;
    AllCounted(rs);
  }

  // ---- per invariant

  function ForKiller(rs: seq<Result>, killer: string): seq<Result> {
    if rs == [] then []
    else
      var before := ForKiller(rs[..|rs| - 1], killer);
      if rs[|rs| - 1].expected == killer then before + [rs[|rs| - 1]] else before
  }

  function Killers(rs: seq<Result>): set<string> { set r | r in rs :: r.expected }

  lemma ForKillerNext(rs: seq<Result>, i: nat, killer: string)
    requires i < |rs|
    ensures ForKiller(rs[..i + 1], killer) == if rs[i].expected == killer then ForKiller(rs[..i], killer) + [rs[i]]
        else ForKiller(rs[..i], killer)
    ensures Killers(rs[..i + 1]) == Killers(rs[..i]) + {rs[i].expected}
  {
    assert rs[..i + 1][..i] == rs[..i];
    assert rs[..i + 1] == rs[..i] + [rs[i]];
  }

  lemma {:induction false} ForKillerNone(rs: seq<Result>, killer: string)
    requires killer !in Killers(rs)
    ensures ForKiller(rs, killer) == []
  {
    if rs != [] {
      assert rs[|rs| - 1] in rs;
      assert forall r :: r in rs[..|rs| - 1] ==> r in rs;
      ForKillerNone(rs[..|rs| - 1], killer);
    }
  }

  method GroupByKiller(rs: seq<Result>) returns (grouped: map<string, seq<Result>>)
    ensures grouped.Keys == Killers(rs)
    ensures forall k :: k in grouped ==> grouped[k] == ForKiller(rs, k)
  {
    grouped := map[];
    for i := 0 to |rs|
      invariant grouped.Keys == Killers(rs[..i])
      invariant forall k :: k in grouped ==> grouped[k] == ForKiller(rs[..i], k)
    {
      var killer := rs[i].expected;
      forall k ensures ForKiller(rs[..i + 1], k) == if killer == k then ForKiller(rs[..i], k) + [rs[i]]
          else ForKiller(rs[..i], k) {
        ForKillerNext(rs, i, k);
      }
      ForKillerNext(rs, i, killer);
      if killer !in grouped { ForKillerNone(rs[..i], killer); }
      grouped := grouped[killer := (if killer in grouped then grouped[killer] else []) + [rs[i]]];
    }
    assert rs[..|rs|] == rs;
  }

  method PerInvariant(rs: seq<Result>) returns (r: map<string, Score>)
    ensures r.Keys == Killers(rs)
    ensures forall k :: k in r ==> r[k] == ScoreOf(ForKiller(rs, k))
  {
    var grouped := GroupByKiller(rs);
    r := map k | k in grouped :: ScoreOf(grouped[k]);
  }

  /** A count summed over some killers. */
  function Summed(rs: seq<Result>, killers: seq<string>, k: Kind): nat {
    if killers == [] then 0
    else Count(ForKiller(rs, killers[0]), k) + Summed(rs, killers[1..], k)
  }

  predicate Once(killers: seq<string>) { forall i, j :: 0 <= i < j < |killers| ==> killers[i] != killers[j] }

  lemma {:induction false} SummedNext(rs: seq<Result>, killers: seq<string>, k: Kind)
    requires rs != [] && Once(killers)
    ensures var r := rs[|rs| - 1];
            Summed(rs, killers, k) ==
              Summed(rs[..|rs| - 1], killers, k) + if r.expected in killers && KindOf(r) == k then 1 else 0
  {
    if killers != [] {
      var r, before := rs[|rs| - 1], ForKiller(rs[..|rs| - 1], killers[0]);
      SummedNext(rs, killers[1..], k);
      assert killers == [killers[0]] + killers[1..];
      assert killers[0] !in killers[1..];
      CountMore(before, r, k);
      assert r.expected in killers <==> r.expected == killers[0] || r.expected in killers[1..];
    }
  }

  /** The breakdown partitions every count: each result is under exactly one invariant. */
  lemma {:induction false} BreakdownPartitions(rs: seq<Result>, killers: seq<string>, k: Kind)
    requires Once(killers) && forall r :: r in rs ==> r.expected in killers
    ensures Summed(rs, killers, k) == Count(rs, k)
  {
    if rs == [] {
      NothingSummed(killers, k);
    } else {
      assert rs[|rs| - 1] in rs;
      assert forall r :: r in rs[..|rs| - 1] ==> r in rs;
      BreakdownPartitions(rs[..|rs| - 1], killers, k);
      SummedNext(rs, killers, k);
    }
  }

  lemma {:induction false} NothingSummed(killers: seq<string>, k: Kind)
    ensures Summed([], killers, k) == 0
  {
    if killers != [] { NothingSummed(killers[1..], k); }
  }

  // ---- the gate

  datatype Criterion = Criterion(minScore: real, minReached: nat)

  datatype Gate =
    | Pass(score: real, reached: nat)
    | Fail(score: real, reached: nat)
    | Inconclusive(reached: nat, required: nat)

  function Evaluate(c: Criterion, s: Score): Gate {
    if s.denominator < c.minReached then Inconclusive(s.denominator, c.minReached)
    else
      var value := if s.score.Some? then s.score.value else 0.0;
      if value >= c.minScore then Pass(value, s.denominator) else Fail(value, s.denominator)
  }

  predicate IsReached(r: Result) { r.outcome.Killed? || r.outcome.Survived? }

  function Reached(rs: seq<Result>): seq<Result> {
    if rs == [] then []
    else
      var before := Reached(rs[..|rs| - 1]);
      if IsReached(rs[|rs| - 1]) then before + [rs[|rs| - 1]] else before
  }

  lemma {:induction false} ReachedCounts(rs: seq<Result>, k: Kind)
    requires k.AsExpected? || k.ByAnother? || k.Alive?
    ensures Count(rs, k) == Count(Reached(rs), k)
  {
    if rs != [] {
      var before := Reached(rs[..|rs| - 1]);
      ReachedCounts(rs[..|rs| - 1], k);
      CountMore(before, rs[|rs| - 1], k);
    }
  }

  /** Score and gate see the reached mutants only: what was not reached, did not build or did not
      run changes neither, wherever it stands. */
  lemma UnreachedChangeNothing(c: Criterion, xs: seq<Result>, ys: seq<Result>)
    requires Reached(xs) == Reached(ys)
    ensures ScoreOf(xs).score == ScoreOf(ys).score && ScoreOf(xs).denominator == ScoreOf(ys).denominator
    ensures Evaluate(c, ScoreOf(xs)) == Evaluate(c, ScoreOf(ys))
  {
    ReachedCounts(xs, AsExpected);
    ReachedCounts(xs, ByAnother);
    ReachedCounts(xs, Alive);
    ReachedCounts(ys, AsExpected);
    ReachedCounts(ys, ByAnother);
    ReachedCounts(ys, Alive);
  }

  // ---- equivalent mutants

  datatype Equivalent = Equivalent(id: string, reason: string)

  function SurvivedIds(rs: seq<Result>): set<string> { set r | r in rs && r.outcome.Survived? :: r.id }

  /** The exclusions that name a mutant that survived. */
  function Honoured(equivalent: seq<Equivalent>, survived: set<string>): seq<Equivalent> {
    if equivalent == [] then []
    else (if equivalent[0].id in survived then [equivalent[0]] else []) + Honoured(equivalent[1..], survived)
  }

  function Ids(equivalent: seq<Equivalent>): set<string> { set e | e in equivalent :: e.id }

  function Without(rs: seq<Result>, ids: set<string>): seq<Result> {
    if rs == [] then []
    else
      var before := Without(rs[..|rs| - 1], ids);
      if rs[|rs| - 1].id in ids then before else before + [rs[|rs| - 1]]
  }

  datatype Report = Report(raw: Score, excluded: seq<Equivalent>, score: Score, gate: Gate, scored: seq<Result>)

  function Build(c: Criterion, equivalent: seq<Equivalent>, rs: seq<Result>): Report {
    var excluded := Honoured(equivalent, SurvivedIds(rs));
    var scored := Without(rs, Ids(excluded));
    Report(ScoreOf(rs), excluded, ScoreOf(scored), Evaluate(c, ScoreOf(scored)), scored)
  }

  lemma {:induction false} HonouredIds(equivalent: seq<Equivalent>, survived: set<string>)
    ensures Ids(Honoured(equivalent, survived)) == Ids(equivalent) * survived
  {
    if equivalent != [] {
      HonouredIds(equivalent[1..], survived);
      assert equivalent == [equivalent[0]] + equivalent[1..];
      var rest := Honoured(equivalent[1..], survived);
      assert Ids([equivalent[0]] + rest) == {equivalent[0].id} + Ids(rest);
      assert Ids([equivalent[0]] + equivalent[1..]) == {equivalent[0].id} + Ids(equivalent[1..]);
      assert Ids([] + rest) == Ids(rest);
    }
  }

  /** The results an exclusion takes away. */
  function Dropped(rs: seq<Result>, ids: set<string>): seq<Result> {
    if rs == [] then []
    else
      var before := Dropped(rs[..|rs| - 1], ids);
      if rs[|rs| - 1].id in ids then before + [rs[|rs| - 1]] else before
  }

  /** What is kept and what is dropped are together what there was. */
  lemma {:induction false} ExclusionSplits(rs: seq<Result>, ids: set<string>, k: Kind)
    ensures Count(Without(rs, ids), k) + Count(Dropped(rs, ids), k) == Count(rs, k)
  {
    if rs != [] {
      var r, before := rs[|rs| - 1], rs[..|rs| - 1];
      ExclusionSplits(before, ids, k);
      CountLast(rs, k);
      hide Count;
      CountMore(Without(before, ids), r, k);
      CountMore(Dropped(before, ids), r, k);
    }
  }

  lemma {:induction false} DroppedHas(rs: seq<Result>, ids: set<string>, r: Result)
    ensures r in Dropped(rs, ids) <==> r in rs && r.id in ids
  {
    if rs != [] {
      DroppedHas(rs[..|rs| - 1], ids, r);
      assert rs == rs[..|rs| - 1] + [rs[|rs| - 1]];
    }
  }

  lemma {:induction false} CountNone(rs: seq<Result>, k: Kind)
    ensures Count(rs, k) == 0 <==> forall r :: r in rs ==> KindOf(r) != k
  {
    if rs != [] {
      CountNone(rs[..|rs| - 1], k);
      assert rs == rs[..|rs| - 1] + [rs[|rs| - 1]];
    }
  }

  lemma {:induction false} CountEvery(rs: seq<Result>, k: Kind)
    requires forall r :: r in rs ==> KindOf(r) == k
    ensures Count(rs, k) == |rs|
  {
    if rs != [] {
      assert rs == rs[..|rs| - 1] + [rs[|rs| - 1]];
      assert rs[|rs| - 1] in rs;
      CountEvery(rs[..|rs| - 1], k);
    }
  }

  /** An exclusion leaves a count as it was exactly when it names no result of that kind. */
  lemma ExclusionKeepsExactly(rs: seq<Result>, ids: set<string>, k: Kind)
    ensures Count(Without(rs, ids), k) == Count(rs, k) <==> forall r :: r in rs && r.id in ids ==> KindOf(r) != k
  {
    ExclusionSplits(rs, ids, k);
    CountNone(Dropped(rs, ids), k);
    forall r ensures r in Dropped(rs, ids) <==> r in rs && r.id in ids {
      DroppedHas(rs, ids, r);
    }
  }

  predicate UniqueIds(rs: seq<Result>) { forall i, j :: 0 <= i < j < |rs| ==> rs[i].id != rs[j].id }

  function IdsOf(rs: seq<Result>): set<string> { set r | r in rs :: r.id }

  lemma IdsMore(rs: seq<Result>)
    requires rs != [] && UniqueIds(rs)
    ensures var r, before := rs[|rs| - 1], rs[..|rs| - 1]; IdsOf(rs) == IdsOf(before) + {r.id} && r.id !in IdsOf(before)
  {
    assert rs == rs[..|rs| - 1] + [rs[|rs| - 1]];
  }

  lemma MeetMore(ids: set<string>, seen: set<string>, id: string)
    requires id !in seen
    ensures |ids * (seen + {id})| == |ids * seen| + if id in ids then 1 else 0
  {
    assert ids * (seen + {id}) == if id in ids then ids * seen + {id} else ids * seen;
  }

  lemma {:induction false} DroppedEach(rs: seq<Result>, ids: set<string>)
    requires UniqueIds(rs)
    ensures |Dropped(rs, ids)| == |ids * IdsOf(rs)|
  {
    if rs == [] {
      assert ids * IdsOf(rs) == {};
    } else {
      var r, before := rs[|rs| - 1], rs[..|rs| - 1];
      DroppedEach(before, ids);
      IdsMore(rs);
      MeetMore(ids, IdsOf(before), r.id);
    }
  }

  /** With unique ids, only survivors are dropped, one for each id. */
  lemma SurvivorsDropped(rs: seq<Result>, ids: set<string>, k: Kind)
    requires UniqueIds(rs) && ids <= SurvivedIds(rs)
    ensures Count(Dropped(rs, ids), k) == if k == Alive then |ids| else 0
  {
    forall r | r in Dropped(rs, ids) ensures KindOf(r) == Alive {
      DroppedHas(rs, ids, r);
      var s :| s in rs && s.outcome.Survived? && s.id == r.id;
      var i :| 0 <= i < |rs| && rs[i] == r;
      var j :| 0 <= j < |rs| && rs[j] == s;
      assert i == j;
    }
    DroppedEach(rs, ids);
    assert ids * IdsOf(rs) == ids;
    if k == Alive { CountEvery(Dropped(rs, ids), k); } else { CountNone(Dropped(rs, ids), k); }
  }

  lemma FractionGrows(killed: nat, survived: nat, more: nat)
    requires killed + survived > 0
    ensures killed as real / (killed + survived) as real >= killed as real / (killed + survived + more) as real
  {
    var k, d, e := killed as real, (killed + survived) as real, (killed + survived + more) as real;
    var q := k / d;
    assert q * d == k && q >= 0.0;
    assert q * e >= q * d;
    assert k / e <= q;
  }

  lemma KindConserved(rs: seq<Result>, ids: set<string>, k: Kind)
    requires UniqueIds(rs) && ids <= SurvivedIds(rs)
    ensures Count(Without(rs, ids), k) + (if k == Alive then |ids| else 0) == Count(rs, k)
  {
    ExclusionSplits(rs, ids, k);
    SurvivorsDropped(rs, ids, k);
  }

  /** With as many killed and fewer survivors, a score that exists is no lower. */
  lemma FewerSurvivors(c: Criterion, raw: Score, adjusted: Score, fewer: nat)
    requires raw.denominator == raw.killed + raw.survived && adjusted.denominator == adjusted.killed + adjusted.survived
    requires raw.score == Fraction(raw.killed, raw.denominator) &&
        adjusted.score == Fraction(adjusted.killed, adjusted.denominator)
    requires raw.killed == adjusted.killed && raw.survived == adjusted.survived + fewer
    ensures adjusted.score.Some? ==> raw.score.Some? && adjusted.score.value >= raw.score.value
    ensures Evaluate(c, raw).Pass? ==> !Evaluate(c, adjusted).Fail?
  {
    if adjusted.denominator > 0 {
      FractionGrows(adjusted.killed, adjusted.survived, fewer);
    } else if raw.denominator > 0 {
      assert raw.killed == 0 && raw.score.value == 0 as real / raw.denominator as real == 0.0;
    }
  }

  /** Excluding equivalent mutants takes the distinct survivors they name out of the denominator and
      nothing else, so it never lowers a score, and never makes a pass a failure. */
  lemma ExclusionConserves(c: Criterion, equivalent: seq<Equivalent>, rs: seq<Result>)
    requires UniqueIds(rs)
    ensures var report := Build(c, equivalent, rs); var raw, adjusted := report.raw, report.score;
            && adjusted.survived + |Ids(report.excluded)| == raw.survived
            && adjusted.byExpected == raw.byExpected && adjusted.byOther == raw.byOther
            && adjusted.notReached == raw.notReached && adjusted.buildFailed == raw.buildFailed
            && adjusted.harnessError == raw.harnessError
            && (adjusted.score.Some? ==> raw.score.Some? && adjusted.score.value >= raw.score.value)
            && (Evaluate(c, raw).Pass? ==> !report.gate.Fail?)
  {
    hide Count, Fraction, Without, Honoured, Ids, SurvivedIds;
    var ids := Ids(Honoured(equivalent, SurvivedIds(rs)));
    var adjusted := Without(rs, ids);
    HonouredIds(equivalent, SurvivedIds(rs));
    KindConserved(rs, ids, AsExpected);
    KindConserved(rs, ids, ByAnother);
    KindConserved(rs, ids, Alive);
    KindConserved(rs, ids, Unreached);
    KindConserved(rs, ids, Unbuilt);
    KindConserved(rs, ids, Broken);
    FewerSurvivors(c, ScoreOf(rs), ScoreOf(adjusted), |ids|);
  }

  lemma {:induction false} SurvivedReached(rs: seq<Result>)
    ensures SurvivedIds(Reached(rs)) == SurvivedIds(rs)
  {
    if rs != [] {
      var r, before := rs[|rs| - 1], rs[..|rs| - 1];
      SurvivedReached(before);
      assert rs == before + [r];
      SurvivedMore(before, r);
      SurvivedMore(Reached(before), r);
    }
  }

  lemma SurvivedMore(rs: seq<Result>, r: Result)
    ensures SurvivedIds(rs + [r]) == SurvivedIds(rs) + if r.outcome.Survived? then {r.id} else {}
  {
  }

  lemma {:induction false} WithoutReached(rs: seq<Result>, ids: set<string>)
    ensures Reached(Without(rs, ids)) == Without(Reached(rs), ids)
  {
    if rs != [] {
      var r, before := rs[|rs| - 1], rs[..|rs| - 1];
      WithoutReached(before, ids);
      assert (Without(before, ids) + [r])[..|Without(before, ids)|] == Without(before, ids);
      assert (Reached(before) + [r])[..|Reached(before)|] == Reached(before);
    }
  }

  /** So does the whole report: its exclusions, its score and its verdict. */
  lemma UnreachedChangeNoReport(c: Criterion, equivalent: seq<Equivalent>, xs: seq<Result>, ys: seq<Result>)
    requires Reached(xs) == Reached(ys)
    ensures var x, y := Build(c, equivalent, xs), Build(c, equivalent, ys);
            x.excluded == y.excluded && x.score.score == y.score.score && x.gate == y.gate
  {
    SurvivedReached(xs);
    SurvivedReached(ys);
    var ids := Ids(Honoured(equivalent, SurvivedIds(xs)));
    WithoutReached(xs, ids);
    WithoutReached(ys, ids);
    UnreachedChangeNothing(c, Without(xs, ids), Without(ys, ids));
  }
}
