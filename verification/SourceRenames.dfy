/** Pairing the instructions a source change removes with the ones it adds
    (crates/solinv-static/src/diff.rs): best score first, and a score two pairs share for one
    instruction pairs neither. Scores are exact. */
module SourceRenames {
  /** A base instruction's and a head instruction's place in their sorted lists. */
  datatype Cand = Cand(score: real, old_: nat, new_: nat)

  predicate SharesIx(x: Cand, y: Cand) { x.old_ == y.old_ || x.new_ == y.new_ }

  predicate Better(x: Cand, y: Cand) {
    if x.score != y.score then x.score > y.score
    else if x.old_ != y.old_ then x.old_ < y.old_
    else x.new_ < y.new_
  }

  /** Slots shared over slots in all. */
  function Score(a: set<string>, b: set<string>): real {
    var all := |a + b|;
    (|a * b| as real) / ((if all == 0 then 1 else all) as real)
  }

  predicate Worth(a: set<string>, b: set<string>) { |a * b| > 0 && Score(a, b) >= 0.5 }

  /** The candidates, in the order the two loops find them. */
  function Scored(gone: seq<set<string>>, added: seq<set<string>>, i: nat, j: nat): seq<Cand>
    requires i <= |gone| && j <= |added|
    decreases |gone| - i, |added| - j
  {
    if i == |gone| then []
    else if j == |added| then Scored(gone, added, i + 1, 0)
    else
      (if Worth(gone[i], added[j]) then [Cand(Score(gone[i], added[j]), i, j)] else [])
      + Scored(gone, added, i, j + 1)
  }

  function Insert(c: Cand, s: seq<Cand>): (r: seq<Cand>)
    ensures forall x :: x in r <==> x == c || x in s
  {
    if s == [] then [c] else if Better(c, s[0]) then [c] + s else [s[0]] + Insert(c, s[1..])
  }

  function Sort(s: seq<Cand>): (r: seq<Cand>)
    ensures forall x :: x in r <==> x in s
  {
    if s == [] then [] else Insert(s[0], Sort(s[1..]))
  }

  predicate Descending(s: seq<Cand>) { forall i, j :: 0 <= i < j < |s| ==> s[i].score >= s[j].score }

  /** The one score is higher, or they are equal and its instructions come first. */
  predicate Ahead(x: Cand, y: Cand) {
    || x.score > y.score
    || (x.score == y.score && (x.old_ < y.old_ || (x.old_ == y.old_ && x.new_ < y.new_)))
  }

  predicate Ranked(s: seq<Cand>) { forall i, j :: 0 <= i < j < |s| ==> Ahead(s[i], s[j]) }

  lemma InsertRanked(c: Cand, s: seq<Cand>)
    requires Ranked(s) && forall x :: x in s ==> x.old_ != c.old_ || x.new_ != c.new_
    ensures Ranked(Insert(c, s))
  {
    if s != [] {
      forall k | 0 < k < |s| ensures Ahead(s[0], s[k]) {}
      if !Better(c, s[0]) {
        forall x | x in s[1..] ensures x in s {}
        InsertRanked(c, s[1..]);
        var r := Insert(c, s[1..]);
        forall k | 0 <= k < |r| ensures Ahead(s[0], r[k]) {
          assert r[k] in r;
          if r[k] in s[1..] {
            var m :| 0 <= m < |s[1..]| && s[1..][m] == r[k];
            assert s[m + 1] == r[k];
          } else {
            assert s[0] in s;
          }
        }
      }
    }
  }

  lemma SortRanked(s: seq<Cand>)
    requires NoTwice(s)
    ensures Ranked(Sort(s))
  {
    if s != [] {
      SortRanked(s[1..]);
      forall x | x in Sort(s[1..]) ensures x.old_ != s[0].old_ || x.new_ != s[0].new_ {
        assert x in s[1..];
        var m :| 0 <= m < |s[1..]| && s[1..][m] == x;
        assert s[m + 1] == x;
      }
      InsertRanked(s[0], Sort(s[1..]));
    }
  }

  /** Another candidate ties with `c` for one of its instructions. */
  predicate Rival(all: seq<Cand>, c: Cand) {
    exists d :: d in all && d.score == c.score && (d.old_ != c.old_ || d.new_ != c.new_) && SharesIx(d, c)
  }

  /** `settled` and `taken`: paired, or left out by a tie at their best. */
  datatype State = State(chosen: seq<Cand>, settled: set<nat>, taken: set<nat>)

  function Consider(all: seq<Cand>, s: State, c: Cand): State {
    if c.old_ in s.settled || c.new_ in s.taken then s
    else State(if Rival(all, c) then s.chosen else s.chosen + [c], s.settled + {c.old_}, s.taken + {c.new_})
  }

  function PairOff(all: seq<Cand>, k: nat): State
    requires k <= |all|
  {
    if k == 0 then State([], {}, {}) else Consider(all, PairOff(all, k - 1), all[k - 1])
  }

  /** The candidates of one removed instruction, from the added one at `j` on. */
  function Row(a: set<string>, added: seq<set<string>>, i: nat, j: nat): seq<Cand>
    requires j <= |added|
    decreases |added| - j
  {
    if j == |added| then []
    else (if Worth(a, added[j]) then [Cand(Score(a, added[j]), i, j)] else []) + Row(a, added, i, j + 1)
  }

  lemma {:induction false} ScoredRow(gone: seq<set<string>>, added: seq<set<string>>, i: nat, j: nat)
    requires i < |gone| && j <= |added|
    ensures Scored(gone, added, i, j) == Row(gone[i], added, i, j) + Scored(gone, added, i + 1, 0)
    decreases |added| - j
  {
    hide Worth, Score;
    if j < |added| { ScoredRow(gone, added, i, j + 1); }
  }

  method ScoreRow(a: set<string>, added: seq<set<string>>, i: nat) returns (row: seq<Cand>)
    ensures row == Row(a, added, i, 0)
  {
    row := [];
    for j := 0 to |added|
      invariant row + Row(a, added, i, j) == Row(a, added, i, 0)
    {
      if Worth(a, added[j]) {
        row := row + [Cand(Score(a, added[j]), i, j)];
      }
    }
  }

  /** Every pair of a removed and an added instruction worth comparing. */
  method ScorePairs(gone: seq<set<string>>, added: seq<set<string>>) returns (scored: seq<Cand>)
    ensures scored == Scored(gone, added, 0, 0)
  {
    scored := [];
    for i := 0 to |gone|
      invariant scored + Scored(gone, added, i, 0) == Scored(gone, added, 0, 0)
    {
      var row := ScoreRow(gone[i], added, i);
      ScoredRow(gone, added, i, 0);
      scored := scored + row;
    }
  }

  /** The pairing loop. */
  method PairRenamed(gone: seq<set<string>>, added: seq<set<string>>) returns (chosen: seq<Cand>)
    ensures var all := Sort(Scored(gone, added, 0, 0)); chosen == PairOff(all, |all|).chosen
  {
    var scored := ScorePairs(gone, added);
    var all := Sort(scored);
    var settled: set<nat>, taken: set<nat> := {}, {};
    chosen := [];
    for k := 0 to |all|
      invariant State(chosen, settled, taken) == PairOff(all, k)
    {
      var c := all[k];
      if c.old_ !in settled && c.new_ !in taken {
        if !Rival(all, c) {
          chosen := chosen + [c];
        }
        settled, taken := settled + {c.old_}, taken + {c.new_};
      }
    }
  }

  /** Another candidate, at least as good, is after one of the instructions of `c`. */
  ghost predicate Outdone(all: seq<Cand>, c: Cand) {
    exists d :: d in all && (d.old_ != c.old_ || d.new_ != c.new_) && SharesIx(d, c) && d.score >= c.score
  }

  predicate NoTwice(all: seq<Cand>) {
    forall i, j :: 0 <= i < j < |all| ==> all[i].old_ != all[j].old_ || all[i].new_ != all[j].new_
  }

  lemma {:induction false} ChosenSettled(all: seq<Cand>, k: nat, c: Cand)
    requires k <= |all| && c in PairOff(all, k).chosen
    ensures c in all && !Rival(all, c)
    ensures c.old_ in PairOff(all, k).settled && c.new_ in PairOff(all, k).taken
  {
    if c in PairOff(all, k - 1).chosen {
      ChosenSettled(all, k - 1, c);
    } else {
      assert c == all[k - 1];
    }
  }

  lemma {:induction false} ChosenApart(all: seq<Cand>, k: nat, i: nat, j: nat)
    requires k <= |all| && i < j < |PairOff(all, k).chosen|
    ensures !SharesIx(PairOff(all, k).chosen[i], PairOff(all, k).chosen[j])
  {
    var before := PairOff(all, k - 1).chosen;
    if j < |before| {
      ChosenApart(all, k - 1, i, j);
    } else {
      ChosenSettled(all, k - 1, before[i]);
    }
  }

  lemma {:induction false} SettledSeen(all: seq<Cand>, k: nat, o: nat)
    requires k <= |all| && o in PairOff(all, k).settled
    ensures exists i :: 0 <= i < k && all[i].old_ == o
  {
    if o in PairOff(all, k - 1).settled {
      SettledSeen(all, k - 1, o);
    } else {
      assert all[k - 1].old_ == o;
    }
  }

  lemma {:induction false} TakenSeen(all: seq<Cand>, k: nat, n: nat)
    requires k <= |all| && n in PairOff(all, k).taken
    ensures exists i :: 0 <= i < k && all[i].new_ == n
  {
    if n in PairOff(all, k - 1).taken {
      TakenSeen(all, k - 1, n);
    } else {
      assert all[k - 1].new_ == n;
    }
  }

  lemma OutdoneBy(all: seq<Cand>, i: nat, j: nat)
    requires i < j < |all| && Descending(all) && NoTwice(all) && SharesIx(all[i], all[j])
    ensures Outdone(all, all[j])
  {
    assert all[i] in all && all[i].score >= all[j].score;
  }

  lemma {:induction false} PassedOutdone(all: seq<Cand>, k: nat, j: nat)
    requires j < k <= |all| && Descending(all) && NoTwice(all)
    ensures all[j] in PairOff(all, k).chosen || Outdone(all, all[j])
  {
    if j < k - 1 {
      PassedOutdone(all, k - 1, j);
    } else {
      var s, c := PairOff(all, j), all[j];
      if c.old_ in s.settled {
        SettledSeen(all, j, c.old_);
        var i :| 0 <= i < j && all[i].old_ == c.old_;
        OutdoneBy(all, i, j);
      } else if c.new_ in s.taken {
        TakenSeen(all, j, c.new_);
        var i :| 0 <= i < j && all[i].new_ == c.new_;
        OutdoneBy(all, i, j);
      }
    }
  }

  lemma ScoredDistinct(gone: seq<set<string>>, added: seq<set<string>>, i: nat, j: nat)
    requires i <= |gone| && j <= |added|
    ensures forall c :: c in Scored(gone, added, i, j) ==> i < c.old_ || (i == c.old_ && j <= c.new_)
    ensures NoTwice(Scored(gone, added, i, j))
    decreases |gone| - i, |added| - j
  {
    if i < |gone| {
      if j == |added| {
        ScoredDistinct(gone, added, i + 1, 0);
      } else {
        ScoredDistinct(gone, added, i, j + 1);
        var rest := Scored(gone, added, i, j + 1);
        forall k | 0 <= k < |rest| ensures rest[k].old_ != i || rest[k].new_ != j {
          assert rest[k] in rest;
        }
      }
    }
  }

  lemma InsertDistinct(c: Cand, s: seq<Cand>)
    requires NoTwice(s) && forall x :: x in s ==> x.old_ != c.old_ || x.new_ != c.new_
    ensures NoTwice(Insert(c, s))
  {
    if s != [] && !Better(c, s[0]) {
      forall x | x in s[1..] ensures x.old_ != s[0].old_ || x.new_ != s[0].new_ {
        var m :| 0 <= m < |s[1..]| && s[1..][m] == x;
        assert s[m + 1] == x;
      }
      InsertDistinct(c, s[1..]);
      var r := Insert(c, s[1..]);
      forall k | 0 <= k < |r| ensures r[k].old_ != s[0].old_ || r[k].new_ != s[0].new_ {
        assert r[k] in r && s[0] in s;
      }
    } else if s != [] {
      forall k | 0 <= k < |s| ensures s[k].old_ != c.old_ || s[k].new_ != c.new_ {
        assert s[k] in s;
      }
    }
  }

  lemma SortDistinct(s: seq<Cand>)
    requires NoTwice(s)
    ensures NoTwice(Sort(s))
  {
    if s != [] {
      SortDistinct(s[1..]);
      forall x | x in Sort(s[1..]) ensures x.old_ != s[0].old_ || x.new_ != s[0].new_ {
        assert x in s[1..];
        var m :| 0 <= m < |s[1..]| && s[1..][m] == x;
        assert s[m + 1] == x;
      }
      InsertDistinct(s[0], Sort(s[1..]));
    }
  }

  lemma SortedWell(gone: seq<set<string>>, added: seq<set<string>>)
    ensures var all := Sort(Scored(gone, added, 0, 0)); Ranked(all) && Descending(all) && NoTwice(all)
  {
    ScoredDistinct(gone, added, 0, 0);
    SortRanked(Scored(gone, added, 0, 0));
    SortDistinct(Scored(gone, added, 0, 0));
  }

  /** The pairing is one to one; no pair chosen has another candidate of equal score for either of
      its instructions; and a candidate not chosen shares an instruction with another at least as
      good. */
  lemma {:induction false} RenamesPaired(gone: seq<set<string>>, added: seq<set<string>>, all: seq<Cand>,
      chosen: seq<Cand>)
    requires all == Sort(Scored(gone, added, 0, 0)) && chosen == PairOff(all, |all|).chosen
    ensures forall i, j :: 0 <= i < j < |chosen| ==>
              chosen[i].old_ != chosen[j].old_ && chosen[i].new_ != chosen[j].new_
    ensures forall c :: c in chosen ==> c in all && !Rival(all, c)
    ensures forall c :: c in all && c !in chosen ==> Outdone(all, c)
  {
    SortedWell(gone, added);
    forall i, j | 0 <= i < j < |chosen| ensures !SharesIx(chosen[i], chosen[j]) {
      ChosenApart(all, |all|, i, j);
    }
    forall c | c in chosen ensures c in all && !Rival(all, c) {
      ChosenSettled(all, |all|, c);
    }
    forall c | c in all && c !in chosen ensures Outdone(all, c) {
      var j :| 0 <= j < |all| && all[j] == c;
      PassedOutdone(all, |all|, j);
    }
  }

  /** Those the loop does not pass over: reached while both their instructions are unsettled. */
  function Reached(all: seq<Cand>, k: nat): set<Cand>
    requires k <= |all|
  {
    if k == 0 then {}
    else
      var s, c := PairOff(all, k - 1), all[k - 1];
      Reached(all, k - 1) + (if c.old_ in s.settled || c.new_ in s.taken then {} else {c})
  }

  lemma {:induction false} ReachedSettles(all: seq<Cand>, k: nat)
    requires k <= |all|
    ensures forall n :: n in PairOff(all, k).settled <==> exists c :: c in Reached(all, k) && c.old_ == n
    ensures forall n :: n in PairOff(all, k).taken <==> exists c :: c in Reached(all, k) && c.new_ == n
    ensures forall c :: c in Reached(all, k) ==> exists i :: 0 <= i < k && all[i] == c
    ensures forall c :: c in PairOff(all, k).chosen <==> c in Reached(all, k) && !Rival(all, c)
  {
    if k > 0 {
      ReachedSettles(all, k - 1);
      var s, c := PairOff(all, k - 1), all[k - 1];
      if !(c.old_ in s.settled || c.new_ in s.taken) {
        assert c in Reached(all, k);
        forall n | n in PairOff(all, k).settled
          ensures exists d :: d in Reached(all, k) && d.old_ == n
        {
          if n != c.old_ {
            var d :| d in Reached(all, k - 1) && d.old_ == n;
            assert d in Reached(all, k);
          }
        }
        forall n | n in PairOff(all, k).taken
          ensures exists d :: d in Reached(all, k) && d.new_ == n
        {
          if n != c.new_ {
            var d :| d in Reached(all, k - 1) && d.new_ == n;
            assert d in Reached(all, k);
          }
        }
      }
    }
  }

  /** A set of candidates no two of which share an instruction, every other one sharing an
      instruction with one of them that is ahead of it. */
  ghost predicate Settling(all: seq<Cand>, r: set<Cand>) {
    && (forall c :: c in r ==> c in all)
    && (forall c, d :: c in r && d in r && c != d ==> c.old_ != d.old_ && c.new_ != d.new_)
    && (forall c :: c in all && c !in r ==> Behind(r, c))
  }

  ghost predicate Behind(r: set<Cand>, c: Cand) {
    exists d :: d in r && (d.old_ == c.old_ || d.new_ == c.new_) && Ahead(d, c)
  }

  /** Another candidate of the same score has one of its instructions. */
  ghost predicate Tied(all: seq<Cand>, c: Cand) {
    exists d :: d in all && d != c && d.score == c.score && (d.old_ == c.old_ || d.new_ == c.new_)
  }

  lemma {:induction false} ReachedApart(all: seq<Cand>, k: nat, c: Cand, d: Cand)
    requires k <= |all| && c in Reached(all, k) && d in Reached(all, k) && c != d
    ensures c.old_ != d.old_ && c.new_ != d.new_
  {
    ReachedSettles(all, k - 1);
    if c in Reached(all, k - 1) && d in Reached(all, k - 1) { ReachedApart(all, k - 1, c, d); }
  }

  lemma {:induction false} ReachedGrows(all: seq<Cand>, j: nat, k: nat)
    requires j <= k <= |all|
    ensures Reached(all, j) <= Reached(all, k)
  {
    if j < k { ReachedGrows(all, j, k - 1); }
  }

  lemma PassedBehind(all: seq<Cand>, j: nat)
    requires j < |all| && Ranked(all)
    ensures all[j] in Reached(all, |all|) || Behind(Reached(all, |all|), all[j])
  {
    ReachedSettles(all, j);
    ReachedGrows(all, j, |all|);
    ReachedGrows(all, j + 1, |all|);
    var s, c := PairOff(all, j), all[j];
    if c.old_ in s.settled {
      var d :| d in Reached(all, j) && d.old_ == c.old_;
      assert d in Reached(all, |all|);
    } else if c.new_ in s.taken {
      var d :| d in Reached(all, j) && d.new_ == c.new_;
      assert d in Reached(all, |all|);
    }
  }

  /** A pair is chosen iff it is settled best first and nothing ties with it. */
  lemma ChosenExact(gone: seq<set<string>>, added: seq<set<string>>, all: seq<Cand>, chosen: seq<Cand>)
    requires all == Sort(Scored(gone, added, 0, 0)) && chosen == PairOff(all, |all|).chosen
    ensures exists r :: Settling(all, r) && forall c :: c in chosen <==> c in r && !Tied(all, c)
  {
    SortedWell(gone, added);
    var r := Reached(all, |all|);
    ReachedSettles(all, |all|);
    forall c, d | c in r && d in r && c != d ensures c.old_ != d.old_ && c.new_ != d.new_ {
      ReachedApart(all, |all|, c, d);
    }
    forall c | c in all && c !in r ensures Behind(r, c) {
      var j :| 0 <= j < |all| && all[j] == c;
      PassedBehind(all, j);
    }
    forall c | c in all ensures Tied(all, c) == Rival(all, c) {
      TiedRival(all, c);
    }
    assert Settling(all, r);
  }

  lemma TiedRival(all: seq<Cand>, c: Cand)
    requires c in all && NoTwice(all)
    ensures Tied(all, c) == Rival(all, c)
  {
    forall d | d in all && d != c ensures d.old_ != c.old_ || d.new_ != c.new_ {
      var i :| 0 <= i < |all| && all[i] == c;
      var j :| 0 <= j < |all| && all[j] == d;
    }
  }

  /** There is only one such set. */
  lemma SettlingUnique(all: seq<Cand>, k: nat, r: set<Cand>, q: set<Cand>)
    requires k <= |all| && Ranked(all) && Settling(all, r) && Settling(all, q)
    ensures forall j :: 0 <= j < k ==> (all[j] in r <==> all[j] in q)
  {
    if k > 0 {
      SettlingUnique(all, k - 1, r, q);
      var c := all[k - 1];
      assert c in all;
      if c in r { BehindNot(all, k, r, q); }
      if c in q { BehindNot(all, k, q, r); }
    }
  }

  lemma AheadFirst(all: seq<Cand>, i: nat, j: nat)
    requires i < |all| && j < |all| && Ranked(all) && Ahead(all[i], all[j])
    ensures i < j
  {
  }

  lemma AheadSettled(all: seq<Cand>, k: nat, r: set<Cand>, q: set<Cand>, d: Cand)
    requires 0 < k <= |all| && Ranked(all) && d in q && d in all && Ahead(d, all[k - 1])
    requires forall j :: 0 <= j < k - 1 ==> (all[j] in r <==> all[j] in q)
    ensures d in r
  {
    hide Ranked;
    var i :| 0 <= i < |all| && all[i] == d;
    AheadFirst(all, i, k - 1);
  }

  lemma BehindNot(all: seq<Cand>, k: nat, r: set<Cand>, q: set<Cand>)
    requires 0 < k <= |all| && Ranked(all) && Settling(all, r) && Settling(all, q)
    requires forall j :: 0 <= j < k - 1 ==> (all[j] in r <==> all[j] in q)
    requires all[k - 1] in r
    ensures all[k - 1] in q
  {
    hide Ranked;
    var c := all[k - 1];
    assert c in all;
    forall d | d in q && Ahead(d, c) ensures d in r {
      AheadSettled(all, k, r, q, d);
    }
  }

  /** The candidates are the pairs worth it, each once, with their scores. */
  lemma {:induction false} ScoredHas(gone: seq<set<string>>, added: seq<set<string>>, i: nat, j: nat, c: Cand)
    requires i <= |gone| && j <= |added|
    ensures c in Scored(gone, added, i, j) <==>
            && c.old_ < |gone| && c.new_ < |added| && (i < c.old_ || (i == c.old_ && j <= c.new_))
            && Worth(gone[c.old_], added[c.new_]) && c.score == Score(gone[c.old_], added[c.new_])
    decreases |gone| - i, |added| - j
  {
    hide Worth, Score;
    if i < |gone| {
      if j == |added| {
        ScoredHas(gone, added, i + 1, 0, c);
      } else {
        ScoredHas(gone, added, i, j + 1, c);
        var rest := Scored(gone, added, i, j + 1);
        var here := if Worth(gone[i], added[j]) then [Cand(Score(gone[i], added[j]), i, j)] else [];
        assert Scored(gone, added, i, j) == here + rest;
        assert c in here + rest <==> c in here || c in rest;
      }
    }
  }

  /** The score is the part of all slots that both have; worthwhile is a half, and something shared. */
  lemma ScoreExact(a: set<string>, b: set<string>)
    ensures a + b != {} ==> Score(a, b) * |a + b| as real == |a * b| as real
    ensures Worth(a, b) <==> a * b != {} && 2 * |a * b| >= |a + b|
  {
    if a + b == {} {
      assert a * b == {};
    } else {
      var n, m, score := |a + b|, |a * b|, Score(a, b);
      assert n > 0 && score * n as real == m as real;
      if score >= 0.5 { assert score * n as real >= 0.5 * n as real; }
      if score < 0.5 { assert score * n as real < 0.5 * n as real; }
      assert m == 0 <==> a * b == {};
    }
  }
}
