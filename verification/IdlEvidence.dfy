/** Which pairing of renamed slots the IDL differ takes, by the slots alone
    (crates/solinv-static/src/idl_diff.rs, `renames`): the evidence for a pair counted, the order it
    decides, and when a pairing is called a guess. */
module IdlEvidence {
  import opened Common
  import opened IdlSlots
  import opened IdlRenames
  import opened Matching

  /** `s` is in the composite of `x` and lists `x` as a relation. */
  predicate Lists(s: Slot, x: Slot) {
    PrefixOf(s.path) == PrefixOf(x.path) && LeafOf(x.path) in s.a.relations
  }

  /** The names of the slots that list `x` in base and `y` in head. */
  function Listers(b: seq<Slot>, h: seq<Slot>, x: Slot, y: Slot): set<string> {
    set i, j | 0 <= i < |b| && 0 <= j < |h| && Lists(b[i], x) && Lists(h[j], y)
      && LeafOf(b[i].path) == LeafOf(h[j].path) :: LeafOf(b[i].path)
  }

  /** The relations of `x` that `y` has too, by their places. */
  function Relations(x: Acct, y: Acct): set<nat> { set k | 0 <= k < |x.relations| && x.relations[k] in y.relations }

  /** The evidence for a pair: shared listers and shared relations, counted apart. */
  function Evidence(b: seq<Slot>, h: seq<Slot>, x: Slot, y: Slot): nat {
    |Listers(b, h, x, y)| + |Relations(x.a, y.a)|
  }

  predicate SameComposite(x: Slot, y: Slot) { PrefixOf(x.path) == PrefixOf(y.path) }

  /** What is known of two slots: the evidence, and whether they share their composite, both are
      derived from seeds or neither, and have one address. */
  datatype Case = Case(evidence: nat, composite: bool, seeded: bool, address: bool)

  function CaseOf(b: seq<Slot>, h: seq<Slot>, x: Slot, y: Slot): Case {
    Case(Evidence(b, h, x, y), SameComposite(x, y), x.a.pda.Some? == y.a.pda.Some?, x.a.address == y.a.address)
  }

  /** The pair `p` is taken before `q`: it has more evidence; with as much, it stays in its composite and
      `q` does not; then it agrees on seeds, then on the address, then stands first in base, then in
      head. */
  predicate Before(c: Case, p: Pair, d: Case, q: Pair) {
    || c.evidence > d.evidence
    || (c.evidence == d.evidence && c.composite && !d.composite)
    || (c.evidence == d.evidence && c.composite == d.composite && c.seeded && !d.seeded)
    || (c.evidence == d.evidence && c.composite == d.composite && c.seeded == d.seeded && c.address && !d.address)
    || (c == d && p.b < q.b)
    || (c == d && p.b == q.b && p.h < q.h)
  }

  /** The two may be one slot renamed: both sign or neither, both are written or neither. */
  predicate MayPair(gone: seq<Slot>, free: seq<Slot>, p: Pair) {
    && p.b < |gone| && p.h < |free|
    && gone[p.b].a.signer == free[p.h].a.signer && gone[p.b].a.writable == free[p.h].a.writable
  }

  predicate Shares(p: Pair, q: Pair) { p.b == q.b || p.h == q.h }

  /** `q` may be paired, has a slot of `p`, and is taken before it. */
  predicate Outdoes(b: seq<Slot>, h: seq<Slot>, gone: seq<Slot>, free: seq<Slot>, q: Pair, p: Pair)
    requires MayPair(gone, free, p)
  {
    && MayPair(gone, free, q) && Shares(p, q)
    && Before(CaseOf(b, h, gone[q.b], free[q.h]), q, CaseOf(b, h, gone[p.b], free[p.h]), p)
  }

  /** Each slot is paired once, each pair may be, and a pair left out loses a slot of its own to a pair
      taken before it. */
  ghost predicate TakesBest(b: seq<Slot>, h: seq<Slot>, gone: seq<Slot>, free: seq<Slot>, m: set<Pair>) {
    && (forall p, q :: p in m && q in m && Shares(p, q) ==> p == q)
    && (forall p :: p in m ==> MayPair(gone, free, p))
    && (forall p :: MayPair(gone, free, p) && p !in m ==> exists q :: q in m && Outdoes(b, h, gone, free, q, p))
  }

  // ------------------------------------------------------------- the proof

  lemma {:induction false} OneMoreRelation(a: seq<string>, x: string, b: seq<string>)
    ensures SharedRelations(a + [x], b) == SharedRelations(a, b) + if x in b then 1 else 0
  {
    if a == [] {
      assert [x][1..] == [] && a + [x] == [x];
    } else {
      assert (a + [x])[1..] == a[1..] + [x];
      OneMoreRelation(a[1..], x, b);
    }
  }

  lemma {:induction false} RelationsCounted(x: Acct, y: Acct)
    ensures SharedRelations(x.relations, y.relations) == |Relations(x, y)|
    decreases |x.relations|
  {
    var rels := x.relations;
    if rels != [] {
      var last := |rels| - 1;
      var init := x.(relations := rels[..last]);
      RelationsCounted(init, y);
      OneMoreRelation(rels[..last], rels[last], y.relations);
      assert rels == rels[..last] + [rels[last]];
      hide SharedRelations;
      assert Relations(x, y) == Relations(init, y) + if rels[last] in y.relations then {last} else {};
    }
  }

  lemma {:induction false} EvidenceIsShared(b: seq<Slot>, h: seq<Slot>, x: Slot, y: Slot)
    ensures Shared(b, h, x, y) == Evidence(b, h, x, y)
  {
    var inB, inH := ListedBy(b, LeafOf(x.path), PrefixOf(x.path)), ListedBy(h, LeafOf(y.path), PrefixOf(y.path));
    hide PrefixOf, LeafOf;
    assert inB * inH == Listers(b, h, x, y);
    RelationsCounted(x.a, y.a);
  }

  lemma {:induction false} CandCase(b: seq<Slot>, h: seq<Slot>, gone: seq<Slot>, free: seq<Slot>, p: Pair)
    requires p.b < |gone| && p.h < |free|
    ensures var c := CaseOf(b, h, gone[p.b], free[p.h]);
            CandOf(b, h, gone, free, p.b, p.h) == Cand(c.evidence, c.composite, c.seeded, c.address, p)
  {
    EvidenceIsShared(b, h, gone[p.b], free[p.h]);
    hide PrefixOf, Shared, Evidence;
  }

  lemma {:induction false} BetterIsBefore(b: seq<Slot>, h: seq<Slot>, gone: seq<Slot>, free: seq<Slot>, p: Pair,
      q: Pair)
    requires p.b < |gone| && p.h < |free| && q.b < |gone| && q.h < |free|
    ensures Better(CandOf(b, h, gone, free, p.b, p.h), CandOf(b, h, gone, free, q.b, q.h)) <==>
              Before(CaseOf(b, h, gone[p.b], free[p.h]), p, CaseOf(b, h, gone[q.b], free[q.h]), q)
  {
    CandCase(b, h, gone, free, p);
    CandCase(b, h, gone, free, q);
    hide CandOf, CaseOf;
  }

  /** The candidates are the pairs that may be. */
  ghost predicate AllCands(b: seq<Slot>, h: seq<Slot>, gone: seq<Slot>, free: seq<Slot>, cands: seq<Cand>) {
    && (forall c :: c in cands ==> MayPair(gone, free, c.p) && c == CandOf(b, h, gone, free, c.p.b, c.p.h))
    && (forall p :: MayPair(gone, free, p) ==> CandOf(b, h, gone, free, p.b, p.h) in cands)
  }

  lemma {:induction false} CandidatesMayPair(b: seq<Slot>, h: seq<Slot>)
    ensures AllCands(b, h, Only(b, h), Only(h, b), Candidates(b, h))
  {
    RowsHave(b, h, Only(b, h), Only(h, b), 0);
    hide Only, Rows, CandOf;
  }

  lemma {:induction false} BestIsUnblocked(b: seq<Slot>, h: seq<Slot>, gone: seq<Slot>, free: seq<Slot>,
      cands: seq<Cand>, m: set<Pair>)
    requires AllCands(b, h, gone, free, cands) && TakesBest(b, h, gone, free, m)
    ensures NoBlockingPair(cands, m)
  {
    hide CandOf, Better, Before, CaseOf;
    forall p | p in m ensures InC(cands, p) {
      CandPlaceOf(b, h, gone, free, p);
      assert CandOf(b, h, gone, free, p.b, p.h) in cands;
    }
    forall c | c in cands && c.p !in m
      ensures exists d :: d in cands && d.p in m && Conflict(c.p, d.p) && Better(d, c)
    {
      var q :| q in m && Outdoes(b, h, gone, free, q, c.p);
      BetterIsBefore(b, h, gone, free, q, c.p);
      CandPlaceOf(b, h, gone, free, q);
      assert CandOf(b, h, gone, free, q.b, q.h) in cands;
    }
  }

  lemma CandPlaceOf(b: seq<Slot>, h: seq<Slot>, gone: seq<Slot>, free: seq<Slot>, p: Pair)
    requires MayPair(gone, free, p)
    ensures CandOf(b, h, gone, free, p.b, p.h).p == p
  {
    CandPlace(b, h, gone, free, p.b, p.h);
  }

  lemma {:induction false} UnblockedIsBest(b: seq<Slot>, h: seq<Slot>, gone: seq<Slot>, free: seq<Slot>,
      cands: seq<Cand>, m: set<Pair>)
    requires AllCands(b, h, gone, free, cands) && NoBlockingPair(cands, m)
    ensures TakesBest(b, h, gone, free, m)
  {
    hide CandOf, Better, Before, CaseOf;
    forall p | p in m ensures MayPair(gone, free, p) {
      assert InC(cands, p);
    }
    forall p, q | p in m && q in m && Shares(p, q) ensures p == q {
      assert !Conflict(p, q);
    }
    forall p | MayPair(gone, free, p) && p !in m ensures exists q :: q in m && Outdoes(b, h, gone, free, q, p) {
      var c := CandOf(b, h, gone, free, p.b, p.h);
      CandPlaceOf(b, h, gone, free, p);
      var d :| d in cands && d.p in m && Conflict(c.p, d.p) && Better(d, c);
      BetterIsBefore(b, h, gone, free, d.p, p);
      assert Outdoes(b, h, gone, free, d.p, p);
    }
  }

  /** The pairs `renames` takes are the only ones of which each left out loses a slot to one with more
      evidence, or as much and earlier in the order. */
  lemma {:induction false} TakenExact(b: seq<Slot>, h: seq<Slot>, m: set<Pair>)
    ensures m == Elements(Taken(b, h)) <==> TakesBest(b, h, Only(b, h), Only(h, b), m)
  {
    TakenIsStable(b, h, m);
    CandidatesMayPair(b, h);
    hide *;
    if m == Elements(Taken(b, h)) { UnblockedIsBest(b, h, Only(b, h), Only(h, b), Candidates(b, h), m); }
    if TakesBest(b, h, Only(b, h), Only(h, b), m) {
      BestIsUnblocked(b, h, Only(b, h), Only(h, b), Candidates(b, h), m);
    }
  }

  /** Each a place later. */
  function Later(at: seq<nat>): (r: seq<nat>)
    ensures |r| == |at| && forall i :: 0 <= i < |at| ==> r[i] == at[i] + 1
  {
    seq(|at|, i requires 0 <= i < |at| => at[i] + 1)
  }

  ghost predicate Places(slots: seq<Slot>, others: seq<Slot>, only: seq<Slot>, at: seq<nat>) {
    && |at| == |only|
    && (forall i :: 0 <= i < |at| ==> at[i] < |slots| && slots[at[i]] == only[i])
    && (forall i, j :: 0 <= i < j < |at| ==> at[i] < at[j])
    && (forall k: nat :: k < |slots| && !HasPath(others, slots[k].path) ==> k in at)
  }

  lemma {:induction false} PlacesSkip(slots: seq<Slot>, others: seq<Slot>, only: seq<Slot>, at: seq<nat>)
    requires slots != [] && Places(slots[1..], others, only, at) && HasPath(others, slots[0].path)
    ensures Places(slots, others, only, Later(at))
  {
    hide HasPath, Later;
    forall k: nat | k < |slots| && !HasPath(others, slots[k].path) ensures k in Later(at) {
      PlaceLater(slots, others, only, at, k);
    }
  }

  lemma {:induction false} PlaceLater(slots: seq<Slot>, others: seq<Slot>, only: seq<Slot>, at: seq<nat>, k: nat)
    requires slots != [] && Places(slots[1..], others, only, at)
    requires 0 < k < |slots| && !HasPath(others, slots[k].path)
    ensures k in Later(at)
  {
    hide HasPath, Later;
    assert slots[1..][k - 1] == slots[k];
    var i :| 0 <= i < |at| && at[i] == k - 1;
    assert Later(at)[i] == k;
  }

  lemma {:induction false} PlacesKeep(slots: seq<Slot>, others: seq<Slot>, only: seq<Slot>, at: seq<nat>)
    requires slots != [] && Places(slots[1..], others, only, at)
    ensures Places(slots, others, [slots[0]] + only, [0] + Later(at))
  {
    hide HasPath, Later;
    var all := [0] + Later(at);
    assert forall i :: 0 < i < |all| ==> all[i] == at[i - 1] + 1;
    forall k: nat | k < |slots| && !HasPath(others, slots[k].path) ensures k in all {
      if k > 0 {
        PlaceLater(slots, others, only, at, k);
      } else {
        assert all[0] == 0;
      }
    }
  }

  /** The slots only one version has keep its order. */
  lemma {:induction false} OnlyPlaces(slots: seq<Slot>, others: seq<Slot>) returns (at: seq<nat>)
    ensures Places(slots, others, Only(slots, others), at)
  {
    hide HasPath, Places;
    if slots == [] {
      at := [];
      assert Places([], others, [], []) by { NoPlaces(others); }
    } else {
      var rest := OnlyPlaces(slots[1..], others);
      var only := Only(slots[1..], others);
      assert [] + only == only;
      if HasPath(others, slots[0].path) {
        PlacesSkip(slots, others, only, rest);
        at := Later(rest);
      } else {
        PlacesKeep(slots, others, only, rest);
        at := [0] + Later(rest);
      }
    }
  }

  lemma NoPlaces(others: seq<Slot>)
    ensures Places([], others, [], [])
  {
  }

  // --------------------------------------------------------------- guesses

  /** `s` left the composite of `x`, and checks more than a fixed address. */
  predicate Leaver(s: Slot, x: Slot) {
    SameComposite(s, x) && (s.a.address.None? || s.a.signer || s.a.pda.Some? || s.a.relations != [])
  }

  /** One slot, and one only, satisfies `p`. */
  ghost predicate Alone(s: seq<Slot>, p: Slot -> bool) {
    exists i :: 0 <= i < |s| && p(s[i]) && forall j :: 0 <= j < |s| && j != i ==> !p(s[j])
  }

  function LeaverOf(x: Slot): Slot -> bool { s => Leaver(s, x) }

  function ComerOf(y: Slot): Slot -> bool { s => SameComposite(s, y) }

  /** A seed of `s` reads the slot `x` beside it. */
  predicate Reads(s: Slot, x: Slot) {
    SameComposite(s, x) && s.a.pda.Some? &&
      exists seed :: seed in s.a.pda.value.seeds && seed.Account? && FirstSegment(seed.path) == LeafOf(x.path)
  }

  /** Something is checked of `x` itself: by its own flags, or by the seeds of a slot beside it. */
  predicate IsChecked(b: seq<Slot>, x: Slot) {
    x.a.signer || x.a.pda.Some? || x.a.address.Some? || x.a.relations != [] || exists s :: s in b && Reads(s, x)
  }

  /** Plainly one slot renamed: one slot left its composite and one came to the other's, and there is
      evidence or nothing of it was checked. */
  ghost predicate IsPlain(b: seq<Slot>, h: seq<Slot>, gone: seq<Slot>, free: seq<Slot>, p: Pair)
    requires p.b < |gone| && p.h < |free|
  {
    var x, y := gone[p.b], free[p.h];
    Alone(gone, LeaverOf(x)) && Alone(free, ComerOf(y)) && (Evidence(b, h, x, y) > 0 || !IsChecked(b, x))
  }

  ghost predicate None(s: seq<Slot>, p: Slot -> bool) { forall i :: 0 <= i < |s| ==> !p(s[i]) }

  lemma {:induction false} NoneFirst(s: seq<Slot>, p: Slot -> bool)
    requires s != []
    ensures None(s, p) <==> !p(s[0]) && None(s[1..], p)
  {
    if !p(s[0]) && None(s[1..], p) {
      forall i | 0 <= i < |s| ensures !p(s[i]) {
        if i > 0 { assert s[1..][i - 1] == s[i]; }
      }
    }
  }

  lemma {:induction false} AloneFirst(s: seq<Slot>, p: Slot -> bool)
    requires s != [] && if p(s[0]) then None(s[1..], p) else Alone(s[1..], p)
    ensures Alone(s, p)
  {
    var rest := s[1..];
    forall j | 0 < j < |s| ensures s[j] == rest[j - 1] {
    }
    if p(s[0]) {
      assert forall j :: 0 <= j < |s| && j != 0 ==> !p(s[j]);
    } else {
      var i :| 0 <= i < |rest| && p(rest[i]) && forall j :: 0 <= j < |rest| && j != i ==> !p(rest[j]);
      assert p(s[i + 1]);
      assert forall j :: 0 <= j < |s| && j != i + 1 ==> !p(s[j]);
    }
  }

  lemma {:induction false} AloneRest(s: seq<Slot>, p: Slot -> bool)
    requires s != [] && Alone(s, p)
    ensures if p(s[0]) then None(s[1..], p) else Alone(s[1..], p)
  {
    var rest := s[1..];
    var i :| 0 <= i < |s| && p(s[i]) && forall j :: 0 <= j < |s| && j != i ==> !p(s[j]);
    forall j | 0 <= j < |rest| ensures rest[j] == s[j + 1] {
    }
    if i > 0 {
      assert p(rest[i - 1]);
      assert forall j :: 0 <= j < |rest| && j != i - 1 ==> !p(rest[j]);
    }
  }

  lemma {:induction false} LeaversCounted(gone: seq<Slot>, x: Slot)
    ensures CountGone(gone, PrefixOf(x.path)) == 0 <==> None(gone, LeaverOf(x))
    ensures CountGone(gone, PrefixOf(x.path)) == 1 <==> Alone(gone, LeaverOf(x))
  {
    if gone != [] {
      assert LeaverOf(x)(gone[0]) <==> PrefixOf(gone[0].path) == PrefixOf(x.path) && Candidate(gone[0].a);
      hide PrefixOf, LeaverOf, Alone, None, Candidate;
      var p := LeaverOf(x);
      LeaversCounted(gone[1..], x);
      NoneFirst(gone, p);
      if Alone(gone, p) { AloneRest(gone, p); }
      if if p(gone[0]) then None(gone[1..], p) else Alone(gone[1..], p) { AloneFirst(gone, p); }
    }
  }

  lemma {:induction false} ComersCounted(free: seq<Slot>, y: Slot)
    ensures CountFree(free, PrefixOf(y.path)) == 0 <==> None(free, ComerOf(y))
    ensures CountFree(free, PrefixOf(y.path)) == 1 <==> Alone(free, ComerOf(y))
  {
    if free != [] {
      assert ComerOf(y)(free[0]) <==> PrefixOf(free[0].path) == PrefixOf(y.path);
      hide PrefixOf, ComerOf, Alone, None;
      var p := ComerOf(y);
      ComersCounted(free[1..], y);
      NoneFirst(free, p);
      if Alone(free, p) { AloneRest(free, p); }
      if if p(free[0]) then None(free[1..], p) else Alone(free[1..], p) { AloneFirst(free, p); }
    }
  }

  lemma {:induction false} ReadsExact(b: seq<Slot>, x: Slot)
    ensures NamedBySeeds(b, x.path) <==> exists s :: s in b && Reads(s, x)
  {
    hide PrefixOf, LeafOf, FirstSegment;
    if s :| s in b && Reads(s, x) {
      var seed :| seed in s.a.pda.value.seeds && seed.Account? && FirstSegment(seed.path) == LeafOf(x.path);
      var i :| 0 <= i < |b| && b[i] == s;
      var k :| 0 <= k < |s.a.pda.value.seeds| && s.a.pda.value.seeds[k] == seed;
    }
    if NamedBySeeds(b, x.path) {
      var i, k :| 0 <= i < |b| && PrefixOf(b[i].path) == PrefixOf(x.path) && b[i].a.pda.Some?
        && 0 <= k < |b[i].a.pda.value.seeds| && b[i].a.pda.value.seeds[k].Account?
        && FirstSegment(b[i].a.pda.value.seeds[k].path) == LeafOf(x.path);
      assert b[i] in b && b[i].a.pda.value.seeds[k] in b[i].a.pda.value.seeds;
    }
  }

  lemma {:induction false} PlainExact(b: seq<Slot>, h: seq<Slot>, gone: seq<Slot>, free: seq<Slot>, p: Pair)
    requires p.b < |gone| && p.h < |free|
    ensures IsGuess(b, h, gone, free, p) <==> !IsPlain(b, h, gone, free, p)
  {
    var x, y := gone[p.b], free[p.h];
    EvidenceIsShared(b, h, x, y);
    LeaversCounted(gone, x);
    ComersCounted(free, y);
    ReadsExact(b, x);
    hide PrefixOf, Shared, Evidence, NamedBySeeds, CountGone, CountFree, Alone, LeaverOf, ComerOf, Reads;
  }

  lemma {:induction false} GuessesHave(b: seq<Slot>, h: seq<Slot>, gone: seq<Slot>, free: seq<Slot>, pairs: seq<Pair>,
      g: (string, string))
    requires InRange(pairs, gone, free)
    ensures g in GuessesOf(b, h, gone, free, pairs) <==>
              exists i :: 0 <= i < |pairs| && IsGuess(b, h, gone, free, pairs[i])
                && g == (gone[pairs[i].b].path, free[pairs[i].h].path)
  {
    hide IsGuess;
    if pairs != [] {
      var init := pairs[..|pairs| - 1];
      GuessesHave(b, h, gone, free, init, g);
      assert forall i :: 0 <= i < |init| ==> init[i] == pairs[i];
    }
  }

  /** `p` is taken, of slots at these paths. */
  predicate TakenAt(gone: seq<Slot>, free: seq<Slot>, taken: seq<Pair>, p: Pair, x: string, y: string) {
    p in taken && p.b < |gone| && p.h < |free| && x == gone[p.b].path && y == free[p.h].path
  }

  /** A pair that is not plainly a rename is taken, of slots at these paths. */
  ghost predicate GuessTaken(b: seq<Slot>, h: seq<Slot>, gone: seq<Slot>, free: seq<Slot>, taken: seq<Pair>, x: string,
      y: string) {
    exists p :: TakenAt(gone, free, taken, p, x, y) && !IsPlain(b, h, gone, free, p)
  }

  /** A pairing is reported as a guess exactly when it is taken and not plainly a rename. */
  lemma {:induction false} GuessedExact(b: seq<Slot>, h: seq<Slot>, x: string, y: string)
    ensures (x, y) in RenamesOf(b, h).guessed <==> GuessTaken(b, h, Only(b, h), Only(h, b), Taken(b, h), x, y)
  {
    hide *;
    GuessesAre(b, h);
    GuessesPlain(b, h, Only(b, h), Only(h, b), Taken(b, h), x, y);
  }

  lemma GuessesAre(b: seq<Slot>, h: seq<Slot>)
    ensures InRange(Taken(b, h), Only(b, h), Only(h, b))
    ensures RenamesOf(b, h).guessed == GuessesOf(b, h, Only(b, h), Only(h, b), Taken(b, h))
    ensures RenamesOf(b, h).paths == PathsOf(Only(b, h), Only(h, b), Taken(b, h))
  {
    TakenInRange(b, h);
    hide Taken, Only, InRange;
  }

  lemma {:induction false} GuessesPlain(b: seq<Slot>, h: seq<Slot>, gone: seq<Slot>, free: seq<Slot>, t: seq<Pair>,
      x: string, y: string)
    requires InRange(t, gone, free)
    ensures (x, y) in GuessesOf(b, h, gone, free, t) <==> GuessTaken(b, h, gone, free, t, x, y)
  {
    GuessesHave(b, h, gone, free, t, (x, y));
    hide IsGuess, IsPlain, GuessesOf;
    if (x, y) in GuessesOf(b, h, gone, free, t) {
      var i :| 0 <= i < |t| && IsGuess(b, h, gone, free, t[i]) && (x, y) == (gone[t[i].b].path, free[t[i].h].path);
      PlainExact(b, h, gone, free, t[i]);
      assert TakenAt(gone, free, t, t[i], x, y);
    }
    if GuessTaken(b, h, gone, free, t, x, y) {
      var p :| TakenAt(gone, free, t, p, x, y) && !IsPlain(b, h, gone, free, p);
      var i :| 0 <= i < |t| && t[i] == p;
      PlainExact(b, h, gone, free, t[i]);
    }
  }

  lemma {:induction false} PathsHave(gone: seq<Slot>, free: seq<Slot>, pairs: seq<Pair>)
    requires InRange(pairs, gone, free)
    ensures forall x :: x in PathsOf(gone, free, pairs) ==>
              exists p :: TakenAt(gone, free, pairs, p, x, PathsOf(gone, free, pairs)[x])
    ensures forall p :: p in pairs ==> p.b < |gone| && gone[p.b].path in PathsOf(gone, free, pairs)
  {
    if pairs != [] {
      var init, last := pairs[..|pairs| - 1], pairs[|pairs| - 1];
      PathsHave(gone, free, init);
      assert pairs == init + [last];
      var all := PathsOf(gone, free, pairs);
      forall x | x in all ensures exists p :: TakenAt(gone, free, pairs, p, x, all[x]) {
        if x == gone[last.b].path {
          assert TakenAt(gone, free, pairs, last, x, all[x]);
        } else {
          var p :| TakenAt(gone, free, init, p, x, PathsOf(gone, free, init)[x]);
          assert TakenAt(gone, free, pairs, p, x, all[x]);
        }
      }
    }
  }

  /** A base path is said to be another in head exactly when a pair taken says so. */
  lemma {:induction false} PathsExact(b: seq<Slot>, h: seq<Slot>, x: string, y: string)
    requires UniquePaths(b)
    ensures x in RenamesOf(b, h).paths && RenamesOf(b, h).paths[x] == y <==>
              exists p :: TakenAt(Only(b, h), Only(h, b), Taken(b, h), p, x, y)
  {
    var gone, free, t := Only(b, h), Only(h, b), Taken(b, h);
    hide Taken, Only, InRange, Agree, TakenAt;
    GuessesAre(b, h);
    TakenPairs(b, h);
    var at := OnlyPlaces(b, h);
    OnePath(gone, free, t, b, at, x, y);
  }

  lemma {:induction false} OnePath(gone: seq<Slot>, free: seq<Slot>, t: seq<Pair>, b: seq<Slot>, at: seq<nat>,
      x: string, y: string)
    requires InRange(t, gone, free) && OneToOne(Elements(t)) && UniquePaths(b)
    requires |at| == |gone| && forall i, j :: 0 <= i < j < |at| ==> at[i] < at[j]
    requires forall i :: 0 <= i < |at| ==> at[i] < |b| && b[at[i]] == gone[i]
    ensures x in PathsOf(gone, free, t) && PathsOf(gone, free, t)[x] == y <==>
              exists p :: TakenAt(gone, free, t, p, x, y)
  {
    PathsHave(gone, free, t);
    forall p | TakenAt(gone, free, t, p, x, y) ensures PathsOf(gone, free, t)[x] == y {
      var q :| TakenAt(gone, free, t, q, x, PathsOf(gone, free, t)[x]);
      assert b[at[p.b]].path == b[at[q.b]].path;
      assert at[p.b] == at[q.b];
      assert p.b == q.b;
      assert p in Elements(t) && q in Elements(t) && !Conflict(p, q);
    }
  }
}
