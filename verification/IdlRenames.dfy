/** Pairing the slots only the base IDL has with the slots only the head IDL has
    (crates/solinv-static/src/idl_diff.rs, `renames`). */
module IdlRenames {
  import opened Common
  import opened IdlSlots
  import opened Matching

  predicate HasPath(slots: seq<Slot>, path: string) { exists i :: 0 <= i < |slots| && slots[i].path == path }

  /** The slots of `slots` whose path `others` does not have. */
  function Only(slots: seq<Slot>, others: seq<Slot>): (r: seq<Slot>)
    ensures forall s :: s in r <==> s in slots && !HasPath(others, s.path)
  {
    if slots == [] then []
    else (if HasPath(others, slots[0].path) then [] else [slots[0]]) + Only(slots[1..], others)
  }

  /** The leaf names of the slots of the composite `prefix` that list `name` as a relation. */
  function ListedBy(slots: seq<Slot>, name: string, prefix: string): set<string> {
    set i | 0 <= i < |slots| && PrefixOf(slots[i].path) == prefix && name in slots[i].a.relations ::
        LeafOf(slots[i].path)
  }

  function SharedRelations(a: seq<string>, b: seq<string>): nat {
    if a == [] then 0 else (if a[0] in b then 1 else 0) + SharedRelations(a[1..], b)
  }

  /** A candidate pair and what speaks for it, the strongest evidence first. */
  datatype Cand = Cand(shared: nat, composite: bool, pdas: bool, addresses: bool, p: Pair)

  predicate Agree(x: Acct, y: Acct) { x.signer == y.signer && x.writable == y.writable }

  function Shared(b: seq<Slot>, h: seq<Slot>, x: Slot, y: Slot): nat {
    |ListedBy(b, LeafOf(x.path), PrefixOf(x.path)) * ListedBy(h, LeafOf(y.path), PrefixOf(y.path))|
    + SharedRelations(x.a.relations, y.a.relations)
  }

  function CandOf(b: seq<Slot>, h: seq<Slot>, gone: seq<Slot>, free: seq<Slot>, bi: nat, hi: nat): Cand
    requires bi < |gone| && hi < |free|
  {
    var x, y := gone[bi], free[hi];
    Cand(Shared(b, h, x, y), PrefixOf(y.path) == PrefixOf(x.path), y.a.pda.Some? == x.a.pda.Some?,
         y.a.address == x.a.address, Pair(bi, hi))
  }

  /** The order of the sort: best first, ties by base then head index. */
  predicate Better(x: Cand, y: Cand) {
    if x.shared != y.shared then x.shared > y.shared
    else if x.composite != y.composite then x.composite
    else if x.pdas != y.pdas then x.pdas
    else if x.addresses != y.addresses then x.addresses
    else if x.p.b != y.p.b then x.p.b < y.p.b
    else x.p.h < y.p.h
  }

  predicate Sorted(s: seq<Cand>) { forall i, j :: 0 <= i < j < |s| ==> Better(s[i], s[j]) }

  predicate Distinct(s: seq<Cand>) { forall i, j :: 0 <= i < j < |s| ==> s[i].p != s[j].p }

  function Insert(c: Cand, s: seq<Cand>): (r: seq<Cand>)
    ensures |r| == |s| + 1
    ensures forall x :: x in r <==> x == c || x in s
  {
    if s == [] then [c] else if Better(c, s[0]) then [c] + s else [s[0]] + Insert(c, s[1..])
  }

  /** `sort_by`: the order is total on distinct pairs, so any sort gives this list. */
  function Sort(s: seq<Cand>): (r: seq<Cand>)
    ensures |r| == |s|
    ensures forall x :: x in r <==> x in s
  {
    if s == [] then [] else Insert(s[0], Sort(s[1..]))
  }

  lemma InsertSorted(c: Cand, s: seq<Cand>)
    requires Sorted(s) && forall x :: x in s ==> x.p != c.p
    ensures Sorted(Insert(c, s))
  {
    if s != [] && !Better(c, s[0]) {
      InsertSorted(c, s[1..]);
      forall x | x in s[1..] ensures Better(s[0], x) {
        var i :| 0 <= i < |s[1..]| && s[1..][i] == x;
        assert s[i + 1] == x;
      }
      assert Better(s[0], c) by { assert s[0] in s; }
    }
  }

  lemma SortSorted(s: seq<Cand>)
    requires Distinct(s)
    ensures Sorted(Sort(s))
  {
    if s != [] {
      SortSorted(s[1..]);
      forall x | x in s[1..] ensures x.p != s[0].p {
        var i :| 0 <= i < |s[1..]| && s[1..][i] == x;
        assert s[i + 1] == x;
      }
      InsertSorted(s[0], Sort(s[1..]));
    }
  }

  // -------------------------------------------------------- the candidates

  function Row(b: seq<Slot>, h: seq<Slot>, gone: seq<Slot>, free: seq<Slot>, bi: nat, hi: nat): seq<Cand>
    requires bi < |gone| && hi <= |free|
    decreases |free| - hi
  {
    if hi == |free| then []
    else
      (if Agree(gone[bi].a, free[hi].a) then [CandOf(b, h, gone, free, bi, hi)] else [])
      + Row(b, h, gone, free, bi, hi + 1)
  }

  function Rows(b: seq<Slot>, h: seq<Slot>, gone: seq<Slot>, free: seq<Slot>, bi: nat): seq<Cand>
    requires bi <= |gone|
    decreases |gone| - bi
  {
    if bi == |gone| then [] else Row(b, h, gone, free, bi, 0) + Rows(b, h, gone, free, bi + 1)
  }

  function Candidates(b: seq<Slot>, h: seq<Slot>): seq<Cand> {
    Rows(b, h, Only(b, h), Only(h, b), 0)
  }

  lemma CandPlace(b: seq<Slot>, h: seq<Slot>, gone: seq<Slot>, free: seq<Slot>, bi: nat, hi: nat)
    requires bi < |gone| && hi < |free|
    ensures CandOf(b, h, gone, free, bi, hi).p == Pair(bi, hi)
  {
  }

  lemma {:induction false} RowHas(b: seq<Slot>, h: seq<Slot>, gone: seq<Slot>, free: seq<Slot>, bi: nat, hi: nat)
    requires bi < |gone| && hi <= |free|
    ensures forall c :: c in Row(b, h, gone, free, bi, hi) ==>
              c.p.b == bi && hi <= c.p.h < |free| && Agree(gone[bi].a, free[c.p.h].a) &&
                  c == CandOf(b, h, gone, free, bi, c.p.h)
    ensures forall k :: hi <= k < |free| && Agree(gone[bi].a, free[k].a) ==>
        CandOf(b, h, gone, free, bi, k) in Row(b, h, gone, free, bi, hi)
    decreases |free| - hi
  {
    hide Agree, CandOf;
    if hi < |free| {
      RowHas(b, h, gone, free, bi, hi + 1);
      CandPlace(b, h, gone, free, bi, hi);
    }
  }

  lemma RowDistinct(b: seq<Slot>, h: seq<Slot>, gone: seq<Slot>, free: seq<Slot>, bi: nat, hi: nat)
    requires bi < |gone| && hi <= |free|
    ensures Distinct(Row(b, h, gone, free, bi, hi))
    decreases |free| - hi
  {
    if hi < |free| {
      RowDistinct(b, h, gone, free, bi, hi + 1);
      RowHas(b, h, gone, free, bi, hi + 1);
      var rest := Row(b, h, gone, free, bi, hi + 1);
      forall i | 0 <= i < |rest| ensures rest[i].p.h > hi {
        assert rest[i] in rest;
      }
    }
  }

  /** The candidates are exactly the pairs that agree on signer and writable, once each. */
  lemma RowsHave(b: seq<Slot>, h: seq<Slot>, gone: seq<Slot>, free: seq<Slot>, bi: nat)
    requires bi <= |gone|
    ensures forall c :: c in Rows(b, h, gone, free, bi) ==>
              bi <= c.p.b < |gone| && c.p.h < |free| && Agree(gone[c.p.b].a, free[c.p.h].a) &&
                  c == CandOf(b, h, gone, free, c.p.b, c.p.h)
    ensures forall j, k :: bi <= j < |gone| && 0 <= k < |free| && Agree(gone[j].a, free[k].a) ==>
        CandOf(b, h, gone, free, j, k) in Rows(b, h, gone, free, bi)
    ensures Distinct(Rows(b, h, gone, free, bi))
    decreases |gone| - bi
  {
    if bi < |gone| {
      RowHas(b, h, gone, free, bi, 0);
      RowDistinct(b, h, gone, free, bi, 0);
      RowsHave(b, h, gone, free, bi + 1);
      var row, rest := Row(b, h, gone, free, bi, 0), Rows(b, h, gone, free, bi + 1);
      var all: seq<Cand> := row + rest;
      forall i, j | 0 <= i < j < |all| ensures all[i].p != all[j].p {
        if i < |row| && j >= |row| {
          assert all[i] in row && all[j] in rest;
        }
      }
    }
  }

  function PairsOf(s: seq<Cand>): (r: seq<Pair>)
    ensures |r| == |s| && forall i :: 0 <= i < |s| ==> r[i] == s[i].p
  {
    seq(|s|, i requires 0 <= i < |s| => s[i].p)
  }

  /** The pairs taken, in the order they are taken. */
  function Taken(b: seq<Slot>, h: seq<Slot>): seq<Pair> {
    Greedy(PairsOf(Sort(Candidates(b, h))), {}, {})
  }

  // ------------------------------------------------------- what is paired

  ghost predicate InC(cands: seq<Cand>, p: Pair) { exists c :: c in cands && c.p == p }

  /** No candidate left out is better than every pair it conflicts with. */
  ghost predicate NoBlockingPair(cands: seq<Cand>, m: set<Pair>) {
    && OneToOne(m)
    && (forall x :: x in m ==> InC(cands, x))
    && (forall c :: c in cands && c.p !in m ==>
          exists d :: d in cands && d.p in m && Conflict(c.p, d.p) && Better(d, c))
  }

  lemma {:induction false} SortedPairs(cands: seq<Cand>, x: Pair)
    ensures InC(cands, x) <==> x in PairsOf(Sort(cands))
  {
    var s := Sort(cands);
    if InC(cands, x) {
      var c :| c in cands && c.p == x;
      var i :| 0 <= i < |s| && s[i] == c;
      assert PairsOf(s)[i] == x;
    }
    if x in PairsOf(s) {
      var i :| 0 <= i < |s| && PairsOf(s)[i] == x;
      assert s[i] in s && s[i] in cands;
    }
  }

  lemma SortedBefore(s: seq<Cand>, i: nat, j: nat)
    requires Sorted(s) && i < |s| && j < |s| && s[i].p != s[j].p && Better(s[j], s[i])
    ensures j < i
  {
  }

  lemma {:induction false} BetterInSort(cands: seq<Cand>, m: set<Pair>, i: nat)
    requires Sorted(Sort(cands)) && NoBlockingPair(cands, m) && i < |Sort(cands)| && Sort(cands)[i].p !in m
    ensures LosesTo(PairsOf(Sort(cands)), m, i)
  {
    var s := Sort(cands);
    hide Sort, Better;
    assert s[i] in s && s[i] in cands;
    var d :| d in cands && d.p in m && Conflict(s[i].p, d.p) && Better(d, s[i]);
    assert d in s;
    var j :| 0 <= j < |s| && s[j] == d;
    SortedBefore(s, i, j);
    assert PairsOf(s)[j] in m && Conflict(PairsOf(s)[i], PairsOf(s)[j]);
  }

  lemma {:induction false} NoBlockingStable(cands: seq<Cand>, m: set<Pair>)
    requires Distinct(cands) && NoBlockingPair(cands, m)
    ensures Stable(PairsOf(Sort(cands)), m)
  {
    var s := Sort(cands);
    var pairs := PairsOf(s);
    SortSorted(cands);
    forall x | x in m ensures x in pairs {
      SortedPairs(cands, x);
    }
    forall i | 0 <= i < |pairs| && pairs[i] !in m ensures LosesTo(pairs, m, i) {
      BetterInSort(cands, m, i);
    }
  }

  lemma {:induction false} StableNoBlocking(cands: seq<Cand>, m: set<Pair>)
    requires Distinct(cands) && Stable(PairsOf(Sort(cands)), m)
    ensures NoBlockingPair(cands, m)
  {
    var s := Sort(cands);
    var pairs := PairsOf(s);
    SortSorted(cands);
    forall x | x in m ensures InC(cands, x) {
      SortedPairs(cands, x);
    }
    forall c | c in cands && c.p !in m
      ensures exists d :: d in cands && d.p in m && Conflict(c.p, d.p) && Better(d, c)
    {
      var i :| 0 <= i < |s| && s[i] == c;
      assert pairs[i] == c.p && LosesTo(pairs, m, i);
      var j :| 0 <= j < i && pairs[j] in m && Conflict(pairs[i], pairs[j]);
      assert s[j] in s && Better(s[j], s[i]);
    }
  }

  lemma CandidatesDistinct(b: seq<Slot>, h: seq<Slot>)
    ensures Distinct(Candidates(b, h))
  {
    RowsHave(b, h, Only(b, h), Only(h, b), 0);
  }

  /** The pairing of `renames` is the only one no candidate blocks. */
  lemma {:induction false} TakenIsStable(b: seq<Slot>, h: seq<Slot>, n: set<Pair>)
    ensures NoBlockingPair(Candidates(b, h), n) <==> n == Elements(Taken(b, h))
  {
    var cands := Candidates(b, h);
    CandidatesDistinct(b, h);
    GreedyStable(PairsOf(Sort(cands)));
    StableNoBlocking(cands, Elements(Taken(b, h)));
    if NoBlockingPair(cands, n) {
      NoBlockingStable(cands, n);
      StableUnique(PairsOf(Sort(cands)), Elements(Taken(b, h)), n);
    }
  }

  /** It is one to one, pairs only slots that agree on signer and writable, and leaves no two
      unpaired slots that agree. */
  lemma {:induction false} TakenPairs(b: seq<Slot>, h: seq<Slot>)
    ensures var gone, free, m := Only(b, h), Only(h, b), Elements(Taken(b, h));
            && (forall x :: x in m ==> x.b < |gone| && x.h < |free| && Agree(gone[x.b].a, free[x.h].a))
            && OneToOne(m)
            && (forall j, k :: 0 <= j < |gone| && 0 <= k < |free| && Agree(gone[j].a, free[k].a) ==>
                  exists x :: x in m && (x.b == j || x.h == k))
  {
    var gone, free, m := Only(b, h), Only(h, b), Elements(Taken(b, h));
    RowsHave(b, h, gone, free, 0);
    TakenIsStable(b, h, m);
    forall x | x in m ensures x.b < |gone| && x.h < |free| && Agree(gone[x.b].a, free[x.h].a) {
      assert InC(Candidates(b, h), x);
    }
    forall j, k | 0 <= j < |gone| && 0 <= k < |free| && Agree(gone[j].a, free[k].a)
      ensures exists x :: x in m && (x.b == j || x.h == k)
    {
      var c := CandOf(b, h, gone, free, j, k);
      assert c in Candidates(b, h) && c.p == Pair(j, k);
      if c.p !in m {
        var d :| d in Candidates(b, h) && d.p in m && Conflict(c.p, d.p) && Better(d, c);
      }
    }
  }

  // ----------------------------------------------------------- the renames

  /** Base slot paths as head calls them; the pairings a reader is told about. */
  datatype Renames = Renames(paths: map<string, string>, guessed: seq<(string, string)>)

  function HeadPath(r: Renames, path: string): string {
    if path in r.paths then r.paths[path] else path
  }

  /** A slot worth taking for a renamed one: not only a fixed address. */
  predicate Candidate(a: Acct) { !(a.address.Some? && !a.signer && a.pda.None? && a.relations == []) }

  function CountGone(slots: seq<Slot>, prefix: string): nat {
    if slots == [] then 0
    else (if PrefixOf(slots[0].path) == prefix && Candidate(slots[0].a) then 1 else 0) + CountGone(slots[1..], prefix)
  }

  function CountFree(slots: seq<Slot>, prefix: string): nat {
    if slots == [] then 0
    else (if PrefixOf(slots[0].path) == prefix then 1 else 0) + CountFree(slots[1..], prefix)
  }

  predicate NamedBySeeds(b: seq<Slot>, path: string) {
    exists i, k ::
      && 0 <= i < |b| && PrefixOf(b[i].path) == PrefixOf(path) && b[i].a.pda.Some?
      && 0 <= k < |b[i].a.pda.value.seeds| && b[i].a.pda.value.seeds[k].Account?
      && FirstSegment(b[i].a.pda.value.seeds[k].path) == LeafOf(path)
  }

  /** A pairing that is not plainly a rename. */
  predicate IsGuess(b: seq<Slot>, h: seq<Slot>, gone: seq<Slot>, free: seq<Slot>, p: Pair)
    requires p.b < |gone| && p.h < |free|
  {
    var x, y := gone[p.b], free[p.h];
    var oneToOne := CountGone(gone, PrefixOf(x.path)) == 1 && CountFree(free, PrefixOf(y.path)) == 1;
    var checksItself := x.a.signer || x.a.pda.Some? || x.a.address.Some? || x.a.relations != [] ||
        NamedBySeeds(b, x.path);
    !(oneToOne && (Shared(b, h, x, y) > 0 || !checksItself))
  }

  ghost predicate InRange(pairs: seq<Pair>, gone: seq<Slot>, free: seq<Slot>) {
    forall i :: 0 <= i < |pairs| ==> pairs[i].b < |gone| && pairs[i].h < |free|
  }

  function PathsOf(gone: seq<Slot>, free: seq<Slot>, pairs: seq<Pair>): map<string, string>
    requires InRange(pairs, gone, free)
  {
    if pairs == [] then map[]
    else
      var p := pairs[|pairs| - 1];
      PathsOf(gone, free, pairs[..|pairs| - 1])[gone[p.b].path := free[p.h].path]
  }

  function GuessesOf(b: seq<Slot>, h: seq<Slot>, gone: seq<Slot>, free: seq<Slot>, pairs: seq<Pair>)
    : seq<(string, string)>
    requires InRange(pairs, gone, free)
  {
    if pairs == [] then []
    else
      var p := pairs[|pairs| - 1];
      GuessesOf(b, h, gone, free, pairs[..|pairs| - 1])
      + if IsGuess(b, h, gone, free, p) then [(gone[p.b].path, free[p.h].path)] else []
  }

  lemma TakenInRange(b: seq<Slot>, h: seq<Slot>)
    ensures InRange(Taken(b, h), Only(b, h), Only(h, b))
  {
    TakenPairs(b, h);
    var t := Taken(b, h);
    forall i | 0 <= i < |t| ensures t[i].b < |Only(b, h)| && t[i].h < |Only(h, b)| {
      assert t[i] in Elements(t);
    }
  }

  function RenamesOf(b: seq<Slot>, h: seq<Slot>): Renames {
    TakenInRange(b, h);
    Renames(PathsOf(Only(b, h), Only(h, b), Taken(b, h)), GuessesOf(b, h, Only(b, h), Only(h, b), Taken(b, h)))
  }

  method CollectCandidates(b: seq<Slot>, h: seq<Slot>, gone: seq<Slot>, free: seq<Slot>) returns (pairs: seq<Cand>)
    ensures pairs == Rows(b, h, gone, free, 0)
  {
    pairs := [];
    for bi := 0 to |gone|
      invariant Rows(b, h, gone, free, 0) == pairs + Rows(b, h, gone, free, bi)
    {
      ghost var before, rest := pairs, Rows(b, h, gone, free, bi + 1);
      for hi := 0 to |free|
        invariant before + Row(b, h, gone, free, bi, 0) == pairs + Row(b, h, gone, free, bi, hi)
      {
        if Agree(gone[bi].a, free[hi].a) {
          pairs := pairs + [CandOf(b, h, gone, free, bi, hi)];
        }
      }
      assert pairs == before + Row(b, h, gone, free, bi, 0);
      assert before + (Row(b, h, gone, free, bi, 0) + rest) == pairs + rest;
    }
  }

  method FindRenames(b: seq<Slot>, h: seq<Slot>) returns (r: Renames)
    ensures r == RenamesOf(b, h)
  {
    var free, gone := Only(h, b), Only(b, h);
    var pairs := CollectCandidates(b, h, gone, free);
    var taken := TakeBest(PairsOf(Sort(pairs)));
    TakenInRange(b, h);
    r := ReadTaken(b, h, gone, free, taken);
  }

  method ReadTaken(b: seq<Slot>, h: seq<Slot>, gone: seq<Slot>, free: seq<Slot>, taken: seq<Pair>) returns (r: Renames)
    requires InRange(taken, gone, free)
    ensures r == Renames(PathsOf(gone, free, taken), GuessesOf(b, h, gone, free, taken))
  {
    var paths: map<string, string>, guessed: seq<(string, string)> := map[], [];
    for i := 0 to |taken|
      invariant paths == PathsOf(gone, free, taken[..i]) && guessed == GuessesOf(b, h, gone, free, taken[..i])
    {
      var p := taken[i];
      assert taken[..i + 1][..i] == taken[..i];
      paths := paths[gone[p.b].path := free[p.h].path];
      if IsGuess(b, h, gone, free, p) {
        guessed := guessed + [(gone[p.b].path, free[p.h].path)];
      }
    }
    assert taken[..|taken|] == taken;
    r := Renames(paths, guessed);
  }

  // ---------------------------------------------- reading paths through it

  lemma PathsHave(gone: seq<Slot>, free: seq<Slot>, pairs: seq<Pair>)
    requires InRange(pairs, gone, free)
    ensures forall path :: path in PathsOf(gone, free, pairs) ==>
              exists p :: p in pairs && gone[p.b].path == path && free[p.h].path == PathsOf(gone, free, pairs)[path]
    ensures forall p :: p in pairs ==> gone[p.b].path in PathsOf(gone, free, pairs)
  {
    if pairs != [] {
      var init, last := pairs[..|pairs| - 1], pairs[|pairs| - 1];
      PathsHave(gone, free, init);
      assert pairs == init + [last];
    }
  }

  lemma OnlyUnique(slots: seq<Slot>, others: seq<Slot>)
    requires UniquePaths(slots)
    ensures UniquePaths(Only(slots, others))
  {
    if slots != [] {
      assert UniquePaths(slots[1..]);
      OnlyUnique(slots[1..], others);
      var rest := Only(slots[1..], others);
      forall i | 0 <= i < |rest| ensures rest[i].path != slots[0].path {
        assert rest[i] in rest && rest[i] in slots[1..];
        var j :| 0 <= j < |slots[1..]| && slots[1..][j] == rest[i];
        assert slots[j + 1] == rest[i];
      }
    }
  }

  /** Where a base slot's path goes: to itself, or, for a slot gone, to a path only head has, of a
      slot that agrees on signer and writable. */
  lemma HeadPathGoes(b: seq<Slot>, h: seq<Slot>, path: string)
    ensures var to := HeadPath(RenamesOf(b, h), path);
            to == path || (!HasPath(h, path) && !HasPath(b, to) && HasPath(h, to))
  {
    var gone, free := Only(b, h), Only(h, b);
    TakenInRange(b, h);
    PathsHave(gone, free, Taken(b, h));
    if path in RenamesOf(b, h).paths {
      var p :| p in Taken(b, h) && gone[p.b].path == path && free[p.h].path == RenamesOf(b, h).paths[path];
      assert gone[p.b] in gone && free[p.h] in free;
      var i :| 0 <= i < |h| && h[i] == free[p.h];
    }
  }

  /** A renamed path and the pair that renamed it. */
  lemma {:induction false} RenamedBy(b: seq<Slot>, h: seq<Slot>, path: string) returns (p: Pair)
    requires path in RenamesOf(b, h).paths
    ensures p in Elements(Taken(b, h)) && p.b < |Only(b, h)| && p.h < |Only(h, b)|
    ensures Only(b, h)[p.b].path == path && Only(h, b)[p.h].path == RenamesOf(b, h).paths[path]
  {
    TakenInRange(b, h);
    PathsHave(Only(b, h), Only(h, b), Taken(b, h));
    p :| p in Taken(b, h) && Only(b, h)[p.b].path == path && Only(h, b)[p.h].path == RenamesOf(b, h).paths[path];
  }

  /** With unique paths in head, no two base slots go to one head path. */
  lemma {:induction false} HeadPathInjective(b: seq<Slot>, h: seq<Slot>, x: string, y: string)
    requires UniquePaths(h) && HasPath(b, x) && HasPath(b, y)
    requires HeadPath(RenamesOf(b, h), x) == HeadPath(RenamesOf(b, h), y)
    ensures x == y
  {
    var r := RenamesOf(b, h);
    if x in r.paths && y in r.paths {
      var p := RenamedBy(b, h, x);
      var q := RenamedBy(b, h, y);
      OnlyUnique(h, b);
      assert p.h == q.h;
      TakenPairs(b, h);
      assert !Conflict(p, q);
    } else {
      HeadPathGoes(b, h, x);
      HeadPathGoes(b, h, y);
    }
  }
}
