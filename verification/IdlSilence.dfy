/** What the IDL differ's silence about an instruction means (crates/solinv-static/src/idl_diff.rs,
    `diff_ix`). A slot names the slots its checks depend on, the declarer of a `has_one` and the
    accounts of its seeds, by their names inside one composite. The differ compares names; what is
    to be kept is said here by paths. */
module IdlSilence {
  import opened Common
  import opened IdlSlots
  import opened IdlRenames
  import opened IdlDiff
  import opened Matching

  // ---------------------------------------------------------- what is kept

  /** The slot `name` beside the base slot `path`, as head calls it. */
  function Beside(r: Renames, path: string, name: string): string { HeadPath(r, In(PrefixOf(path), name)) }

  /** The `has_one` declared by the slot `rel` beside `path`: in head, that slot still declares it. */
  ghost predicate HasOneKept(r: Renames, path: string, rel: string, h: Acct) {
    exists now :: now in h.relations && In(PrefixOf(HeadPath(r, path)), now) == Beside(r, path, rel)
  }

  /** A seed is of the same bytes, the same argument, or the same field of the same slot. */
  predicate SeedKept(r: Renames, path: string, b: Seed, h: Seed) {
    match (b, h)
    case (Const(x), Const(y)) => x == y
    case (Arg(x), Arg(y)) => x == y
    case (Account(x, _), Account(y, _)) =>
      && In(PrefixOf(HeadPath(r, path)), FirstSegment(y)) == Beside(r, path, FirstSegment(x))
      && AfterFirst(x) == AfterFirst(y)
    case _ => false
  }

  predicate PdaKept(r: Renames, path: string, b: Pda, h: Pda) {
    && |b.seeds| == |h.seeds| && (forall i :: 0 <= i < |b.seeds| ==> SeedKept(r, path, b.seeds[i], h.seeds[i]))
    && b.program.Some? == h.program.Some?
    && (b.program.Some? ==> SeedKept(r, path, b.program.value, h.program.value))
  }

  /** Head still makes every check of the base slot `s`. */
  ghost predicate Kept(r: Renames, s: Slot, h: Acct) {
    && (s.a.signer ==> h.signer)
    && (s.a.pda.Some? ==> h.pda.Some? && PdaKept(r, s.path, s.a.pda.value, h.pda.value))
    && (s.a.address.Some? ==> h.address == s.a.address)
    && (forall rel :: rel in s.a.relations ==> HasOneKept(r, s.path, rel, h))
    && (h.optional ==> s.a.optional)
  }

  ghost predicate SlotKept(r: Renames, head: map<string, Acct>, s: Slot) {
    var hp := HeadPath(r, s.path);
    if hp in head then Kept(r, s, head[hp]) else Droppable(s.a)
  }

  /** Every base slot that checks more than an address is in head, by itself or renamed, each a
      different head slot, and every base slot in head keeps its checks. */
  ghost predicate Preserved(b: seq<Slot>, h: seq<Slot>) {
    var r := RenamesOf(b, h);
    && (forall i :: 0 <= i < |b| ==> SlotKept(r, HeadMap(h), b[i]))
    && (forall x, y :: HasPath(b, x) && HasPath(b, y) && HeadPath(r, x) == HeadPath(r, y) ==> x == y)
    && (UnsignedWriter(h) ==> UnsignedWriter(b))
  }

  // ------------------------------------------------- what the differ sees

  /** The slot `path` names by `name` is, in head, in the composite `path` is in. */
  predicate With(r: Renames, path: string, name: string) {
    In(PrefixOf(HeadPath(r, path)), LeafOf(Beside(r, path, name))) == Beside(r, path, name)
  }

  predicate SeedWith(r: Renames, path: string, s: Seed) { s.Account? ==> With(r, path, FirstSegment(s.path)) }

  /** Every slot that the checks of `s` depend on is beside it in head. */
  predicate SlotTogether(r: Renames, s: Slot) {
    && (forall rel :: rel in s.a.relations ==> With(r, s.path, rel))
    && (s.a.pda.Some? ==>
          && (forall i :: 0 <= i < |s.a.pda.value.seeds| ==> SeedWith(r, s.path, s.a.pda.value.seeds[i]))
          && (s.a.pda.value.program.Some? ==> SeedWith(r, s.path, s.a.pda.value.program.value)))
  }

  predicate Together(b: seq<Slot>, h: seq<Slot>) {
    var r, head := RenamesOf(b, h), HeadMap(h);
    forall i :: 0 <= i < |b| && HeadPath(r, b[i].path) in head ==> SlotTogether(r, b[i])
  }

  /** The names slots list as relations are names, not paths. */
  predicate PlainNames(slots: seq<Slot>) {
    forall i, rel :: 0 <= i < |slots| && rel in slots[i].a.relations ==> '.' !in rel
  }

  /** The checks kept as the differ compares them: by names alone. */
  ghost predicate Alike(r: Renames, prefix: string, b: Acct, h: Acct) {
    && (b.signer ==> h.signer)
    && (b.pda.Some? ==> h.pda.Some? && SameSeeds(r, prefix, b.pda.value, h.pda.value, (false, false)))
    && (b.address.Some? ==> h.address == b.address)
    && (forall rel :: rel in b.relations ==> Sibling(r, prefix, rel) in h.relations)
    && (h.optional ==> b.optional)
  }

  ghost predicate SlotAlike(r: Renames, head: map<string, Acct>, s: Slot) {
    var hp := HeadPath(r, s.path);
    if hp in head then Alike(r, PrefixOf(s.path), s.a, head[hp]) else Droppable(s.a)
  }

  lemma {:induction false} RelationsSilent(c: Context, prefix: string, rels: seq<string>, h: Acct, target: string)
    requires c.resolved
    ensures RelationFindings(c, prefix, rels, h, target) == ([], []) <==>
            forall rel :: rel in rels ==> Sibling(c.r, prefix, rel) in h.relations
  {
    hide Sibling, DeclarerKept;
    if rels != [] {
      RelationsSilent(c, prefix, rels[..|rels| - 1], h, target);
      assert rels == rels[..|rels| - 1] + [rels[|rels| - 1]];
    }
  }

  lemma SeedsSilent(c: Context, prefix: string, b: Acct, h: Acct)
    requires c.resolved && c.legacy == (false, false)
    ensures SeedFindings(c, prefix, b, h) == ([], false) <==>
            (b.pda.Some? ==> h.pda.Some? && SameSeeds(c.r, prefix, b.pda.value, h.pda.value, (false, false)))
    ensures AddressFindings(c, b, h) == ([], []) <==> (b.address.Some? ==> h.address == b.address)
  {
    hide SameSeeds;
  }

  lemma NoChange(c: Context, s: Slot)
    requires HeadPath(c.r, s.path) in c.head
    ensures var hp, prefix := HeadPath(c.r, s.path), PrefixOf(s.path);
            var ha := c.head[hp];
            SlotChanges(c, s) == [] <==>
            && (s.a.signer ==> ha.signer)
            && SeedFindings(c, prefix, s.a, ha) == ([], false)
            && AddressFindings(c, s.a, ha) == ([], [])
            && RelationFindings(c, prefix, s.a.relations, ha, LeafOf(hp)) == ([], [])
            && (ha.optional ==> s.a.optional)
  {
    hide SeedFindings, AddressFindings, RelationFindings, HeadPath, PrefixOf, LeafOf;
  }

  lemma SlotSilent(c: Context, s: Slot)
    requires c.resolved && c.legacy == (false, false)
    ensures SlotChanges(c, s) == [] <==> SlotAlike(c.r, c.head, s)
  {
    var hp := HeadPath(c.r, s.path);
    if hp in c.head {
      var ha := c.head[hp];
      NoChange(c, s);
      SeedsSilent(c, PrefixOf(s.path), s.a, ha);
      RelationsSilent(c, PrefixOf(s.path), s.a.relations, ha, LeafOf(hp));
      hide SeedFindings, AddressFindings, RelationFindings, SameSeeds, SlotChanges, HeadPath, PrefixOf, LeafOf, Sibling;
    }
  }

  lemma {:induction false} SlotsSilent(c: Context, b: seq<Slot>)
    ensures AllSlotChanges(c, b) == [] <==> forall s :: s in b ==> SlotChanges(c, s) == []
  {
    if b != [] {
      var init, last := b[..|b| - 1], b[|b| - 1];
      SlotsSilent(c, init);
      assert forall s :: s in b <==> s in init || s == last;
      assert AllSlotChanges(c, b) == AllSlotChanges(c, init) + SlotChanges(c, last);
    }
  }

  // ------------------------------------------------------ names and paths

  lemma SiblingSelf(r: Renames, prefix: string, name: string)
    requires r.paths == map[]
    ensures Sibling(r, prefix, name) == name
  {
    match FirstDot(name)
    case Some(i) => assert name == name[..i] + "." + name[i + 1..];
    case None =>
  }

  /** A sibling's name in head is the name of the slot it went to; what follows it stays. */
  lemma {:induction false} SiblingParts(r: Renames, path: string, name: string)
    ensures FirstSegment(Sibling(r, PrefixOf(path), name)) == LeafOf(Beside(r, path, FirstSegment(name)))
    ensures AfterFirst(Sibling(r, PrefixOf(path), name)) == AfterFirst(name)
  {
    hide FirstDot, LastDot;
    var first := FirstSegment(name);
    var leaf := LeafOf(Beside(r, path, first));
    FirstSegmentPlain(name);
    PathParts(PrefixOf(path), first);
    LeafPlain(Beside(r, path, first));
    hide LeafOf, PrefixOf, In;
    if FirstDot(name).Some? {
      var rest := name[FirstDot(name).value + 1..];
      FirstDotAt(leaf, rest);
      assert Sibling(r, PrefixOf(path), name) == leaf + "." + rest;
      assert (leaf + "." + rest)[|leaf| + 1..] == rest && (leaf + "." + rest)[..|leaf|] == leaf;
    } else {
      FirstDotAt(leaf, "");
    }
  }

  /** A relation is kept exactly when the differ finds its name and its declarer went along. */
  lemma HasOneExact(r: Renames, path: string, rel: string, h: Acct)
    requires '.' !in rel && forall now :: now in h.relations ==> '.' !in now
    ensures HasOneKept(r, path, rel, h) <==> Sibling(r, PrefixOf(path), rel) in h.relations && With(r, path, rel)
  {
    var q, to := PrefixOf(HeadPath(r, path)), Beside(r, path, rel);
    FirstDotAt(rel, "");
    SiblingParts(r, path, rel);
    assert Sibling(r, PrefixOf(path), rel) == LeafOf(to) by { LeafPlain(to); FirstDotAt(LeafOf(to), ""); }
    if HasOneKept(r, path, rel, h) {
      var now :| now in h.relations && In(q, now) == to;
      PathParts(q, now);
    }
  }

  lemma SeedExact(r: Renames, path: string, b: Seed, h: Seed)
    ensures SeedKept(r, path, b, h) <==>
            SeedKeyOf(r, PrefixOf(path), b, false) == SeedKeyOf(NoRenames, "", h, false) && SeedWith(r, path, b)
  {
    if b.Account? && h.Account? {
      var q, to, name := PrefixOf(HeadPath(r, path)), Beside(r, path, FirstSegment(b.path)), FirstSegment(h.path);
      SiblingSelf(NoRenames, "", h.path);
      SiblingParts(r, path, b.path);
      FirstSegmentPlain(h.path);
      PathParts(q, name);
      if name == LeafOf(to) && AfterFirst(b.path) == AfterFirst(h.path) {
        PathAgain(Sibling(r, PrefixOf(path), b.path), h.path);
      }
    }
  }

  lemma PdaExact(r: Renames, path: string, b: Pda, h: Pda)
    ensures PdaKept(r, path, b, h) <==>
            && SameSeeds(r, PrefixOf(path), b, h, (false, false))
            && (forall i :: 0 <= i < |b.seeds| ==> SeedWith(r, path, b.seeds[i]))
            && (b.program.Some? ==> SeedWith(r, path, b.program.value))
  {
    hide SeedKept, SeedWith, SeedKeyOf;
    var x, y := SeedKeys(r, PrefixOf(path), b.seeds, false), SeedKeys(NoRenames, "", h.seeds, false);
    if |b.seeds| == |h.seeds| {
      forall i | 0 <= i < |b.seeds|
        ensures SeedKept(r, path, b.seeds[i], h.seeds[i]) <==> x[i] == y[i] && SeedWith(r, path, b.seeds[i])
      {
        SeedExact(r, path, b.seeds[i], h.seeds[i]);
      }
    }
    if b.program.Some? && h.program.Some? { SeedExact(r, path, b.program.value, h.program.value); }
  }

  /** A slot keeps its checks exactly when the differ finds them alike and what they depend on went
      along with it. */
  lemma KeptExact(r: Renames, s: Slot, h: Acct)
    requires forall rel :: rel in s.a.relations ==> '.' !in rel
    requires forall now :: now in h.relations ==> '.' !in now
    ensures Kept(r, s, h) <==> Alike(r, PrefixOf(s.path), s.a, h) && SlotTogether(r, s)
  {
    hide HasOneKept, With, PdaKept, SameSeeds, SeedWith;
    forall rel | rel in s.a.relations
      ensures HasOneKept(r, s.path, rel, h) <==>
              Sibling(r, PrefixOf(s.path), rel) in h.relations && With(r, s.path, rel)
    {
      HasOneExact(r, s.path, rel, h);
    }
    if s.a.pda.Some? && h.pda.Some? { PdaExact(r, s.path, s.a.pda.value, h.pda.value); }
  }

  // ------------------------------------------------------------ the theorems

  lemma {:induction false} SlotExact(b: seq<Slot>, h: seq<Slot>, s: Slot)
    requires PlainNames(b) && PlainNames(h) && s in b
    ensures var r, head := RenamesOf(b, h), HeadMap(h);
            SlotKept(r, head, s) <==> SlotAlike(r, head, s) && (HeadPath(r, s.path) in head ==> SlotTogether(r, s))
  {
    var r, head := RenamesOf(b, h), HeadMap(h);
    var hp := HeadPath(r, s.path);
    hide RenamesOf, SlotTogether, Kept, Alike;
    if hp in head {
      HeadMapHas(h);
      var k :| 0 <= k < |h| && h[k] == Slot(hp, head[hp]);
      var i :| 0 <= i < |b| && b[i] == s;
      KeptExact(r, s, head[hp]);
    }
  }

  lemma GuessesSilent(ix: string, guessed: seq<(string, string)>)
    ensures Guesses(ix, guessed) == [] <==> guessed == []
  {
  }

  ghost predicate PartsAlike(b: seq<Slot>, h: seq<Slot>) {
    var r, head := RenamesOf(b, h), HeadMap(h);
    && r.guessed == [] && (forall i :: 0 <= i < |b| ==> SlotAlike(r, head, b[i]))
    && (UnsignedWriter(h) ==> UnsignedWriter(b))
  }

  /** The report is empty exactly when each part of it is. */
  lemma {:induction false} PartsSilent(b: seq<Slot>, h: seq<Slot>, ix: string, guessed: bool)
    ensures DiffSlots(b, h, ix, guessed, true, (false, false)) == [] ==> PartsAlike(b, h)
    ensures UniquePaths(b) && UniquePaths(h) && PartsAlike(b, h) ==>
              DiffSlots(b, h, ix, guessed, true, (false, false)) == []
  {
    var c := ContextOf(b, h, ix, guessed, true, (false, false));
    GuessesSilent(ix, c.r.guessed);
    SlotsSilent(c, b);
    forall i | 0 <= i < |b| ensures SlotChanges(c, b[i]) == [] <==> SlotAlike(c.r, c.head, b[i]) {
      SlotSilent(c, b[i]);
    }
    if UniquePaths(b) && UniquePaths(h) { CountWarningNeverFires(b, h, ix, guessed, true, (false, false)); }
    hide SlotAlike, SlotChanges, RenamesOf, HeadMap, UnsignedWriter, UniquePaths, Guesses, AllSlotChanges,
        SignerCountChange;
    assert forall s :: s in b ==> exists i :: 0 <= i < |b| && b[i] == s;
  }

  lemma {:induction false} AllKeptExact(b: seq<Slot>, h: seq<Slot>)
    requires PlainNames(b) && PlainNames(h)
    ensures var r, head := RenamesOf(b, h), HeadMap(h);
            (forall i :: 0 <= i < |b| ==> SlotKept(r, head, b[i]))
            <==> (forall i :: 0 <= i < |b| ==> SlotAlike(r, head, b[i])) && Together(b, h)
  {
    hide SlotKept, SlotAlike, SlotTogether, RenamesOf, HeadMap, PlainNames;
    var r, head := RenamesOf(b, h), HeadMap(h);
    forall i | 0 <= i < |b|
      ensures SlotKept(r, head, b[i]) <==>
              SlotAlike(r, head, b[i]) && (HeadPath(r, b[i].path) in head ==> SlotTogether(r, b[i]))
    {
      SlotExact(b, h, b[i]);
    }
  }

  /** With unique slot paths: the differ is silent, and no check's slots were parted, exactly when no
      pairing is a guess, every base slot keeps its checks and no unsigned writer appears. So it
      reports nothing else, and misses only a check that depends on a slot paired into another
      composite. */
  lemma {:induction false} SilenceExact(b: seq<Slot>, h: seq<Slot>, ix: string, guessed: bool)
    requires UniquePaths(b) && UniquePaths(h) && PlainNames(b) && PlainNames(h)
    ensures DiffSlots(b, h, ix, guessed, true, (false, false)) == [] && Together(b, h) <==>
            RenamesOf(b, h).guessed == [] && Preserved(b, h)
  {
    hide SlotKept, SlotAlike, RenamesOf, HeadMap, PlainNames, DiffSlots, UnsignedWriter, Together;
    PartsSilent(b, h, ix, guessed);
    AllKeptExact(b, h);
    forall x, y | HasPath(b, x) && HasPath(b, y) && HeadPath(RenamesOf(b, h), x) == HeadPath(RenamesOf(b, h), y)
      ensures x == y
    {
      HeadPathInjective(b, h, x, y);
    }
  }

  /** Silence: when nothing is reported for an instruction, head keeps its checks exactly when the
      slots each depends on stayed with it; whatever moved, every base slot that checks more than an
      address has a head slot of its own that keeps its signature, its address and its presence. */
  lemma {:induction false} SilenceKeeps(b: seq<Slot>, h: seq<Slot>, ix: string, guessed: bool)
    requires UniquePaths(h) && PlainNames(b) && PlainNames(h)
    requires DiffSlots(b, h, ix, guessed, true, (false, false)) == []
    ensures Preserved(b, h) <==> Together(b, h)
    ensures var r, head := RenamesOf(b, h), HeadMap(h);
            && (forall x, y :: HasPath(b, x) && HasPath(b, y) && HeadPath(r, x) == HeadPath(r, y) ==> x == y)
            && forall i :: 0 <= i < |b| ==>
                 var hp := HeadPath(r, b[i].path);
                 if hp in head then SelfKept(b[i].a, head[hp]) else Droppable(b[i].a)
  {
    PartsSilent(b, h, ix, guessed);
    AllKeptExact(b, h);
    hide RenamesOf, HeadMap, PlainNames, DiffSlots, Together, SlotKept, UnsignedWriter;
    forall x, y | HasPath(b, x) && HasPath(b, y) && HeadPath(RenamesOf(b, h), x) == HeadPath(RenamesOf(b, h), y)
      ensures x == y
    {
      HeadPathInjective(b, h, x, y);
    }
  }

  /** The checks that depend on no other slot. */
  predicate SelfKept(b: Acct, h: Acct) {
    && (b.signer ==> h.signer) && (b.address.Some? ==> h.address == b.address) && (h.optional ==> b.optional)
    && (b.pda.Some? ==> h.pda.Some?)
  }

  /** No slot is paired into another composite. */
  predicate InPlace(b: seq<Slot>, h: seq<Slot>) {
    var r := RenamesOf(b, h);
    forall path :: path in r.paths ==> PrefixOf(r.paths[path]) == PrefixOf(path)
  }

  predicate WholePaths(slots: seq<Slot>) {
    forall i :: 0 <= i < |slots| ==> In(PrefixOf(slots[i].path), LeafOf(slots[i].path)) == slots[i].path
  }

  /** When every pairing stays in its composite, so does what every check depends on: silence then
      keeps every check. */
  lemma {:induction false} InPlaceTogether(b: seq<Slot>, h: seq<Slot>)
    requires InPlace(b, h) && WholePaths(h) && PlainNames(b)
    ensures Together(b, h)
  {
    hide SlotTogether, RenamesOf, HeadMap, InPlace, WholePaths;
    forall i | 0 <= i < |b| ensures SlotTogether(RenamesOf(b, h), b[i]) {
      SlotInPlace(b, h, b[i]);
    }
  }

  lemma {:induction false} SlotInPlace(b: seq<Slot>, h: seq<Slot>, s: Slot)
    requires InPlace(b, h) && WholePaths(h) && forall rel :: rel in s.a.relations ==> '.' !in rel
    ensures SlotTogether(RenamesOf(b, h), s)
  {
    hide With, RenamesOf, InPlace, WholePaths;
    forall rel | rel in s.a.relations ensures With(RenamesOf(b, h), s.path, rel) {
      WithInPlace(b, h, s.path, rel);
    }
    forall seed: Seed ensures SeedWith(RenamesOf(b, h), s.path, seed) {
      if seed.Account? {
        FirstSegmentPlain(seed.path);
        WithInPlace(b, h, s.path, FirstSegment(seed.path));
      }
    }
  }

  lemma {:induction false} WithInPlace(b: seq<Slot>, h: seq<Slot>, path: string, name: string)
    requires InPlace(b, h) && WholePaths(h) && '.' !in name
    ensures With(RenamesOf(b, h), path, name)
  {
    var r := RenamesOf(b, h);
    var beside := In(PrefixOf(path), name);
    PathParts(PrefixOf(path), name);
    HeadPathGoes(b, h, beside);
    HeadPathGoes(b, h, path);
    hide RenamesOf, In, PrefixOf, LeafOf;
    assert PrefixOf(HeadPath(r, path)) == PrefixOf(path);
    if HeadPath(r, beside) != beside {
      var k :| 0 <= k < |h| && h[k].path == r.paths[beside];
    }
  }

  // ------------------------------------------------- a check lost in silence

  /** A signer `a` that the slot `v` beside it declares a `has_one` for. */
  function Owner(a: string, v: string): Acct { Acct(a, false, true, false, None, None, [v]) }

  function Vault(v: string): Acct { Acct(v, true, false, false, None, None, []) }

  /** `g` holds the two, `k` another `v`; in head the signer is in `k`. */
  function PartedBase(g: string, k: string, a: string, v: string): Ix {
    Ix("ix", [Composite(g, [Single(Owner(a, v)), Single(Vault(v))]), Composite(k, [Single(Vault(v))])], [])
  }

  function PartedHead(g: string, k: string, a: string, v: string): Ix {
    Ix("ix", [Composite(g, [Single(Vault(v))]), Composite(k, [Single(Owner(a, v)), Single(Vault(v))])], [])
  }

  function At(prefix: string, a: Acct): Slot { Slot(In(prefix, a.name), a) }

  function BaseSlots(g: string, k: string, a: string, v: string): seq<Slot> {
    [At(g, Owner(a, v)), At(g, Vault(v)), At(k, Vault(v))]
  }

  function HeadSlots(g: string, k: string, a: string, v: string): seq<Slot> {
    [At(g, Vault(v)), At(k, Owner(a, v)), At(k, Vault(v))]
  }

  predicate Names(g: string, k: string, a: string, v: string) {
    g != "" && k != "" && g != k && a != v && '.' !in a && '.' !in v
  }

  lemma FlatSingle(name: string, x: Acct)
    requires name != ""
    ensures FlatItem(Single(x), [name]) == [At(name, x)]
  {
    assert Join([name]) == name;
  }

  lemma FlatOne(name: string, x: Acct)
    requires name != ""
    ensures FlatItem(Composite(name, [Single(x)]), []) == [At(name, x)]
  {
    FlatSingle(name, x);
    var items := [Single(x)];
    assert [] + [name] == [name] && items[1..] == [];
    assert FlatItems(items, [name]) == FlatItem(items[0], [name]) + FlatItems(items[1..], [name]);
  }

  lemma FlatTwo(name: string, x: Acct, y: Acct)
    requires name != ""
    ensures FlatItem(Composite(name, [Single(x), Single(y)]), []) == [At(name, x), At(name, y)]
  {
    FlatSingle(name, x);
    FlatSingle(name, y);
    var items := [Single(x), Single(y)];
    assert [] + [name] == [name] && items[1..] == [items[1]] && items[1..][1..] == [];
    assert FlatItems(items[1..], [name]) == FlatItem(items[1], [name]) + FlatItems([], [name]);
    assert FlatItems(items, [name]) == FlatItem(items[0], [name]) + FlatItems(items[1..], [name]);
  }

  lemma {:induction false} PartedFlat(g: string, k: string, a: string, v: string)
    requires g != "" && k != ""
    ensures Flat(PartedBase(g, k, a, v)) == BaseSlots(g, k, a, v)
    ensures Flat(PartedHead(g, k, a, v)) == HeadSlots(g, k, a, v)
  {
    FlatTwo(g, Owner(a, v), Vault(v));
    FlatOne(k, Vault(v));
    FlatOne(g, Vault(v));
    FlatTwo(k, Owner(a, v), Vault(v));
    hide At, Owner, Vault, FlatItem;
    var b, h := PartedBase(g, k, a, v).accounts, PartedHead(g, k, a, v).accounts;
    assert b[1..] == [b[1]] && b[1..][1..] == [] && h[1..] == [h[1]] && h[1..][1..] == [];
    assert FlatItems(b[1..], []) == FlatItem(b[1], []) + FlatItems([], []);
    assert FlatItems(h[1..], []) == FlatItem(h[1], []) + FlatItems([], []);
  }

  lemma {:induction false} PathsApart(g: string, k: string, a: string, v: string)
    requires Names(g, k, a, v)
    ensures PrefixOf(In(g, a)) == g && LeafOf(In(g, a)) == a && PrefixOf(In(k, a)) == k && LeafOf(In(k, a)) == a
    ensures PrefixOf(In(g, v)) == g && LeafOf(In(g, v)) == v && PrefixOf(In(k, v)) == k && LeafOf(In(k, v)) == v
    ensures In(g, a) != In(k, a) && In(g, v) != In(k, v) && In(g, a) != In(g, v) && In(k, a) != In(k, v)
    ensures In(g, a) != In(k, v) && In(k, a) != In(g, v)
  {
    PathParts(g, a);
    PathParts(k, a);
    PathParts(g, v);
    PathParts(k, v);
  }

  lemma OnlyOne(slots: seq<Slot>, others: seq<Slot>, i: nat)
    requires i < |slots| && forall j :: 0 <= j < |slots| ==> (HasPath(others, slots[j].path) <==> j != i)
    ensures Only(slots, others) == [slots[i]]
  {
    hide HasPath;
    if i == 0 {
      OnlyNone(slots[1..], others);
    } else {
      OnlyOne(slots[1..], others, i - 1);
    }
  }

  lemma OnlyNone(slots: seq<Slot>, others: seq<Slot>)
    requires forall j :: 0 <= j < |slots| ==> HasPath(others, slots[j].path)
    ensures Only(slots, others) == []
  {
  }

  lemma {:induction false} PartedOnly(g: string, k: string, a: string, v: string)
    requires Names(g, k, a, v)
    ensures var b, h := BaseSlots(g, k, a, v), HeadSlots(g, k, a, v);
            && UniquePaths(b) && UniquePaths(h) && PlainNames(b) && PlainNames(h)
            && Only(b, h) == [b[0]] && Only(h, b) == [h[1]]
  {
    PathsApart(g, k, a, v);
    PartedPlain(g, k, a, v);
    hide In, PrefixOf, LeafOf, Only, UniquePaths, PlainNames;
    ThreeOnly(BaseSlots(g, k, a, v), HeadSlots(g, k, a, v));
  }

  lemma PartedPlain(g: string, k: string, a: string, v: string)
    requires '.' !in v
    ensures PlainNames(BaseSlots(g, k, a, v)) && PlainNames(HeadSlots(g, k, a, v))
  {
    hide In;
  }

  lemma {:induction false} ThreeOnly(b: seq<Slot>, h: seq<Slot>)
    requires |b| == |h| == 3 && b[1].path == h[0].path && b[2].path == h[2].path
    requires b[0].path != h[1].path && b[1].path != b[2].path
    requires b[0].path != b[1].path && b[0].path != b[2].path && h[1].path != b[1].path && h[1].path != b[2].path
    ensures UniquePaths(b) && UniquePaths(h) && Only(b, h) == [b[0]] && Only(h, b) == [h[1]]
  {
    assert HasPath(h, b[1].path) && HasPath(h, b[2].path) && HasPath(b, h[0].path) && HasPath(b, h[2].path);
    assert !HasPath(h, b[0].path) && !HasPath(b, h[1].path);
    hide HasPath, Only;
    OnlyOne(b, h, 0);
    OnlyOne(h, b, 1);
  }

  lemma {:induction false} OneTaken(b: seq<Slot>, h: seq<Slot>, x: Slot, y: Slot)
    requires Only(b, h) == [x] && Only(h, b) == [y] && Agree(x.a, y.a)
    ensures Taken(b, h) == [Pair(0, 0)]
  {
    var gone, free := [x], [y];
    var c := CandOf(b, h, gone, free, 0, 0);
    CandPlace(b, h, gone, free, 0, 0);
    hide CandOf, Agree, Only;
    assert Row(b, h, gone, free, 0, 0) == [c] + Row(b, h, gone, free, 0, 1) == [c];
    assert Rows(b, h, gone, free, 0) == [c] + Rows(b, h, gone, free, 1) == [c];
    assert Sort([c]) == Insert(c, Sort([])) == [c];
    var t := [Pair(0, 0)];
    assert PairsOf([c]) == t && t[1..] == [];
  }

  /** One slot gone, one free, that agree: they are paired. */
  lemma {:induction false} OnePairing(b: seq<Slot>, h: seq<Slot>, x: Slot, y: Slot)
    requires Only(b, h) == [x] && Only(h, b) == [y] && Agree(x.a, y.a)
    requires !IsGuess(b, h, [x], [y], Pair(0, 0))
    ensures RenamesOf(b, h) == Renames(map[x.path := y.path], [])
  {
    OneTaken(b, h, x, y);
    TakenInRange(b, h);
    hide Taken, Agree, IsGuess, Only;
    var gone, free, t := [x], [y], [Pair(0, 0)];
    assert t[1..] == [] && t[..0] == [];
    assert PathsOf(gone, free, t) == map[x.path := y.path];
    assert GuessesOf(b, h, gone, free, t) == [];
  }

  /** The two share a relation, and nothing else is gone or free: plainly a rename. */
  lemma {:induction false} PlainlyRenamed(b: seq<Slot>, h: seq<Slot>, x: Slot, y: Slot, v: string)
    requires x.a.relations == y.a.relations == [v]
    ensures !IsGuess(b, h, [x], [y], Pair(0, 0))
  {
    hide ListedBy, PrefixOf, LeafOf, NamedBySeeds;
    assert [v][1..] == [] && SharedRelations([v], [v]) == 1 + SharedRelations([], [v]);
    assert Shared(b, h, x, y) > 0;
    assert [x][1..] == [] && CountGone([x], PrefixOf(x.path)) == 1 + CountGone([], PrefixOf(x.path));
    assert [y][1..] == [] && CountFree([y], PrefixOf(y.path)) == 1 + CountFree([], PrefixOf(y.path));
  }

  lemma {:induction false} PartedRenames(g: string, k: string, a: string, v: string)
    requires Names(g, k, a, v)
    ensures RenamesOf(BaseSlots(g, k, a, v), HeadSlots(g, k, a, v)) == Renames(map[In(g, a) := In(k, a)], [])
  {
    var b, h := BaseSlots(g, k, a, v), HeadSlots(g, k, a, v);
    PartedOnly(g, k, a, v);
    hide In, Only, UniquePaths, PlainNames, IsGuess, RenamesOf;
    PlainlyRenamed(b, h, b[0], h[1], v);
    OnePairing(b, h, b[0], h[1]);
  }

  lemma VaultAlike(r: Renames, head: map<string, Acct>, g: string, v: string)
    requires In(g, v) !in r.paths && In(g, v) in head && head[In(g, v)] == Vault(v)
    ensures SlotAlike(r, head, At(g, Vault(v)))
  {
    hide In;
  }

  lemma {:induction false} OwnerAlike(r: Renames, head: map<string, Acct>, g: string, k: string, a: string, v: string)
    requires Names(g, k, a, v) && r.paths == map[In(g, a) := In(k, a)]
    requires In(k, a) in head && head[In(k, a)] == Owner(a, v)
    ensures SlotAlike(r, head, At(g, Owner(a, v))) && !SlotTogether(r, At(g, Owner(a, v)))
    ensures HeadPath(r, In(g, a)) == In(k, a)
  {
    PathsApart(g, k, a, v);
    SiblingPlain(r, g, v);
    hide In, PrefixOf, LeafOf, Sibling, Alike, SlotTogether;
    OwnerKept(r, g, a, v);
    OwnerParted(r, g, k, a, v);
  }

  lemma OwnerKept(r: Renames, g: string, a: string, v: string)
    requires Sibling(r, g, v) == v
    ensures Alike(r, g, Owner(a, v), Owner(a, v))
  {
    hide Sibling;
  }

  lemma {:induction false} OwnerParted(r: Renames, g: string, k: string, a: string, v: string)
    requires PrefixOf(In(g, a)) == g && PrefixOf(In(k, a)) == k && LeafOf(In(g, v)) == v
    requires In(g, v) != In(k, v) && In(g, v) != In(g, a) && r.paths == map[In(g, a) := In(k, a)]
    ensures !SlotTogether(r, At(g, Owner(a, v)))
  {
    hide In, PrefixOf, LeafOf;
    assert Beside(r, In(g, a), v) == In(g, v) && HeadPath(r, In(g, a)) == In(k, a);
    assert !With(r, In(g, a), v);
    assert v in At(g, Owner(a, v)).a.relations;
  }

  lemma SiblingPlain(r: Renames, prefix: string, name: string)
    requires '.' !in name && In(prefix, name) !in r.paths
    ensures Sibling(r, prefix, name) == name
  {
    FirstDotAt(name, "");
  }

  lemma {:induction false} HeadMapAt(h: seq<Slot>, i: nat)
    requires i < |h| && UniquePaths(h)
    ensures h[i].path in HeadMap(h) && HeadMap(h)[h[i].path] == h[i].a
  {
    HeadMapHas(h);
    assert HasPath(h, h[i].path);
    var k :| 0 <= k < |h| && h[k] == Slot(h[i].path, HeadMap(h)[h[i].path]);
  }

  lemma {:induction false} PartedHas(g: string, k: string, a: string, v: string)
    requires Names(g, k, a, v)
    ensures var head := HeadMap(HeadSlots(g, k, a, v));
            && In(g, v) in head && head[In(g, v)] == Vault(v) && In(k, v) in head && head[In(k, v)] == Vault(v)
            && In(k, a) in head && head[In(k, a)] == Owner(a, v)
  {
    var h := HeadSlots(g, k, a, v);
    PartedOnly(g, k, a, v);
    hide HeadMap, UniquePaths, Only, In, PlainNames;
    HeadMapAt(h, 0);
    HeadMapAt(h, 1);
    HeadMapAt(h, 2);
  }

  lemma {:induction false} PartedVaults(g: string, k: string, a: string, v: string, r: Renames, head: map<string, Acct>)
    requires Names(g, k, a, v) && r.paths == map[In(g, a) := In(k, a)]
    requires In(g, v) in head && head[In(g, v)] == Vault(v) && In(k, v) in head && head[In(k, v)] == Vault(v)
    ensures SlotAlike(r, head, At(g, Vault(v))) && SlotAlike(r, head, At(k, Vault(v)))
  {
    PathsApart(g, k, a, v);
    assert In(g, v) !in r.paths && In(k, v) !in r.paths;
    hide *;
    VaultAlike(r, head, g, v);
    VaultAlike(r, head, k, v);
  }

  lemma {:induction false} PartedOwner(g: string, k: string, a: string, v: string, b: seq<Slot>, h: seq<Slot>)
    requires Names(g, k, a, v) && b == BaseSlots(g, k, a, v) && h == HeadSlots(g, k, a, v)
    ensures RenamesOf(b, h).guessed == [] && SlotAlike(RenamesOf(b, h), HeadMap(h), At(g, Owner(a, v)))
    ensures HeadPath(RenamesOf(b, h), In(g, a)) in HeadMap(h) && !SlotTogether(RenamesOf(b, h), At(g, Owner(a, v)))
  {
    hide *;
    PartedRenames(g, k, a, v);
    PartedHas(g, k, a, v);
    OwnerAlike(RenamesOf(b, h), HeadMap(h), g, k, a, v);
  }

  lemma {:induction false} PartedRest(g: string, k: string, a: string, v: string, b: seq<Slot>, h: seq<Slot>)
    requires Names(g, k, a, v) && b == BaseSlots(g, k, a, v) && h == HeadSlots(g, k, a, v)
    ensures SlotAlike(RenamesOf(b, h), HeadMap(h), At(g, Vault(v))) &&
              SlotAlike(RenamesOf(b, h), HeadMap(h), At(k, Vault(v)))
  {
    hide *;
    PartedRenames(g, k, a, v);
    PartedHas(g, k, a, v);
    PartedVaults(g, k, a, v, RenamesOf(b, h), HeadMap(h));
  }

  lemma PartedSigns(g: string, k: string, a: string, v: string)
    ensures !UnsignedWriter(HeadSlots(g, k, a, v))
  {
    var h := HeadSlots(g, k, a, v);
    assert h[1].a.signer;
  }

  lemma NotTogether(b: seq<Slot>, h: seq<Slot>)
    requires b != [] && HeadPath(RenamesOf(b, h), b[0].path) in HeadMap(h) && !SlotTogether(RenamesOf(b, h), b[0])
    ensures !Together(b, h)
  {
    hide RenamesOf, HeadMap, SlotTogether;
  }

  lemma {:induction false} PartedReads(g: string, k: string, a: string, v: string, b: seq<Slot>, h: seq<Slot>)
    requires Names(g, k, a, v) && b == BaseSlots(g, k, a, v) && h == HeadSlots(g, k, a, v)
    ensures RenamesOf(b, h).guessed == [] && !Together(b, h)
    ensures forall i :: 0 <= i < |b| ==> SlotAlike(RenamesOf(b, h), HeadMap(h), b[i])
  {
    hide RenamesOf, HeadMap, SlotAlike, SlotTogether, Together, In, HeadSlots, Owner, Vault;
    PartedOwner(g, k, a, v, b, h);
    PartedRest(g, k, a, v, b, h);
    assert b[0] == At(g, Owner(a, v)) && b[1] == At(g, Vault(v)) && b[2] == At(k, Vault(v));
    assert b[0].path == In(g, a) by { OwnerName(g, a, v); }
    NotTogether(b, h);
  }

  lemma OwnerName(g: string, a: string, v: string)
    ensures At(g, Owner(a, v)).path == In(g, a)
  {
  }

  /** The signer `g.a`, which `g.v` declares a `has_one` for, is paired with `k.a` of another
      composite, which `k.v` declares: the check of `g.v` is gone, and nothing is said. */
  lemma {:induction false} PartedInSilence(g: string, k: string, a: string, v: string)
    requires Names(g, k, a, v)
    ensures var b, h := Flat(PartedBase(g, k, a, v)), Flat(PartedHead(g, k, a, v));
            && UniquePaths(b) && UniquePaths(h) && PlainNames(b) && PlainNames(h)
            && DiffSlots(b, h, "ix", false, true, (false, false)) == [] && !Preserved(b, h)
  {
    var b, h := BaseSlots(g, k, a, v), HeadSlots(g, k, a, v);
    PartedFlat(g, k, a, v);
    hide *;
    PartedOnly(g, k, a, v);
    PartedReads(g, k, a, v, b, h);
    PartedSigns(g, k, a, v);
    PartsSilent(b, h, "ix", false);
    SilenceExact(b, h, "ix", false);
  }
}
