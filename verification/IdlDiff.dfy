/** What an IDL update removes (crates/solinv-static/src/idl_diff.rs), and what its silence
    means. Messages are kept as what they say, not their wording. */
module IdlDiff {
  import opened Common
  import opened IdlSlots
  import opened IdlRenames

  datatype Severity = Regression | Warning

  datatype Finding =
    | RenameGuessed(to: string)
    | SlotGone(checks: seq<string>)
    | NoLongerSigner
    | SeedsRemoved
    | SeedsChanged
    | AddressRemoved
    | AddressChanged(was: string, now: string)
    | HasOneLost(declarer: string, target: string)
    | HasOneMoved(declarer: string, target: string)
    | NowOptional
    | FewerSigners(left: nat, had: nat)
    | NowUnsignedWriter
    | BuiltWithoutResolution
    | InstructionRemoved(closest: string)
    | NewUnsignedWriter

  /** `path`: the base slot's path and, when it was paired with another, head's. `insteadOf`: the
      base instruction, when it was paired with one of another name. */
  datatype Change = Change(severity: Severity, ixs: seq<string>, path: (string, string), findings: seq<Finding>,
      insteadOf: Option<string>)

  function Note(severity: Severity, ix: string, path: string, to: string, fs: seq<Finding>): Change {
    Change(severity, [ix], (path, to), fs, None)
  }

  function Warn(ix: string, path: string, to: string, f: Finding): Change { Note(Warning, ix, path, to, [f]) }

  // ------------------------------------------------------- one slot's checks

  function Checks(a: Acct): seq<string> {
    (if a.signer then ["signer"] else [])
    + (if a.pda.Some? then ["seeds"] else [])
    + (if a.address.Some? then ["address"] else [])
    + seq(|a.relations|, i requires 0 <= i < |a.relations| => a.relations[i] + " has_one = " + a.name)
  }

  /** A slot whose removal loosens nothing: unchecked, or checked by a fixed address only. */
  predicate Droppable(a: Acct) {
    var n := |Checks(a)|;
    n == 0 || (n == 1 && a.address.Some?)
  }

  /** A sibling name, as head calls it, seen from the composite `prefix`. */
  function Sibling(r: Renames, prefix: string, name: string): string {
    var first := FirstSegment(name);
    var full := In(prefix, first);
    var renamed := if full in r.paths then LeafOf(r.paths[full]) else first;
    match FirstDot(name)
    case Some(i) => renamed + "." + name[i + 1..]
    case None => renamed
  }

  /** What two seeds are compared by. */
  datatype SeedKey =
    | Unconverted(value: seq<byte>)
    | KeyConst(value: seq<byte>)
    | KeyAccount(path: string)
    | KeyArg(path: string)

  /** What marks a legacy seed that was not converted: `\0solinv:unconverted-const-seed:`. */
  const UNCONVERTED: seq<byte> := [
    0, 115, 111, 108, 105, 110, 118, 58, 117, 110, 99, 111, 110, 118, 101, 114,
    116, 101, 100, 45, 99, 111, 110, 115, 116, 45, 115, 101, 101, 100, 58]

  function SeedKeyOf(r: Renames, prefix: string, s: Seed, legacy: bool): SeedKey {
    match s
    case Const(v) => if legacy && UNCONVERTED <= v then Unconverted(v) else KeyConst(v)
    case Account(path, _) => KeyAccount(Sibling(r, prefix, path))
    case Arg(path) => KeyArg(path)
  }

  function SeedKeys(r: Renames, prefix: string, seeds: seq<Seed>, legacy: bool): (k: seq<SeedKey>)
    ensures |k| == |seeds| && forall i :: 0 <= i < |seeds| ==> k[i] == SeedKeyOf(r, prefix, seeds[i], legacy)
  {
    seq(|seeds|, i requires 0 <= i < |seeds| => SeedKeyOf(r, prefix, seeds[i], legacy))
  }

  function ProgramKey(r: Renames, prefix: string, program: Option<Seed>, legacy: bool): Option<SeedKey> {
    match program case Some(s) => Some(SeedKeyOf(r, prefix, s, legacy)) case None => None
  }

  const NoRenames: Renames := Renames(map[], [])

  predicate SameSeeds(r: Renames, prefix: string, b: Pda, h: Pda, legacy: (bool, bool)) {
    && SeedKeys(r, prefix, b.seeds, legacy.0) == SeedKeys(NoRenames, "", h.seeds, legacy.1)
    && ProgramKey(r, prefix, b.program, legacy.0) == ProgramKey(NoRenames, "", h.program, legacy.1)
  }

  /** Head's slots by path; of two with one path, the last. */
  function HeadMap(h: seq<Slot>): map<string, Acct> {
    if h == [] then map[] else HeadMap(h[..|h| - 1])[h[|h| - 1].path := h[|h| - 1].a]
  }

  // ------------------------------------------------------------ the findings

  /** What compares one instruction: the pairing, head's slots, and what may be compared. */
  datatype Context = Context(ix: string, r: Renames, head: map<string, Acct>, guessed: bool, resolved: bool,
      legacy: (bool, bool))

  function SeedFindings(c: Context, prefix: string, b: Acct, h: Acct): (seq<Finding>, bool) {
    if !c.resolved || b.pda.None? then ([], false)
    else if h.pda.None? then ([SeedsRemoved], false)
    else ([], !SameSeeds(c.r, prefix, b.pda.value, h.pda.value, c.legacy))
  }

  function AddressFindings(c: Context, b: Acct, h: Acct): (seq<Finding>, seq<Finding>) {
    if !c.resolved || c.legacy.0 || c.legacy.1 || b.address.None? then ([], [])
    else if h.address.None? then ([AddressRemoved], [])
    else if b.address != h.address then ([], [AddressChanged(b.address.value, h.address.value)])
    else ([], [])
  }

  /** The declarer of a relation is still there under its name. */
  predicate DeclarerKept(c: Context, prefix: string, rel: string) {
    var declarer := In(prefix, rel);
    HeadPath(c.r, declarer) == declarer && declarer in c.head
  }

  /** The relations lost: surely, and not surely. */
  function RelationFindings(c: Context, prefix: string, rels: seq<string>, h: Acct, target: string)
    : (seq<Finding>, seq<Finding>)
  {
    if !c.resolved || rels == [] then ([], [])
    else
      var (sure, unsure) := RelationFindings(c, prefix, rels[..|rels| - 1], h, target);
      var rel := rels[|rels| - 1];
      var now := Sibling(c.r, prefix, rel);
      if now in h.relations then (sure, unsure)
      else if DeclarerKept(c, prefix, rel) then (sure + [HasOneLost(now, target)], unsure)
      else (sure, unsure + [HasOneMoved(now, target)])
  }

  function SlotChanges(c: Context, s: Slot): seq<Change> {
    var hp := HeadPath(c.r, s.path);
    var prefix := PrefixOf(s.path);
    if hp !in c.head then
      if Droppable(s.a) then [] else [Warn(c.ix, s.path, s.path, SlotGone(Checks(s.a)))]
    else
      var ha := c.head[hp];
      var (seedsGone, seedsChanged) := SeedFindings(c, prefix, s.a, ha);
      var (addressGone, addressChanged) := AddressFindings(c, s.a, ha);
      var (lost, loosened) := RelationFindings(c, prefix, s.a.relations, ha, LeafOf(hp));
      var removed := (if s.a.signer && !ha.signer then [NoLongerSigner] else []) + seedsGone + addressGone + lost;
      var severity := if !c.guessed && hp == s.path then Regression else Warning;
      (if seedsChanged then [Warn(c.ix, s.path, hp, SeedsChanged)] else [])
      + (if addressChanged != [] then [Note(Warning, c.ix, s.path, hp, addressChanged)] else [])
      + (if removed != [] then [Note(severity, c.ix, s.path, hp, removed)] else [])
      + (if loosened != [] then [Note(Warning, c.ix, s.path, hp, loosened)] else [])
      + (if !s.a.optional && ha.optional then [Warn(c.ix, s.path, hp, NowOptional)] else [])
  }

  /** A lost signature is reported on the slot. */
  predicate SignerReported(c: Context, s: Slot) {
    var hp := HeadPath(c.r, s.path);
    s.a.signer && if hp in c.head then !c.head[hp].signer else !Droppable(s.a)
  }

  function AllSlotChanges(c: Context, b: seq<Slot>): seq<Change> {
    if b == [] then [] else AllSlotChanges(c, b[..|b| - 1]) + SlotChanges(c, b[|b| - 1])
  }

  predicate AnySignerReported(c: Context, b: seq<Slot>) { exists i :: 0 <= i < |b| && SignerReported(c, b[i]) }

  function Guesses(ix: string, guessed: seq<(string, string)>): seq<Change> {
    if guessed == [] then []
    else
      var g := guessed[|guessed| - 1];
      Guesses(ix, guessed[..|guessed| - 1]) + [Warn(ix, g.0, g.0, RenameGuessed(g.1))]
  }

  function ContextOf(b: seq<Slot>, h: seq<Slot>, ix: string, guessed: bool, resolved: bool,
      legacy: (bool, bool)): Context {
    Context(ix, RenamesOf(b, h), HeadMap(h), guessed, resolved, legacy)
  }

  function SignerCountChange(c: Context, b: seq<Slot>, h: seq<Slot>): seq<Change> {
    if Signers(h) < Signers(b) && !AnySignerReported(c, b) then
      [Warn(c.ix, "", "", FewerSigners(Signers(h), Signers(b)))]
    else []
  }

  function WriterChange(ix: string, b: seq<Slot>, h: seq<Slot>): seq<Change> {
    if !UnsignedWriter(b) && UnsignedWriter(h) then [Warn(ix, "", "", NowUnsignedWriter)] else []
  }

  /** The findings of one instruction, in the report's order. */
  function DiffSlots(b: seq<Slot>, h: seq<Slot>, ix: string, guessed: bool, resolved: bool,
      legacy: (bool, bool)): seq<Change> {
    var c := ContextOf(b, h, ix, guessed, resolved, legacy);
    Guesses(ix, c.r.guessed) + AllSlotChanges(c, b) + SignerCountChange(c, b, h) + WriterChange(ix, b, h)
  }

  /** `diff_ix`: the guesses, then the base slots, then the instruction as a whole. */
  method DiffIx(bix: Ix, hix: Ix, guessed: bool, resolved: bool, legacy: (bool, bool)) returns (out: seq<Change>)
    ensures out == DiffSlots(Flat(bix), Flat(hix), hix.name, guessed, resolved, legacy)
  {
    var b := FlatAccounts(bix);
    var h := FlatAccounts(hix);
    var head := BuildHeadMap(h);
    var r := FindRenames(b, h);
    var c := Context(hix.name, r, head, guessed, resolved, legacy);
    var guesses := ReportGuesses(hix.name, r.guessed);
    var slots, reported := ReportSlots(c, b);
    var fewer := ReportCount(c, b, h, reported);
    out := guesses + slots + fewer + WriterChange(hix.name, b, h);
  }

  method ReportCount(c: Context, b: seq<Slot>, h: seq<Slot>, reported: bool) returns (out: seq<Change>)
    requires reported <==> AnySignerReported(c, b)
    ensures out == SignerCountChange(c, b, h)
  {
    out := [];
    if Signers(h) < Signers(b) && !reported {
      out := [Warn(c.ix, "", "", FewerSigners(Signers(h), Signers(b)))];
    }
  }

  method ReportGuesses(ix: string, guessed: seq<(string, string)>) returns (out: seq<Change>)
    ensures out == Guesses(ix, guessed)
  {
    out := [];
    for i := 0 to |guessed|
      invariant out == Guesses(ix, guessed[..i])
    {
      assert guessed[..i + 1][..i] == guessed[..i];
      out := out + [Warn(ix, guessed[i].0, guessed[i].0, RenameGuessed(guessed[i].1))];
    }
    assert guessed[..|guessed|] == guessed;
  }

  /** The base slots in order; `reported`: a slot was reported to have lost its signature. */
  method ReportSlots(c: Context, b: seq<Slot>) returns (out: seq<Change>, reported: bool)
    ensures out == AllSlotChanges(c, b) && (reported <==> AnySignerReported(c, b))
  {
    hide SlotChanges, SignerReported;
    out, reported := [], false;
    for i := 0 to |b|
      invariant out == AllSlotChanges(c, b[..i])
      invariant reported <==> exists j :: 0 <= j < i && SignerReported(c, b[j])
    {
      assert b[..i + 1][..i] == b[..i];
      reported := reported || SignerReported(c, b[i]);
      out := out + SlotChanges(c, b[i]);
    }
    assert b[..|b|] == b;
  }

  method BuildHeadMap(h: seq<Slot>) returns (m: map<string, Acct>)
    ensures m == HeadMap(h)
  {
    m := map[];
    for i := 0 to |h|
      invariant m == HeadMap(h[..i])
    {
      assert h[..i + 1][..i] == h[..i];
      m := m[h[i].path := h[i].a];
    }
    assert h[..|h|] == h;
  }

  // ---------------------------------------------------- the signer count

  lemma HasPathAppend(init: seq<Slot>, last: Slot, p: string)
    ensures HasPath(init + [last], p) <==> HasPath(init, p) || p == last.path
  {
    var h := init + [last];
    if HasPath(init, p) {
      var i :| 0 <= i < |init| && init[i].path == p;
      assert h[i].path == p;
    }
    assert h[|init|].path == last.path;
  }

  lemma HeadMapHas(h: seq<Slot>)
    ensures forall p :: p in HeadMap(h) <==> HasPath(h, p)
    ensures forall p :: p in HeadMap(h) ==> exists i :: 0 <= i < |h| && h[i] == Slot(p, HeadMap(h)[p])
  {
    if h != [] {
      var init, last := h[..|h| - 1], h[|h| - 1];
      HeadMapHas(init);
      forall p ensures HasPath(h, p) <==> HasPath(init, p) || p == last.path {
        assert h == init + [last];
        HasPathAppend(init, last, p);
      }
      forall p | p in HeadMap(h) ensures exists i :: 0 <= i < |h| && h[i] == Slot(p, HeadMap(h)[p]) {
        if p == last.path {
          assert h[|h| - 1] == Slot(p, HeadMap(h)[p]);
        } else {
          var i :| 0 <= i < |init| && init[i] == Slot(p, HeadMap(init)[p]);
          assert h[i] == init[i];
        }
      }
    }
  }

  function SignerPaths(s: seq<Slot>): set<string> { set i | 0 <= i < |s| && s[i].a.signer :: s[i].path }

  lemma SignerPathsFirst(s: seq<Slot>)
    requires s != []
    ensures SignerPaths(s) == (if s[0].a.signer then {s[0].path} else {}) + SignerPaths(s[1..])
    ensures UniquePaths(s) ==> s[0].path !in SignerPaths(s[1..])
  {
    assert s == [s[0]] + s[1..];
    forall i | 0 <= i < |s[1..]| ensures s[1..][i] == s[i + 1] {
    }
    forall p | p in SignerPaths(s) ensures p in (if s[0].a.signer then {s[0].path} else {}) + SignerPaths(s[1..]) {
      var i :| 0 <= i < |s| && s[i].a.signer && s[i].path == p;
      if i > 0 { assert s[1..][i - 1].path == p; }
    }
  }

  lemma {:induction false} SignerPathsCount(s: seq<Slot>)
    ensures |SignerPaths(s)| <= Signers(s)
    ensures UniquePaths(s) ==> |SignerPaths(s)| == Signers(s)
  {
    if s != [] {
      SignerPathsCount(s[1..]);
      SignerPathsFirst(s);
      hide SignerPaths;
      if UniquePaths(s) { assert UniquePaths(s[1..]); }
    }
  }

  /** An injection from one set into another makes it no larger. */
  lemma InjectionSize(xs: set<string>, ys: set<string>, f: string -> string)
    requires forall x :: x in xs ==> f(x) in ys
    requires forall x, y :: x in xs && y in xs && f(x) == f(y) ==> x == y
    ensures |xs| <= |ys|
  {
    if xs != {} {
      var x :| x in xs;
      InjectionSize(xs - {x}, ys - {f(x)}, f);
    }
  }

  /** When no slot is reported to have lost its signature, head has at least as many signers: with
      unique slot paths the warning on the count alone never fires. */
  lemma {:induction false} CountWarningNeverFires(b: seq<Slot>, h: seq<Slot>, ix: string, guessed: bool, resolved: bool,
      legacy: (bool, bool))
    requires UniquePaths(b) && UniquePaths(h)
    ensures var c := ContextOf(b, h, ix, guessed, resolved, legacy);
            (!AnySignerReported(c, b) ==> Signers(b) <= Signers(h)) && SignerCountChange(c, b, h) == []
  {
    var c := ContextOf(b, h, ix, guessed, resolved, legacy);
    if !AnySignerReported(c, b) {
      HeadMapHas(h);
      SignerPathsCount(b);
      SignerPathsCount(h);
      var f := path => HeadPath(c.r, path);
      forall p | p in SignerPaths(b) ensures f(p) in SignerPaths(h) {
        var i :| 0 <= i < |b| && b[i].a.signer && b[i].path == p;
        assert !SignerReported(c, b[i]);
        SignerNotDroppable(b[i].a);
        var k :| 0 <= k < |h| && h[k] == Slot(f(p), c.head[f(p)]);
      }
      forall x, y | x in SignerPaths(b) && y in SignerPaths(b) && f(x) == f(y) ensures x == y {
        HeadPathInjective(b, h, x, y);
      }
      InjectionSize(SignerPaths(b), SignerPaths(h), f);
    }
  }

  lemma SignerNotDroppable(a: Acct)
    requires a.signer
    ensures !Droppable(a)
  {
  }

  /** A base with two slots of one path, one a signer, loses a signer on the count alone. */
  lemma CountWarningDuplicates()
    ensures var s := Acct("a", false, true, false, None, None, []);
            var b, h := [Slot("a", s), Slot("a", s)], [Slot("a", s)];
            SignerCountChange(ContextOf(b, h, "ix", false, true, (false, false)), b, h) != []
  {
    var s := Acct("a", false, true, false, None, None, []);
    var b, h := [Slot("a", s), Slot("a", s)], [Slot("a", s)];
    var c := ContextOf(b, h, "ix", false, true, (false, false));
    assert h[..0] == [] && HeadMap(h) == map["a" := s];
    HeadPathGoes(b, h, "a");
    assert HasPath(h, "a") by { assert h[0].path == "a"; }
    assert forall i :: 0 <= i < |b| ==> !SignerReported(c, b[i]);
    assert b[1..] == h && Signers(h) == 1 + Signers(h[1..]) == 1;
  }
}
