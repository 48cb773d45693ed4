/** What the report of one instruction holds (crates/solinv-static/src/idl_diff.rs, `diff_ix`): each
    finding is there exactly when the two slots say so, and fails a build exactly when the loss is
    sure. */
module IdlFindings {
  import opened Common
  import opened IdlSlots
  import opened IdlRenames
  import opened IdlDiff

  /** The findings about a slot that is still in head, by its own path or another. */
  predicate OfKeptSlot(f: Finding) {
    f.NoLongerSigner? || f.SeedsRemoved? || f.SeedsChanged? || f.AddressRemoved? || f.AddressChanged? || f.HasOneLost?
    || f.HasOneMoved? || f.NowOptional?
  }

  /** The slot beside `path` named `rel` is in head under its own path. */
  predicate StillThere(r: Renames, head: map<string, Acct>, path: string, rel: string) {
    var declarer := In(PrefixOf(path), rel);
    declarer in head && (declarer in r.paths ==> r.paths[declarer] == declarer)
  }

  /** The relation `rel` of the base slot at `path`, named `now` in head, is not in head's slot. */
  predicate LosesHasOne(r: Renames, path: string, rel: string, now: string, h: Acct) {
    now == Sibling(r, PrefixOf(path), rel) && now !in h.relations
  }

  /** `f` is due: `s` is the base slot, `h` head's, `to` its path. */
  predicate Due(r: Renames, head: map<string, Acct>, resolved: bool, legacy: (bool, bool), s: Slot, h: Acct, to: string,
      f: Finding)
  {
    match f
    case NoLongerSigner => s.a.signer && !h.signer
    case SeedsRemoved => resolved && s.a.pda.Some? && h.pda.None?
    case SeedsChanged =>
      resolved && s.a.pda.Some? && h.pda.Some? && !SameSeeds(r, PrefixOf(s.path), s.a.pda.value, h.pda.value, legacy)
    case AddressRemoved => resolved && !legacy.0 && !legacy.1 && s.a.address.Some? && h.address.None?
    case AddressChanged(was, now) =>
      resolved && !legacy.0 && !legacy.1 && s.a.address == Some(was) && h.address == Some(now) && was != now
    case HasOneLost(now, target) =>
      resolved && target == LeafOf(to) &&
      exists rel :: rel in s.a.relations && LosesHasOne(r, s.path, rel, now, h) && StillThere(r, head, s.path, rel)
    case HasOneMoved(now, target) =>
      resolved && target == LeafOf(to) &&
      exists rel :: rel in s.a.relations && LosesHasOne(r, s.path, rel, now, h) && !StillThere(r, head, s.path, rel)
    case NowOptional => !s.a.optional && h.optional
    case _ => false
  }

  /** What only a loss in place is: the signature, the seeds, the address, or a `has_one` whose
      declarer is there. */
  predicate IsLoss(f: Finding) { f.NoLongerSigner? || f.SeedsRemoved? || f.AddressRemoved? || f.HasOneLost? }

  /** `f` is said of the base slot at `path`, now at `to`. */
  predicate Said(cs: seq<Change>, path: string, to: string, f: Finding) {
    exists c :: c in cs && c.path == (path, to) && f in c.findings
  }

  // ------------------------------------------------------------- the proof

  lemma SaidConcat(a: seq<Change>, b: seq<Change>, path: string, to: string, f: Finding)
    ensures Said(a + b, path, to, f) <==> Said(a, path, to, f) || Said(b, path, to, f)
  {
    assert forall c :: c in a + b <==> c in a || c in b;
  }

  lemma SaidOne(c: Change, path: string, to: string, f: Finding)
    ensures Said([c], path, to, f) <==> c.path == (path, to) && f in c.findings
    ensures !Said([], path, to, f)
  {
    assert c in [c];
  }

  lemma SaidIf(due: bool, c: Change, path: string, to: string, f: Finding)
    ensures Said(if due then [c] else [], path, to, f) <==> due && c.path == (path, to) && f in c.findings
  {
    SaidOne(c, path, to, f);
  }

  predicate IsLost(c: Context, s: Slot, rels: seq<string>, h: Acct, now: string, there: bool) {
    exists rel :: rel in rels && LosesHasOne(c.r, s.path, rel, now, h) && StillThere(c.r, c.head, s.path, rel) == there
  }

  lemma {:induction false} RelationsSaid(c: Context, s: Slot, rels: seq<string>, h: Acct, target: string, f: Finding)
    requires c.resolved
    ensures var (lost, moved) := RelationFindings(c, PrefixOf(s.path), rels, h, target);
            && (f in lost <==> f.HasOneLost? && f.target == target && IsLost(c, s, rels, h, f.declarer, true))
            && (f in moved <==> f.HasOneMoved? && f.target == target && IsLost(c, s, rels, h, f.declarer, false))
  {
    if rels != [] {
      var init, rel := rels[..|rels| - 1], rels[|rels| - 1];
      RelationsSaid(c, s, init, h, target, f);
      assert rels == init + [rel];
      assert DeclarerKept(c, PrefixOf(s.path), rel) <==> StillThere(c.r, c.head, s.path, rel);
      LostMore(c, s, init, rel, h, f);
      hide Sibling, StillThere, DeclarerKept, PrefixOf, IsLost;
    }
  }

  lemma {:induction false} LostMore(c: Context, s: Slot, init: seq<string>, rel: string, h: Acct, f: Finding)
    ensures forall now: string, there: bool :: IsLost(c, s, init + [rel], h, now, there) <==>
              || IsLost(c, s, init, h, now, there)
              || (LosesHasOne(c.r, s.path, rel, now, h) && StillThere(c.r, c.head, s.path, rel) == there)
  {
    hide LosesHasOne, StillThere;
    assert forall x :: x in init + [rel] <==> x in init || x == rel;
  }

  /** The parts of what is said of a slot in head. */
  lemma {:induction false} PartsSaid(c: Context, s: Slot, f: Finding)
    requires HeadPath(c.r, s.path) in c.head
    ensures var hp, prefix := HeadPath(c.r, s.path), PrefixOf(s.path);
            var ha := c.head[hp];
            var (seedsGone, seedsChanged) := SeedFindings(c, prefix, s.a, ha);
            var (addressGone, addressChanged) := AddressFindings(c, s.a, ha);
            var (lost, moved) := RelationFindings(c, prefix, s.a.relations, ha, LeafOf(hp));
            forall path, to :: Said(SlotChanges(c, s), path, to, f) <==>
              path == s.path && to == hp &&
              (|| (f == NoLongerSigner && s.a.signer && !ha.signer) || f in seedsGone || f in addressGone || f in lost
               || (f == SeedsChanged && seedsChanged) || f in addressChanged || f in moved
               || (f == NowOptional && !s.a.optional && ha.optional))
  {
    hide SeedFindings, AddressFindings, RelationFindings, HeadPath, PrefixOf, LeafOf, Said;
    var hp := HeadPath(c.r, s.path);
    var ha := c.head[hp];
    var (seedsGone, seedsChanged) := SeedFindings(c, PrefixOf(s.path), s.a, ha);
    var (addressGone, addressChanged) := AddressFindings(c, s.a, ha);
    var (lost, moved) := RelationFindings(c, PrefixOf(s.path), s.a.relations, ha, LeafOf(hp));
    var removed := (if s.a.signer && !ha.signer then [NoLongerSigner] else []) + seedsGone + addressGone + lost;
    var severity := if !c.guessed && hp == s.path then Regression else Warning;
    forall path, to
      ensures Said(SlotChanges(c, s), path, to, f) <==>
              path == s.path && to == hp &&
              (|| (f == SeedsChanged && seedsChanged) || f in addressChanged || f in removed || f in moved
               || (f == NowOptional && !s.a.optional && ha.optional))
    {
      PartsTold(c.ix, s.path, hp, severity, seedsChanged, addressChanged, removed, moved, !s.a.optional && ha.optional,
        path, to, f);
    }
  }

  /** The changes of one slot, put together. */
  lemma {:induction false} PartsTold(ix: string, was: string, now: string, severity: Severity, seedsChanged: bool,
      addressChanged: seq<Finding>, removed: seq<Finding>, moved: seq<Finding>, optional: bool,
      path: string, to: string, f: Finding)
    ensures Said(
              (if seedsChanged then [Warn(ix, was, now, SeedsChanged)] else [])
              + (if addressChanged != [] then [Note(Warning, ix, was, now, addressChanged)] else [])
              + (if removed != [] then [Note(severity, ix, was, now, removed)] else [])
              + (if moved != [] then [Note(Warning, ix, was, now, moved)] else [])
              + (if optional then [Warn(ix, was, now, NowOptional)] else []), path, to, f)
            <==>
            path == was && to == now &&
            (|| (f == SeedsChanged && seedsChanged) || f in addressChanged || f in removed || f in moved
             || (f == NowOptional && optional))
  {
    hide Said;
    var one := if seedsChanged then [Warn(ix, was, now, SeedsChanged)] else [];
    var two := if addressChanged != [] then [Note(Warning, ix, was, now, addressChanged)] else [];
    var three := if removed != [] then [Note(severity, ix, was, now, removed)] else [];
    var four := if moved != [] then [Note(Warning, ix, was, now, moved)] else [];
    var five := if optional then [Warn(ix, was, now, NowOptional)] else [];
    SaidConcat(one + two + three + four, five, path, to, f);
    SaidConcat(one + two + three, four, path, to, f);
    SaidConcat(one + two, three, path, to, f);
    SaidConcat(one, two, path, to, f);
    SaidIf(seedsChanged, Warn(ix, was, now, SeedsChanged), path, to, f);
    SaidIf(addressChanged != [], Note(Warning, ix, was, now, addressChanged), path, to, f);
    SaidIf(removed != [], Note(severity, ix, was, now, removed), path, to, f);
    SaidIf(moved != [], Note(Warning, ix, was, now, moved), path, to, f);
    SaidIf(optional, Warn(ix, was, now, NowOptional), path, to, f);
  }

  lemma {:induction false} SlotSaid(c: Context, s: Slot, path: string, to: string, f: Finding)
    requires OfKeptSlot(f)
    ensures Said(SlotChanges(c, s), path, to, f) <==>
              path == s.path && to == HeadPath(c.r, path) && to in c.head &&
              Due(c.r, c.head, c.resolved, c.legacy, s, c.head[to], to, f)
  {
    var hp := HeadPath(c.r, s.path);
    if hp in c.head {
      PartsSaid(c, s, f);
      hide SlotChanges, HeadPath, Due, Said, SeedFindings, AddressFindings, RelationFindings;
      PartsDue(c, s, hp, f);
    } else {
      SaidOne(Warn(c.ix, s.path, s.path, SlotGone(Checks(s.a))), path, to, f);
    }
  }

  lemma {:induction false} PartsDue(c: Context, s: Slot, hp: string, f: Finding)
    requires OfKeptSlot(f) && hp in c.head
    ensures var prefix, ha := PrefixOf(s.path), c.head[hp];
            var (seedsGone, seedsChanged) := SeedFindings(c, prefix, s.a, ha);
            var (addressGone, addressChanged) := AddressFindings(c, s.a, ha);
            var (lost, moved) := RelationFindings(c, prefix, s.a.relations, ha, LeafOf(hp));
            Due(c.r, c.head, c.resolved, c.legacy, s, ha, hp, f) <==>
            || (f == NoLongerSigner && s.a.signer && !ha.signer) || f in seedsGone || f in addressGone || f in lost
            || (f == SeedsChanged && seedsChanged) || f in addressChanged || f in moved
            || (f == NowOptional && !s.a.optional && ha.optional)
  {
    if c.resolved { RelationsSaid(c, s, s.a.relations, c.head[hp], LeafOf(hp), f); }
    RelationKinds(c, PrefixOf(s.path), s.a.relations, c.head[hp], LeafOf(hp));
    hide PrefixOf, LeafOf, SameSeeds, StillThere, LosesHasOne;
  }

  lemma {:induction false} SlotsSaid(c: Context, b: seq<Slot>, path: string, to: string, f: Finding)
    ensures Said(AllSlotChanges(c, b), path, to, f) <==> exists s :: s in b && Said(SlotChanges(c, s), path, to, f)
  {
    hide SlotChanges, Said;
    if b != [] {
      var init, last := b[..|b| - 1], b[|b| - 1];
      SlotsSaid(c, init, path, to, f);
      SaidConcat(AllSlotChanges(c, init), SlotChanges(c, last), path, to, f);
      assert forall s :: s in b <==> s in init || s == last;
    } else {
      NothingSaid(path, to, f);
    }
  }

  lemma NothingSaid(path: string, to: string, f: Finding)
    ensures !Said([], path, to, f)
  {
  }

  lemma {:induction false} GuessesSaid(ix: string, guessed: seq<(string, string)>, path: string, to: string,
      f: Finding)
    ensures Said(Guesses(ix, guessed), path, to, f) <==> path == to && f.RenameGuessed? && (path, f.to) in guessed
  {
    if guessed != [] {
      var init, g := guessed[..|guessed| - 1], guessed[|guessed| - 1];
      GuessesSaid(ix, init, path, to, f);
      SaidConcat(Guesses(ix, init), [Warn(ix, g.0, g.0, RenameGuessed(g.1))], path, to, f);
      SaidOne(Warn(ix, g.0, g.0, RenameGuessed(g.1)), path, to, f);
      hide Said;
      assert guessed == init + [g];
    }
  }

  /** Of each part of the report. */
  lemma {:induction false} ReportSaid(b: seq<Slot>, h: seq<Slot>, ix: string, guessed: bool, resolved: bool,
      legacy: (bool, bool), path: string, to: string, f: Finding)
    ensures var c := ContextOf(b, h, ix, guessed, resolved, legacy);
            Said(DiffSlots(b, h, ix, guessed, resolved, legacy), path, to, f) <==>
            || Said(Guesses(ix, c.r.guessed), path, to, f) || Said(AllSlotChanges(c, b), path, to, f)
            || Said(SignerCountChange(c, b, h), path, to, f) || Said(WriterChange(ix, b, h), path, to, f)
  {
    var c := ContextOf(b, h, ix, guessed, resolved, legacy);
    var x, y := Guesses(ix, c.r.guessed), AllSlotChanges(c, b);
    var z, v := SignerCountChange(c, b, h), WriterChange(ix, b, h);
    assert DiffSlots(b, h, ix, guessed, resolved, legacy) == x + y + z + v;
    hide *;
    SaidConcat(x + y + z, v, path, to, f);
    SaidConcat(x + y, z, path, to, f);
    SaidConcat(x, y, path, to, f);
  }

  lemma {:induction false} WholeSaid(c: Context, b: seq<Slot>, h: seq<Slot>, path: string, to: string, f: Finding)
    ensures Said(SignerCountChange(c, b, h), path, to, f) <==>
              path == to == "" && f == FewerSigners(Signers(h), Signers(b)) && Signers(h) < Signers(b)
              && !AnySignerReported(c, b)
    ensures Said(WriterChange(c.ix, b, h), path, to, f) <==>
              path == to == "" && f == NowUnsignedWriter && UnsignedWriter(h) && !UnsignedWriter(b)
  {
    hide AnySignerReported, Signers, UnsignedWriter;
    SaidOne(Warn(c.ix, "", "", FewerSigners(Signers(h), Signers(b))), path, to, f);
    SaidOne(Warn(c.ix, "", "", NowUnsignedWriter), path, to, f);
  }

  /** Each finding about a slot that is still in head is reported, at its own path and head's, exactly
      when it is due of a base slot of that path and head's slot. */
  lemma {:induction false} FindingExact(b: seq<Slot>, h: seq<Slot>, ix: string, guessed: bool, resolved: bool,
      legacy: (bool, bool), path: string, to: string, f: Finding)
    requires OfKeptSlot(f)
    ensures var r, head := RenamesOf(b, h), HeadMap(h);
            Said(DiffSlots(b, h, ix, guessed, resolved, legacy), path, to, f) <==>
              to == HeadPath(r, path) && to in head &&
              exists s :: s in b && s.path == path && Due(r, head, resolved, legacy, s, head[to], to, f)
  {
    var c := ContextOf(b, h, ix, guessed, resolved, legacy);
    ReportSaid(b, h, ix, guessed, resolved, legacy, path, to, f);
    GuessesSaid(ix, c.r.guessed, path, to, f);
    WholeSaid(c, b, h, path, to, f);
    SlotsSaid(c, b, path, to, f);
    hide Said, DiffSlots, Guesses, AllSlotChanges, SlotChanges, SignerCountChange, WriterChange, Due, HeadPath, HeadMap,
      RenamesOf, Signers, UnsignedWriter, AnySignerReported;
    forall s ensures Said(SlotChanges(c, s), path, to, f) <==>
              path == s.path && to == HeadPath(c.r, path) && to in c.head &&
              Due(c.r, c.head, c.resolved, c.legacy, s, c.head[to], to, f) {
      SlotSaid(c, s, path, to, f);
    }
  }

  /** A slot that is gone is reported, with its checks, exactly when it checks more than an address. */
  lemma {:induction false} GoneExact(b: seq<Slot>, h: seq<Slot>, ix: string, guessed: bool, resolved: bool,
      legacy: (bool, bool), path: string, to: string, checks: seq<string>)
    ensures Said(DiffSlots(b, h, ix, guessed, resolved, legacy), path, to, SlotGone(checks)) <==>
              path == to && HeadPath(RenamesOf(b, h), path) !in HeadMap(h) &&
              exists s :: s in b && s.path == path && checks == Checks(s.a) &&
                          (s.a.signer || s.a.pda.Some? || s.a.relations != [])
  {
    var c, f := ContextOf(b, h, ix, guessed, resolved, legacy), SlotGone(checks);
    ReportSaid(b, h, ix, guessed, resolved, legacy, path, to, f);
    GuessesSaid(ix, c.r.guessed, path, to, f);
    WholeSaid(c, b, h, path, to, f);
    SlotsSaid(c, b, path, to, f);
    hide Said, DiffSlots, Guesses, AllSlotChanges, SlotChanges, SignerCountChange, WriterChange, HeadPath, HeadMap,
      RenamesOf, Signers, UnsignedWriter, AnySignerReported, Checks;
    forall s ensures Said(SlotChanges(c, s), path, to, f) <==>
              path == to == s.path && HeadPath(c.r, path) !in c.head && checks == Checks(s.a) &&
              (s.a.signer || s.a.pda.Some? || s.a.relations != []) {
      GoneSaid(c, s, path, to, checks);
    }
  }

  lemma {:induction false} GoneSaid(c: Context, s: Slot, path: string, to: string, checks: seq<string>)
    ensures Said(SlotChanges(c, s), path, to, SlotGone(checks)) <==>
              path == to == s.path && HeadPath(c.r, path) !in c.head && checks == Checks(s.a) &&
              (s.a.signer || s.a.pda.Some? || s.a.relations != [])
  {
    var hp, f := HeadPath(c.r, s.path), SlotGone(checks);
    DroppableExact(s.a);
    if hp in c.head {
      PartsSaid(c, s, f);
      if c.resolved { RelationsSaid(c, s, s.a.relations, c.head[hp], LeafOf(hp), f); }
    } else {
      hide Checks, Droppable, Said;
      SaidOne(Warn(c.ix, s.path, s.path, SlotGone(Checks(s.a))), path, to, f);
    }
  }

  lemma SameHead(x: string, y: string, said: string, tail: string)
    requires x + said + tail == y + said + tail
    ensures x == y
  {
    var rest := said + tail;
    assert x + said + tail == x + rest && y + said + tail == y + rest;
    assert |x| == |y|;
    assert x == (x + rest)[..|x|] && y == (y + rest)[..|y|];
  }

  lemma NotALabel(name: string, tail: string)
    ensures name + " has_one = " + tail != "signer" && name + " has_one = " + tail != "seeds"
        && name + " has_one = " + tail != "address"
  {
    var s := name + " has_one = " + tail;
    assert s[|name|] == ' ';
    assert s[|name|..] == " has_one = " + tail;
    assert "signer"[|"signer"| - 1] == 'r' && "seeds"[|"seeds"| - 1] == 's';
  }

  /** What a slot that is gone is said to have checked: its flags and every slot that declares it. */
  lemma ChecksExact(a: Acct, declarer: string)
    ensures "signer" in Checks(a) <==> a.signer
    ensures "seeds" in Checks(a) <==> a.pda.Some?
    ensures "address" in Checks(a) <==> a.address.Some?
    ensures declarer + " has_one = " + a.name in Checks(a) <==> declarer in a.relations
  {
    var listed := seq(|a.relations|, i requires 0 <= i < |a.relations| => a.relations[i] + " has_one = " + a.name);
    var said := declarer + " has_one = " + a.name;
    NotALabel(declarer, a.name);
    forall i | 0 <= i < |a.relations|
      ensures listed[i] != "signer" && listed[i] != "seeds" && listed[i] != "address"
      ensures listed[i] == said <==> a.relations[i] == declarer
    {
      NotALabel(a.relations[i], a.name);
      if listed[i] == said {
        SameHead(a.relations[i], declarer, " has_one = ", a.name);
      }
    }
    if declarer in a.relations {
      var i :| 0 <= i < |a.relations| && a.relations[i] == declarer;
      assert listed[i] == said;
    }
  }

  lemma DroppableExact(a: Acct)
    ensures Droppable(a) <==> !a.signer && a.pda.None? && a.relations == []
  {
  }

  /** The pairings reported as guesses are those that are. */
  lemma {:induction false} GuessExact(b: seq<Slot>, h: seq<Slot>, ix: string, guessed: bool, resolved: bool,
      legacy: (bool, bool), path: string, to: string, now: string)
    ensures Said(DiffSlots(b, h, ix, guessed, resolved, legacy), path, to, RenameGuessed(now)) <==>
              path == to && (path, now) in RenamesOf(b, h).guessed
  {
    var c, f := ContextOf(b, h, ix, guessed, resolved, legacy), RenameGuessed(now);
    ReportSaid(b, h, ix, guessed, resolved, legacy, path, to, f);
    GuessesSaid(ix, c.r.guessed, path, to, f);
    WholeSaid(c, b, h, path, to, f);
    SlotsSaid(c, b, path, to, f);
    hide Said, DiffSlots, Guesses, AllSlotChanges, SlotChanges, SignerCountChange, WriterChange, HeadPath, HeadMap,
      RenamesOf, Signers, UnsignedWriter, AnySignerReported;
    forall s ensures !Said(SlotChanges(c, s), path, to, f) {
      NoGuessSaid(c, s, path, to, now);
    }
  }

  lemma {:induction false} NoGuessSaid(c: Context, s: Slot, path: string, to: string, now: string)
    ensures !Said(SlotChanges(c, s), path, to, RenameGuessed(now))
  {
    var hp, f := HeadPath(c.r, s.path), RenameGuessed(now);
    if hp in c.head {
      PartsSaid(c, s, f);
      if c.resolved { RelationsSaid(c, s, s.a.relations, c.head[hp], LeafOf(hp), f); }
    } else {
      SaidOne(Warn(c.ix, s.path, s.path, SlotGone(Checks(s.a))), path, to, f);
    }
  }

  /** An instruction newly without a signer that writes what is unchecked is reported as one. */
  lemma {:induction false} WriterExact(b: seq<Slot>, h: seq<Slot>, ix: string, guessed: bool, resolved: bool,
      legacy: (bool, bool))
    ensures Said(DiffSlots(b, h, ix, guessed, resolved, legacy), "", "", NowUnsignedWriter) <==>
              UnsignedWriter(h) && !UnsignedWriter(b)
  {
    var c, f := ContextOf(b, h, ix, guessed, resolved, legacy), NowUnsignedWriter;
    ReportSaid(b, h, ix, guessed, resolved, legacy, "", "", f);
    GuessesSaid(ix, c.r.guessed, "", "", f);
    WholeSaid(c, b, h, "", "", f);
    SlotsSaid(c, b, "", "", f);
    hide Said, DiffSlots, Guesses, AllSlotChanges, SlotChanges, SignerCountChange, WriterChange, HeadPath, HeadMap,
      RenamesOf, Signers, UnsignedWriter, AnySignerReported;
    forall s ensures !Said(SlotChanges(c, s), "", "", f) {
      NoWriterSaid(c, s);
    }
  }

  lemma {:induction false} NoWriterSaid(c: Context, s: Slot)
    ensures !Said(SlotChanges(c, s), "", "", NowUnsignedWriter)
  {
    var hp, f := HeadPath(c.r, s.path), NowUnsignedWriter;
    if hp in c.head {
      PartsSaid(c, s, f);
      if c.resolved { RelationsSaid(c, s, s.a.relations, c.head[hp], LeafOf(hp), f); }
    } else {
      SaidOne(Warn(c.ix, s.path, s.path, SlotGone(Checks(s.a))), "", "", f);
    }
  }

  /** Two constant seeds agree exactly when they are the same bytes, and both or neither are what a
      legacy IDL could not convert: the mark counts only where the IDL is of that format. */
  lemma ConstSeedsExact(r: Renames, prefix: string, x: seq<byte>, y: seq<byte>, legacy: (bool, bool))
    ensures SeedKeyOf(r, prefix, Const(x), legacy.0) == SeedKeyOf(NoRenames, "", Const(y), legacy.1) <==>
              x == y && (UNCONVERTED <= x ==> legacy.0 == legacy.1)
  {
  }

  // ----------------------------------------------------------------- severity

  /** A change fails a build exactly when the instruction was not guessed, the slot kept its path, and
      a loss is among what it says. */
  ghost predicate Graded(c: Change, guessed: bool) {
    c.severity.Regression? <==> !guessed && c.path.0 == c.path.1 && exists f :: f in c.findings && IsLoss(f)
  }

  ghost predicate AllGraded(cs: seq<Change>, ix: string, guessed: bool) {
    forall c :: c in cs ==> Graded(c, guessed) && c.ixs == [ix] && c.insteadOf == None
  }

  lemma WarnGraded(ix: string, path: string, to: string, f: Finding, guessed: bool)
    requires !IsLoss(f)
    ensures AllGraded([Warn(ix, path, to, f)], ix, guessed)
  {
  }

  lemma {:induction false} GuessesGraded(ix: string, guesses: seq<(string, string)>, guessed: bool)
    ensures AllGraded(Guesses(ix, guesses), ix, guessed)
  {
    if guesses != [] {
      GuessesGraded(ix, guesses[..|guesses| - 1], guessed);
      var g := guesses[|guesses| - 1];
      WarnGraded(ix, g.0, g.0, RenameGuessed(g.1), guessed);
    }
  }

  lemma {:induction false} RemovedKinds(c: Context, s: Slot, h: Acct, to: string)
    ensures var (seedsGone, _) := SeedFindings(c, PrefixOf(s.path), s.a, h); forall f :: f in seedsGone ==> IsLoss(f)
    ensures var (addressGone, addressChanged) := AddressFindings(c, s.a, h);
            && (forall f :: f in addressGone ==> IsLoss(f)) && (forall f :: f in addressChanged ==> !IsLoss(f))
    ensures var (lost, moved) := RelationFindings(c, PrefixOf(s.path), s.a.relations, h, to);
            && (forall f :: f in lost ==> IsLoss(f)) && (forall f :: f in moved ==> !IsLoss(f))
  {
    RelationKinds(c, PrefixOf(s.path), s.a.relations, h, to);
    hide PrefixOf, SameSeeds, RelationFindings;
  }

  lemma {:induction false} RelationKinds(c: Context, prefix: string, rels: seq<string>, h: Acct, to: string)
    ensures var (lost, moved) := RelationFindings(c, prefix, rels, h, to);
            (forall f :: f in lost ==> f.HasOneLost?) && (forall f :: f in moved ==> f.HasOneMoved?)
  {
    hide Sibling, DeclarerKept;
    if c.resolved && rels != [] { RelationKinds(c, prefix, rels[..|rels| - 1], h, to); }
  }

  lemma NoteGraded(severity: Severity, ix: string, path: string, to: string, fs: seq<Finding>, guessed: bool)
    requires fs != [] && ((forall f :: f in fs ==> IsLoss(f)) || (forall f :: f in fs ==> !IsLoss(f)))
    requires severity.Regression? <==> !guessed && path == to && IsLoss(fs[0])
    ensures AllGraded([Note(severity, ix, path, to, fs)], ix, guessed)
  {
    assert fs[0] in fs;
  }

  lemma GradedConcat(a: seq<Change>, b: seq<Change>, ix: string, guessed: bool)
    requires AllGraded(a, ix, guessed) && AllGraded(b, ix, guessed)
    ensures AllGraded(a + b, ix, guessed)
  {
    hide Graded;
  }

  lemma {:induction false} SlotGraded(c: Context, s: Slot)
    ensures AllGraded(SlotChanges(c, s), c.ix, c.guessed)
  {
    var hp := HeadPath(c.r, s.path);
    if hp in c.head {
      var ha, prefix := c.head[hp], PrefixOf(s.path);
      RemovedKinds(c, s, ha, LeafOf(hp));
      hide SeedFindings, AddressFindings, RelationFindings, HeadPath, PrefixOf, LeafOf, Graded, AllGraded;
      var (seedsGone, seedsChanged) := SeedFindings(c, prefix, s.a, ha);
      var (addressGone, addressChanged) := AddressFindings(c, s.a, ha);
      var (lost, moved) := RelationFindings(c, prefix, s.a.relations, ha, LeafOf(hp));
      var removed := (if s.a.signer && !ha.signer then [NoLongerSigner] else []) + seedsGone + addressGone + lost;
      var severity := if !c.guessed && hp == s.path then Regression else Warning;
      var a := if seedsChanged then [Warn(c.ix, s.path, hp, SeedsChanged)] else [];
      var b := if addressChanged != [] then [Note(Warning, c.ix, s.path, hp, addressChanged)] else [];
      var d := if removed != [] then [Note(severity, c.ix, s.path, hp, removed)] else [];
      var e := if moved != [] then [Note(Warning, c.ix, s.path, hp, moved)] else [];
      var g := if !s.a.optional && ha.optional then [Warn(c.ix, s.path, hp, NowOptional)] else [];
      FiveGraded(c, s.path, hp, addressChanged, removed, moved);
      GradedConcat(a, b, c.ix, c.guessed);
      GradedConcat(a + b, d, c.ix, c.guessed);
      GradedConcat(a + b + d, e, c.ix, c.guessed);
      GradedConcat(a + b + d + e, g, c.ix, c.guessed);
    } else {
      WarnGraded(c.ix, s.path, s.path, SlotGone(Checks(s.a)), c.guessed);
    }
  }

  lemma {:induction false} FiveGraded(c: Context, path: string, hp: string, changed: seq<Finding>,
      removed: seq<Finding>, moved: seq<Finding>)
    requires forall f :: f in removed ==> IsLoss(f)
    requires (forall f :: f in changed ==> !IsLoss(f)) && (forall f :: f in moved ==> !IsLoss(f))
    ensures AllGraded([], c.ix, c.guessed) && AllGraded([Warn(c.ix, path, hp, SeedsChanged)], c.ix, c.guessed)
    ensures AllGraded([Warn(c.ix, path, hp, NowOptional)], c.ix, c.guessed)
    ensures changed != [] ==> AllGraded([Note(Warning, c.ix, path, hp, changed)], c.ix, c.guessed)
    ensures moved != [] ==> AllGraded([Note(Warning, c.ix, path, hp, moved)], c.ix, c.guessed)
    ensures removed != [] ==> AllGraded([Note(if !c.guessed && hp == path then Regression else Warning,
        c.ix, path, hp, removed)], c.ix, c.guessed)
  {
    WarnGraded(c.ix, path, hp, SeedsChanged, c.guessed);
    WarnGraded(c.ix, path, hp, NowOptional, c.guessed);
    if changed != [] {
      assert changed[0] in changed;
      NoteGraded(Warning, c.ix, path, hp, changed, c.guessed);
    }
    if moved != [] {
      assert moved[0] in moved;
      NoteGraded(Warning, c.ix, path, hp, moved, c.guessed);
    }
    if removed != [] {
      assert removed[0] in removed;
      NoteGraded(if !c.guessed && hp == path then Regression else Warning, c.ix, path, hp, removed, c.guessed);
    }
  }

  lemma {:induction false} SlotsGraded(c: Context, b: seq<Slot>)
    ensures AllGraded(AllSlotChanges(c, b), c.ix, c.guessed)
  {
    hide SlotChanges, Graded;
    if b != [] {
      SlotsGraded(c, b[..|b| - 1]);
      SlotGraded(c, b[|b| - 1]);
      GradedConcat(AllSlotChanges(c, b[..|b| - 1]), SlotChanges(c, b[|b| - 1]), c.ix, c.guessed);
    }
  }

  /** A change in the report of an instruction is a regression exactly when the instruction was not
      guessed, the slot is still at its path, and its signature, seeds, address or a `has_one` whose
      declarer is there is lost. */
  lemma {:induction false} SeverityExact(b: seq<Slot>, h: seq<Slot>, ix: string, guessed: bool, resolved: bool,
      legacy: (bool, bool))
    ensures AllGraded(DiffSlots(b, h, ix, guessed, resolved, legacy), ix, guessed)
  {
    var c := ContextOf(b, h, ix, guessed, resolved, legacy);
    var x, y := Guesses(ix, c.r.guessed), AllSlotChanges(c, b);
    var z, v := SignerCountChange(c, b, h), WriterChange(ix, b, h);
    assert DiffSlots(b, h, ix, guessed, resolved, legacy) == x + y + z + v;
    WarnGraded(ix, "", "", FewerSigners(Signers(h), Signers(b)), guessed);
    WarnGraded(ix, "", "", NowUnsignedWriter, guessed);
    hide Guesses, AllSlotChanges, RenamesOf, HeadMap, DiffSlots, Graded, AnySignerReported, Signers, UnsignedWriter;
    GuessesGraded(ix, c.r.guessed, guessed);
    SlotsGraded(c, b);
    GradedConcat(x, y, ix, guessed);
    GradedConcat(x + y, z, ix, guessed);
    GradedConcat(x + y + z, v, ix, guessed);
  }

  /** No slot signs, and some slot that is written declares neither seeds nor an address. */
  lemma {:induction false} UnsignedWriterExact(slots: seq<Slot>)
    ensures UnsignedWriter(slots) <==>
              && (forall s :: s in slots ==> !s.a.signer)
              && (exists s :: s in slots && s.a.writable && s.a.pda.None? && s.a.address.None?)
  {
    if UnsignedWriter(slots) {
      var i :| 0 <= i < |slots| && slots[i].a.writable && IsSilent(slots[i].a);
      assert slots[i] in slots;
    }
    if (forall s :: s in slots ==> !s.a.signer) &&
        exists s :: s in slots && s.a.writable && s.a.pda.None? && s.a.address.None? {
      var s :| s in slots && s.a.writable && s.a.pda.None? && s.a.address.None?;
      var i :| 0 <= i < |slots| && slots[i] == s;
      assert IsSilent(slots[i].a);
    }
  }
}
