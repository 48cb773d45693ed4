/** What the report of two IDLs holds (crates/solinv-static/src/idl_diff.rs, `diff_idl`): which
    instructions are compared, what is said of those that are not, and what collapsing keeps. */
module IdlReport {
  import opened Common
  import opened IdlSlots
  import opened IdlRenames
  import opened IdlDiff
  import opened IdlProgram

  // -------------------------------------------------- renamed instructions

  /** The slots of `h` that `b` has under the same path. */
  function InBoth(b: Ix, h: Ix): set<nat> {
    set i | 0 <= i < |Flat(h)| && exists k :: 0 <= k < |Flat(b)| && Flat(b)[k].path == Flat(h)[i].path
  }

  /** The paths of `b`'s slots. */
  function Paths(b: Ix): set<string> { set k | 0 <= k < |Flat(b)| :: Flat(b)[k].path }

  lemma {:induction false} CommonCounted(slots: seq<Slot>, names: set<string>)
    ensures InCommon(slots, names) == |set i | 0 <= i < |slots| && slots[i].path in names|
  {
    CommonFrom(slots, names, 0);
    assert (set i | 0 <= i < |slots| && slots[i].path in names) ==
           set i | 0 <= i < |slots| && slots[i].path in names && i >= 0;
    assert slots[0..] == slots;
  }

  lemma {:induction false} CommonFrom(slots: seq<Slot>, names: set<string>, from: nat)
    requires from <= |slots|
    ensures InCommon(slots[from..], names) == |set i | 0 <= i < |slots| && slots[i].path in names && i >= from|
    decreases |slots| - from
  {
    var here := set i | 0 <= i < |slots| && slots[i].path in names && i >= from;
    if from < |slots| {
      CommonFrom(slots, names, from + 1);
      assert slots[from..][1..] == slots[from + 1..];
      var rest := set i | 0 <= i < |slots| && slots[i].path in names && i >= from + 1;
      assert here == rest + if slots[from].path in names then {from} else {};
    } else {
      assert here == {};
    }
  }

  /** An instruction may be another renamed exactly when the arguments are the same and the slot names
      in common are three quarters of those of each, or nine tenths when there are no arguments. */
  lemma {:induction false} MayRenameExact(b: Ix, h: Ix)
    ensures MayRename(b, h) <==>
              && h.args == b.args
              && (b.args != [] ==> 4 * |InBoth(b, h)| >= 3 * |Paths(b)| && 4 * |InBoth(b, h)| >= 3 * |Flat(h)|)
              && (b.args == [] ==> 10 * |InBoth(b, h)| >= 9 * |Paths(b)| && 10 * |InBoth(b, h)| >= 9 * |Flat(h)|)
  {
    var names := PathSet(Flat(b));
    CommonCounted(Flat(h), names);
    assert InBoth(b, h) == set i | 0 <= i < |Flat(h)| && Flat(h)[i].path in names;
    assert names == Paths(b);
    hide InBoth, Paths, InCommon, Flat;
  }

  /** A gone instruction stands for a new one of that name that it may be renamed to. */
  ghost predicate StandsFor(gone: seq<Ix>, arrived: seq<Ix>, b: Ix, name: string) {
    b in gone && exists h :: h in arrived && h.name == name && MayRename(b, h)
  }

  /** Each new instruction stands for at most one that is gone and may be it renamed; what is unmatched
      is the rest; and no gone one with slots is left that an unmatched one may be. */
  ghost predicate Pairs(gone: seq<Ix>, arrived: seq<Ix>, p: Pairing) {
    && (forall n :: n in p.replaced ==> StandsFor(gone, arrived, p.replaced[n], n))
    && (forall h :: h in p.unmatched <==> h in arrived && h.name !in p.replaced)
    && (forall b, h :: b in gone && h in p.unmatched && Flat(b) != [] && MayRename(b, h) ==> Replaced(p, b.name))
  }

  lemma {:induction false} PairsMore(gone: seq<Ix>, arrived: seq<Ix>, p: Pairing, b: Ix, h: Ix)
    requires Pairs(gone, arrived, p) && h in p.unmatched && MayRename(b, h)
    ensures Pairs(gone + [b], arrived, Pairing(Without(p.unmatched, h.name), p.replaced[h.name := b]))
  {
    hide MayRename, Flat;
    var q := Pairing(Without(p.unmatched, h.name), p.replaced[h.name := b]);
    assert q.replaced[h.name] == b;
    forall n | Replaced(p, n) ensures Replaced(q, n) {
      var m :| m in p.replaced && p.replaced[m].name == n;
      assert q.replaced[m] == p.replaced[m];
    }
    assert Replaced(q, b.name);
    forall n | n in q.replaced ensures StandsFor(gone + [b], arrived, q.replaced[n], n) {
      if n != h.name { assert StandsFor(gone, arrived, p.replaced[n], n); }
    }
  }

  lemma {:induction false} PairsSkip(gone: seq<Ix>, arrived: seq<Ix>, p: Pairing, b: Ix)
    requires Pairs(gone, arrived, p) && (Flat(b) == [] || forall h :: h in p.unmatched ==> !MayRename(b, h))
    ensures Pairs(gone + [b], arrived, p)
  {
    hide MayRename, Flat;
    forall n | n in p.replaced ensures StandsFor(gone + [b], arrived, p.replaced[n], n) {
      assert StandsFor(gone, arrived, p.replaced[n], n);
    }
  }

  /** The pairing of instructions that are gone with new ones. */
  lemma {:induction false} PairedExact(gone: seq<Ix>, arrived: seq<Ix>)
    ensures Pairs(gone, arrived, PairUp(gone, arrived))
  {
    if gone != [] {
      var init, b := gone[..|gone| - 1], gone[|gone| - 1];
      PairedExact(init, arrived);
      var p := PairUp(init, arrived);
      assert gone == init + [b];
      hide MayRename, Flat, Pairs, LastBest;
      match RenamedIx(b, p.unmatched)
      case Some(h) => PairsMore(init, arrived, p, b, h);
      case None => PairsSkip(init, arrived, p, b);
    } else {
      assert Pairs([], arrived, Pairing(arrived, map[]));
    }
  }

  // ---------------------------------------------------------- the closest

  /** The slot names in common, counted. */
  lemma {:induction false} OverlapExact(b: Ix, h: Ix)
    ensures Overlap(b, h) == |InBoth(b, h)|
  {
    CommonCounted(Flat(h), PathSet(Flat(b)));
    assert InBoth(b, h) == set i | 0 <= i < |Flat(h)| && Flat(h)[i].path in PathSet(Flat(b));
  }

  lemma {:induction false} OneClosest(b: Ix, ixs: seq<Ix>, x: Ix, y: Ix)
    requires IsClosest(b, ixs, x) && IsClosest(b, ixs, y)
    ensures x == y
  {
    hide Overlap;
    var i: nat :| ClosestAt(b, ixs, i) && ixs[i] == x;
    var k: nat :| ClosestAt(b, ixs, k) && ixs[k] == y;
    assert Overlap(b, ixs[i]) == Overlap(b, ixs[k]);
  }

  lemma NoneClosest(b: Ix)
    ensures forall h :: !IsClosest(b, [], h)
  {
  }

  // ------------------------------------------------------------ the report

  /** A fixed address, or one of the other two that need account resolution. */
  predicate Has(a: Acct, address: bool) { if address then a.address.Some? else a.pda.Some? || a.relations != [] }

  /** Some slot of the IDL has an address, or seeds or relations. */
  predicate AnySlot(idl: Idl, address: bool) {
    exists ix :: ix in idl.instructions && exists s :: s in Flat(ix) && Has(s.a, address)
  }

  predicate SlotHas(idl: Idl, address: bool, i: nat, k: nat) {
    i < |idl.instructions| && k < |Flat(idl.instructions[i])| && Has(Flat(idl.instructions[i])[k].a, address)
  }

  lemma {:induction false} SlotAt(idl: Idl, address: bool)
    ensures AnySlot(idl, address) <==> exists i: nat, k: nat :: SlotHas(idl, address, i, k)
  {
    hide Flat;
    if AnySlot(idl, address) {
      var ix :| ix in idl.instructions && exists s :: s in Flat(ix) && Has(s.a, address);
      var s :| s in Flat(ix) && Has(s.a, address);
      var i: nat :| i < |idl.instructions| && idl.instructions[i] == ix;
      var k: nat :| k < |Flat(ix)| && Flat(ix)[k] == s;
      assert SlotHas(idl, address, i, k);
    }
    if i: nat, k: nat :| SlotHas(idl, address, i, k) {
      assert idl.instructions[i] in idl.instructions && Flat(idl.instructions[i])[k] in Flat(idl.instructions[i]);
    }
  }

  lemma {:induction false} SlotsAny(idl: Idl)
    ensures AnyAddress(idl) <==> AnySlot(idl, true)
    ensures AnySeedsOrRelations(idl) <==> AnySlot(idl, false)
  {
    hide Flat, AnySlot;
    SlotAt(idl, true);
    SlotAt(idl, false);
    if AnyAddress(idl) {
      var i: nat, k: nat :| i < |idl.instructions| && k < |Flat(idl.instructions[i])| &&
        Flat(idl.instructions[i])[k].a.address.Some?;
      assert SlotHas(idl, true, i, k);
    }
    if AnySeedsOrRelations(idl) {
      var i: nat, k: nat :| i < |idl.instructions| && k < |Flat(idl.instructions[i])| &&
        (Flat(idl.instructions[i])[k].a.pda.Some? || Flat(idl.instructions[i])[k].a.relations != []);
      assert SlotHas(idl, false, i, k);
    }
  }

  /** Seeds, addresses and relations are compared unless base has an address somewhere (or, legacy,
      seeds or relations) and head has none of the three anywhere. */
  lemma {:induction false} ResolvedExact(base: Idl, head: Idl)
    ensures BuiltWithout(base, head) <==>
              && (AnySlot(base, true) || (base.legacy && AnySlot(base, false)))
              && !AnySlot(head, true) && !AnySlot(head, false)
  {
    SlotsAny(base);
    SlotsAny(head);
    hide AnySlot, AnyAddress, AnySeedsOrRelations;
  }

  /** What is said of head's instruction `h`: a namesake in base is compared as it is, one it stands for
      is compared as a guess, and of one with neither that it writes unchecked without a signer. */
  ghost predicate OfHead(base: Idl, head: Idl, h: Ix, c: Change) {
    var p, legacy := PairingOf(base, head), (base.legacy, head.legacy);
    var resolved := !BuiltWithout(base, head);
    match FindIx(base.instructions, h.name)
    case Some(b) => c in DiffSlots(Flat(b), Flat(h), h.name, false, resolved, legacy)
    case None =>
      if h.name in p.replaced then
        var b := p.replaced[h.name];
        exists d ::
          d in DiffSlots(Flat(b), Flat(h), h.name, true, resolved, legacy) && c == d.(insteadOf := Some(b.name))
      else UnsignedWriter(Flat(h)) && c == Warn(h.name, "", "", NewUnsignedWriter)
  }

  /** What is said of an instruction that is gone: one with a check that nothing replaces, while
      something new is left, may have become the closest of that. */
  ghost predicate OfGone(base: Idl, head: Idl, b: Ix, c: Change) {
    var p := PairingOf(base, head);
    && !HasIx(head.instructions, b.name) && !Replaced(p, b.name)
    && (exists s :: s in Flat(b) && (s.a.signer || s.a.pda.Some? || s.a.relations != []))
    && exists h :: IsClosest(b, p.unmatched, h) && c == Warn(b.name, "", "", InstructionRemoved(h.name))
  }

  lemma {:induction false} HeadsHave(base: Idl, p: Pairing, resolved: bool, legacy: (bool, bool), hs: seq<Ix>,
      c: Change)
    ensures c in HeadChanges(base, p, resolved, legacy, hs) <==>
              exists h :: h in hs && c in HeadChange(base, p, resolved, legacy, h)
  {
    hide HeadChange;
    if hs != [] {
      HeadsHave(base, p, resolved, legacy, hs[..|hs| - 1], c);
      assert hs == hs[..|hs| - 1] + [hs[|hs| - 1]];
    }
  }

  lemma {:induction false} GoneHave(p: Pairing, gone: seq<Ix>, c: Change)
    ensures c in RemovedChanges(p, gone) <==> exists b :: b in gone && c in RemovedChange(p, b)
  {
    hide RemovedChange;
    if gone != [] {
      GoneHave(p, gone[..|gone| - 1], c);
      assert gone == gone[..|gone| - 1] + [gone[|gone| - 1]];
    }
  }

  lemma {:induction false} ReplacingHas(cs: seq<Change>, name: string, c: Change)
    ensures c in Replacing(cs, name) <==> exists d :: d in cs && c == d.(insteadOf := Some(name))
  {
    var r := Replacing(cs, name);
    if d :| d in cs && c == d.(insteadOf := Some(name)) {
      var i :| 0 <= i < |cs| && cs[i] == d;
      assert r[i] == c;
    }
    if c in r {
      var i :| 0 <= i < |r| && r[i] == c;
      assert cs[i] in cs;
    }
  }

  lemma {:induction false} HeadSaid(base: Idl, head: Idl, h: Ix, c: Change)
    ensures c in HeadChange(base, PairingOf(base, head), !BuiltWithout(base, head), (base.legacy, head.legacy), h) <==>
              OfHead(base, head, h, c)
  {
    var p := PairingOf(base, head);
    var resolved, legacy := !BuiltWithout(base, head), (base.legacy, head.legacy);
    hide PairingOf, BuiltWithout, DiffSlots, UnsignedWriter, Flat, Replacing;
    if h.name in p.replaced {
      var b := p.replaced[h.name];
      ReplacingHas(DiffSlots(Flat(b), Flat(h), h.name, true, resolved, legacy), b.name, c);
    }
  }

  lemma {:induction false} GoneSaid(base: Idl, head: Idl, b: Ix, c: Change)
    requires !HasIx(head.instructions, b.name)
    ensures c in RemovedChange(PairingOf(base, head), b) <==> OfGone(base, head, b, c)
  {
    var p := PairingOf(base, head);
    CheckedSlots(b);
    hide PairingOf, Flat, IsClosest, Checked, Replaced;
    if p.unmatched != [] {
      forall h | IsClosest(b, p.unmatched, h) ensures h == Closest(b, p.unmatched).value {
        OneClosest(b, p.unmatched, h, Closest(b, p.unmatched).value);
      }
    } else {
      NoneClosest(b);
    }
  }

  lemma CheckedSlots(b: Ix)
    ensures Checked(b) <==> exists s :: s in Flat(b) && (s.a.signer || s.a.pda.Some? || s.a.relations != [])
  {
    hide Flat;
    if s :| s in Flat(b) && (s.a.signer || s.a.pda.Some? || s.a.relations != []) {
      var i :| 0 <= i < |Flat(b)| && Flat(b)[i] == s;
    }
    if i :| 0 <= i < |Flat(b)| && (Flat(b)[i].a.signer || Flat(b)[i].a.pda.Some? || Flat(b)[i].a.relations != []) {
      assert Flat(b)[i] in Flat(b);
    }
  }

  /** What the report says, before lines that say the same are joined: that head was built without
      resolution, what of instructions that are gone, what of head's. */
  lemma {:induction false} ReportExact(base: Idl, head: Idl, c: Change)
    ensures c in Report(base, head) <==>
            || (BuiltWithout(base, head) && c == Warn("", "", "", BuiltWithoutResolution))
            || (exists b :: b in base.instructions && OfGone(base, head, b, c))
            || (exists h :: h in head.instructions && OfHead(base, head, h, c))
  {
    var p, gone := PairingOf(base, head), NotIn(base.instructions, head.instructions);
    GoneHave(p, gone, c);
    HeadsHave(base, p, !BuiltWithout(base, head), (base.legacy, head.legacy), head.instructions, c);
    forall b | b in gone ensures c in RemovedChange(p, b) <==> OfGone(base, head, b, c) {
      GoneSaid(base, head, b, c);
    }
    forall h ensures c in HeadChange(base, p, !BuiltWithout(base, head), (base.legacy, head.legacy), h) <==>
              OfHead(base, head, h, c) {
      HeadSaid(base, head, h, c);
    }
    assert forall b :: OfGone(base, head, b, c) ==> !HasIx(head.instructions, b.name);
    hide PairingOf, BuiltWithout, HeadChange, RemovedChange, HeadChanges, RemovedChanges, OfGone, OfHead, HasIx;
  }

  // ------------------------------------------------------------ collapsing

  /** The same, but for severity and instructions. */
  predicate Alike(x: Change, y: Change) { x == y.(severity := x.severity, ixs := x.ixs) }

  /** `line` says what `c` says, and lists its instructions. */
  predicate Covers(line: Change, c: Change) {
    Alike(line, c) && forall ix :: ix in c.ixs ==> ix in line.ixs
  }

  /** Every change is on a line that says it. */
  ghost predicate Told(out: seq<Change>, cs: seq<Change>) {
    forall c :: c in cs ==> exists line :: line in out && Covers(line, c)
  }

  /** All that is said is that a slot is taken to be renamed. */
  predicate OnlyGuess(c: Change) { exists f :: f in c.findings && f.RenameGuessed? && c.findings == [f] }

  lemma GuessedIs(c: Change)
    ensures OnlyGuess(c) <==> IsGuessed(c)
  {
    if IsGuessed(c) { assert c.findings == [c.findings[0]] && c.findings[0] in c.findings; }
  }

  /** What is no guess is a line of its own. */
  ghost predicate Untouched(out: seq<Change>, cs: seq<Change>) { forall c :: c in cs && !OnlyGuess(c) ==> c in out }

  /** A line is one of the changes, with more instructions. */
  ghost predicate Based(out: seq<Change>, cs: seq<Change>) {
    forall line :: line in out ==> exists c :: c in cs && line == c.(ixs := line.ixs)
  }

  predicate SaysOf(c: Change, line: Change, ix: string) { Alike(line, c) && ix in c.ixs }

  /** Each instruction on a line is of a change that says the same. */
  ghost predicate Sourced(out: seq<Change>, cs: seq<Change>) {
    forall line, ix :: line in out && ix in line.ixs ==> exists c :: c in cs && SaysOf(c, line, ix)
  }

  /** No two guesses say the same. */
  ghost predicate Apart(out: seq<Change>) {
    forall i, j :: 0 <= i < j < |out| && OnlyGuess(out[j]) ==> !Alike(out[i], out[j])
  }

  ghost predicate Keeps(out: seq<Change>, cs: seq<Change>) {
    Told(out, cs) && Untouched(out, cs) && Based(out, cs) && Sourced(out, cs) && Apart(out)
  }

  /** The place of the line that says what `c` says. */
  lemma {:induction false} MergeAt(out: seq<Change>, c: Change) returns (k: nat)
    requires Merge(out, c).Some?
    ensures k < |out| && SameGuess(out[k], c)
    ensures Merge(out, c).value == out[k := out[k].(ixs := out[k].ixs + c.ixs)]
  {
    if SameGuess(out[0], c) {
      k := 0;
      assert out == [out[0]] + out[1..];
    } else {
      var m := MergeAt(out[1..], c);
      k := m + 1;
    }
  }

  lemma {:induction false} MergeNone(out: seq<Change>, c: Change)
    requires Merge(out, c).None?
    ensures forall j :: 0 <= j < |out| ==> !SameGuess(out[j], c)
  {
    if out != [] {
      MergeNone(out[1..], c);
      forall j | 0 <= j < |out| ensures !SameGuess(out[j], c) {
        if j > 0 { assert out[j] == out[1..][j - 1]; }
      }
    }
  }

  lemma {:induction false} ToldNew(out: seq<Change>, cs: seq<Change>, c: Change)
    requires Told(out, cs)
    ensures Told(out + [c], cs + [c])
  {
    forall d | d in cs + [c] ensures exists line :: line in out + [c] && Covers(line, d) {
      if d in cs {
        var line :| line in out && Covers(line, d);
        assert line in out + [c];
      } else {
        assert Covers(c, d) && c in out + [c];
      }
    }
  }

  lemma {:induction false} BasedNew(out: seq<Change>, cs: seq<Change>, c: Change)
    requires Based(out, cs)
    ensures Based(out + [c], cs + [c])
  {
    forall line | line in out + [c] ensures exists d :: d in cs + [c] && line == d.(ixs := line.ixs) {
      if line in out {
        var d :| d in cs && line == d.(ixs := line.ixs);
        assert d in cs + [c];
      } else {
        assert c in cs + [c] && line == c.(ixs := line.ixs);
      }
    }
  }

  lemma {:induction false} SourcedNew(out: seq<Change>, cs: seq<Change>, c: Change)
    requires Sourced(out, cs)
    ensures Sourced(out + [c], cs + [c])
  {
    forall line, ix | line in out + [c] && ix in line.ixs ensures exists d :: d in cs + [c] && SaysOf(d, line, ix) {
      if line in out {
        var d :| d in cs && SaysOf(d, line, ix);
        assert d in cs + [c];
      } else {
        assert c in cs + [c] && SaysOf(c, line, ix);
      }
    }
  }

  lemma UntouchedNew(out: seq<Change>, cs: seq<Change>, c: Change)
    requires Untouched(out, cs)
    ensures Untouched(out + [c], cs + [c])
  {
  }

  lemma ApartNew(out: seq<Change>, c: Change)
    requires Apart(out) && (OnlyGuess(c) ==> forall j :: 0 <= j < |out| ==> !SameGuess(out[j], c))
    ensures Apart(out + [c])
  {
  }

  lemma KeepsParts(out: seq<Change>, cs: seq<Change>)
    ensures Keeps(out, cs) <==>
              Told(out, cs) && Untouched(out, cs) && Based(out, cs) && Sourced(out, cs) && Apart(out)
  {
    hide Told, Untouched, Based, Sourced, Apart;
  }

  lemma {:induction false} KeepsNew(out: seq<Change>, cs: seq<Change>, c: Change)
    requires Keeps(out, cs) && (OnlyGuess(c) ==> forall j :: 0 <= j < |out| ==> !SameGuess(out[j], c))
    ensures Keeps(out + [c], cs + [c])
  {
    hide *;
    KeepsParts(out, cs);
    ToldNew(out, cs, c);
    UntouchedNew(out, cs, c);
    BasedNew(out, cs, c);
    SourcedNew(out, cs, c);
    ApartNew(out, c);
    KeepsParts(out + [c], cs + [c]);
  }

  /** `line` in place of the line at `k`, which it extends. */
  ghost predicate Replaces(out: seq<Change>, more: seq<Change>, k: nat, c: Change) {
    && k < |out| == |more| && SameGuess(out[k], c) && OnlyGuess(c)
    && more[k] == out[k].(ixs := out[k].ixs + c.ixs)
    && forall j :: 0 <= j < |out| && j != k ==> more[j] == out[j]
  }

  lemma {:induction false} ToldMerged(out: seq<Change>, more: seq<Change>, cs: seq<Change>, c: Change, k: nat)
    requires Told(out, cs) && Replaces(out, more, k, c)
    ensures Told(more, cs + [c])
  {
    forall d | d in cs + [c] ensures exists line :: line in more && Covers(line, d) {
      if d in cs {
        var line :| line in out && Covers(line, d);
        var j :| 0 <= j < |out| && out[j] == line;
        assert more[j] in more && Covers(more[j], d);
      } else {
        assert more[k] in more && Covers(more[k], d);
      }
    }
  }

  lemma {:induction false} UntouchedMerged(out: seq<Change>, more: seq<Change>, cs: seq<Change>, c: Change, k: nat)
    requires Untouched(out, cs) && Replaces(out, more, k, c)
    ensures Untouched(more, cs + [c])
  {
    forall d | d in cs + [c] && !OnlyGuess(d) ensures d in more {
      var j :| 0 <= j < |out| && out[j] == d;
      assert j != k && more[j] == d;
    }
  }

  lemma {:induction false} BasedMerged(out: seq<Change>, more: seq<Change>, cs: seq<Change>, c: Change, k: nat)
    requires Based(out, cs) && Replaces(out, more, k, c)
    ensures Based(more, cs + [c])
  {
    forall line | line in more ensures exists d :: d in cs + [c] && line == d.(ixs := line.ixs) {
      var j :| 0 <= j < |more| && more[j] == line;
      assert out[j] in out;
      var d :| d in cs && out[j] == d.(ixs := out[j].ixs);
      assert d in cs + [c] && line == d.(ixs := line.ixs);
    }
  }

  lemma {:induction false} SourcedMerged(out: seq<Change>, more: seq<Change>, cs: seq<Change>, c: Change, k: nat)
    requires Sourced(out, cs) && Replaces(out, more, k, c)
    ensures Sourced(more, cs + [c])
  {
    forall line, ix | line in more && ix in line.ixs ensures exists d :: d in cs + [c] && SaysOf(d, line, ix) {
      var j :| 0 <= j < |more| && more[j] == line;
      if ix in out[j].ixs {
        assert out[j] in out;
        var d :| d in cs && SaysOf(d, out[j], ix);
        assert d in cs + [c] && SaysOf(d, line, ix);
      } else {
        assert c in cs + [c] && SaysOf(c, line, ix);
      }
    }
  }

  lemma {:induction false} ApartMerged(out: seq<Change>, more: seq<Change>, c: Change, k: nat)
    requires Apart(out) && Replaces(out, more, k, c)
    ensures Apart(more)
  {
    forall i, j | 0 <= i < j < |more| && OnlyGuess(more[j]) ensures !Alike(more[i], more[j]) {
      assert OnlyGuess(out[j]) && !SameGuess(out[i], out[j]);
    }
  }

  lemma {:induction false} KeepsMerged(out: seq<Change>, more: seq<Change>, cs: seq<Change>, c: Change, k: nat)
    requires Keeps(out, cs) && Replaces(out, more, k, c)
    ensures Keeps(more, cs + [c])
  {
    hide *;
    KeepsParts(out, cs);
    ToldMerged(out, more, cs, c, k);
    UntouchedMerged(out, more, cs, c, k);
    BasedMerged(out, more, cs, c, k);
    SourcedMerged(out, more, cs, c, k);
    ApartMerged(out, more, c, k);
    KeepsParts(more, cs + [c]);
  }

  lemma CollapseLast(init: seq<Change>, c: Change)
    ensures var out := Collapse(init);
            Collapse(init + [c]) == if IsGuessed(c) && Merge(out, c).Some? then Merge(out, c).value else out + [c]
  {
    hide Merge, IsGuessed;
    assert (init + [c])[..|init|] == init;
  }

  /** One more change: on a line that says it, or a line of its own. */
  lemma {:induction false} CollapseMore(init: seq<Change>, c: Change)
    requires Keeps(Collapse(init), init)
    ensures Keeps(Collapse(init + [c]), init + [c])
  {
    hide *;
    var out := Collapse(init);
    CollapseLast(init, c);
    GuessedIs(c);
    if IsGuessed(c) && Merge(out, c).Some? {
      MergedKeeps(out, init, c);
    } else {
      if IsGuessed(c) { MergeNone(out, c); }
      KeepsNew(out, init, c);
    }
  }

  lemma {:induction false} MergedKeeps(out: seq<Change>, cs: seq<Change>, c: Change)
    requires Keeps(out, cs) && IsGuessed(c) && Merge(out, c).Some?
    ensures Keeps(Merge(out, c).value, cs + [c])
  {
    GuessedIs(c);
    hide Keeps, IsGuessed, OnlyGuess, SameGuess, Merge;
    var k := MergeAt(out, c);
    assert Replaces(out, Merge(out, c).value, k, c);
    hide Replaces;
    KeepsMerged(out, Merge(out, c).value, cs, c, k);
  }

  /** Joining guesses that say the same loses nothing and makes nothing up. */
  lemma {:induction false} CollapseExact(cs: seq<Change>)
    ensures Keeps(Collapse(cs), cs)
  {
    hide *;
    if cs == [] {
      NoneCollapsed();
    } else {
      var init, c := cs[..|cs| - 1], cs[|cs| - 1];
      CollapseExact(init);
      CollapseMore(init, c);
      assert cs == init + [c];
    }
  }

  lemma NoneCollapsed()
    ensures Keeps(Collapse([]), [])
  {
  }
}
