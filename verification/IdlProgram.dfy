/** Two versions of a program's IDL (crates/solinv-static/src/idl_diff.rs, `diff_idl`): which
    instructions are compared with which, and what a report with nothing in it means. */
module IdlProgram {
  import opened Common
  import opened IdlSlots
  import opened IdlRenames
  import opened IdlDiff
  import opened IdlSilence

  predicate HasIx(ixs: seq<Ix>, name: string) { exists i :: 0 <= i < |ixs| && ixs[i].name == name }

  /** The first instruction of that name. */
  function FindIx(ixs: seq<Ix>, name: string): (r: Option<Ix>)
    ensures r.Some? <==> HasIx(ixs, name)
    ensures r.Some? ==> r.value in ixs && r.value.name == name
  {
    if ixs == [] then None else if ixs[0].name == name then Some(ixs[0])
    else
      assert forall i :: 1 <= i < |ixs| ==> ixs[1..][i - 1] == ixs[i];
      FindIx(ixs[1..], name)
  }

  function NotIn(ixs: seq<Ix>, others: seq<Ix>): (r: seq<Ix>)
    ensures forall x :: x in r <==> x in ixs && !HasIx(others, x.name)
  {
    if ixs == [] then []
    else (if HasIx(others, ixs[0].name) then [] else [ixs[0]]) + NotIn(ixs[1..], others)
  }

  function Without(ixs: seq<Ix>, name: string): (r: seq<Ix>)
    ensures forall x :: x in r <==> x in ixs && x.name != name
  {
    if ixs == [] then [] else (if ixs[0].name == name then [] else [ixs[0]]) + Without(ixs[1..], name)
  }

  function PathSet(slots: seq<Slot>): set<string> { set i | 0 <= i < |slots| :: slots[i].path }

  function InCommon(slots: seq<Slot>, names: set<string>): nat {
    if slots == [] then 0 else (if slots[0].path in names then 1 else 0) + InCommon(slots[1..], names)
  }

  /** `h` may be `b` under another name: the same arguments, and most slot names in common. */
  predicate MayRename(b: Ix, h: Ix) {
    var names := PathSet(Flat(b));
    var common, n, m := InCommon(Flat(h), names), |names|, |Flat(h)|;
    var size := if n >= m then n else m;
    h.args == b.args && if b.args == [] then common * 10 >= size * 9 else common * 4 >= size * 3
  }

  /** The last of `candidates` that `fits` and has the most slot names in common with `b`. */
  ghost predicate LastBest(b: Ix, candidates: seq<Ix>, fits: Ix -> bool, r: Ix) {
    exists k :: 0 <= k < |candidates| && candidates[k] == r && fits(r) && IsLastBest(b, candidates, fits, k)
  }

  /** Nothing before `k` that fits shares more, and nothing after it as many. */
  ghost predicate IsLastBest(b: Ix, candidates: seq<Ix>, fits: Ix -> bool, k: nat)
    requires k < |candidates|
  {
    && (forall j :: 0 <= j < k && fits(candidates[j]) ==> Overlap(b, candidates[j]) <= Overlap(b, candidates[k]))
    && (forall j :: k < j < |candidates| && fits(candidates[j]) ==>
        Overlap(b, candidates[j]) < Overlap(b, candidates[k]))
  }

  lemma LastBestMore(b: Ix, init: seq<Ix>, last: Ix, fits: Ix -> bool, r: Ix)
    requires LastBest(b, init, fits, r) && (fits(last) ==> Overlap(b, last) < Overlap(b, r))
    ensures LastBest(b, init + [last], fits, r)
  {
    hide Overlap;
    var k :| 0 <= k < |init| && init[k] == r && fits(r) && IsLastBest(b, init, fits, k);
    var all := init + [last];
    assert all[k] == r && IsLastBest(b, all, fits, k);
  }

  lemma LastBestNew(b: Ix, init: seq<Ix>, last: Ix, fits: Ix -> bool, best: Option<Ix>)
    requires fits(last) && (best.None? ==> forall h :: h in init ==> !fits(h))
    requires best.Some? ==> LastBest(b, init, fits, best.value) && Overlap(b, last) >= Overlap(b, best.value)
    ensures LastBest(b, init + [last], fits, last)
  {
    hide Overlap;
    var all, n := init + [last], |init|;
    if best.Some? {
      var k :| 0 <= k < |init| && init[k] == best.value && IsLastBest(b, init, fits, k);
    }
    assert all[n] == last && IsLastBest(b, all, fits, n);
  }

  /** Of the instructions that may rename `b`, the last with the most slot names in common; none when
      `b` has no slots or none may. */
  function RenamedIx(b: Ix, candidates: seq<Ix>): (r: Option<Ix>)
    ensures r.Some? ==> r.value in candidates && MayRename(b, r.value)
    ensures r.Some? ==> LastBest(b, candidates, h => MayRename(b, h), r.value)
    ensures r.None? <==> Flat(b) == [] || forall h :: h in candidates ==> !MayRename(b, h)
  {
    if Flat(b) == [] || candidates == [] then None
    else
      var init, last := candidates[..|candidates| - 1], candidates[|candidates| - 1];
      var best := RenamedIx(b, init);
      assert candidates == init + [last];
      if MayRename(b, last) && (best.None? || Overlap(b, last) >= Overlap(b, best.value)) then
        LastBestNew(b, init, last, h => MayRename(b, h), best);
        Some(last)
      else
        if best.Some? then LastBestMore(b, init, last, h => MayRename(b, h), best.value); best else best
  }

  function Overlap(b: Ix, h: Ix): nat { InCommon(Flat(h), PathSet(Flat(b))) }

  /** Nothing before `k` shares more slot names with `b`, and nothing after it as many. */
  ghost predicate ClosestAt(b: Ix, ixs: seq<Ix>, k: nat) {
    && k < |ixs|
    && (forall j :: 0 <= j < k ==> Overlap(b, ixs[j]) <= Overlap(b, ixs[k]))
    && (forall j :: k < j < |ixs| ==> Overlap(b, ixs[j]) < Overlap(b, ixs[k]))
  }

  ghost predicate IsClosest(b: Ix, ixs: seq<Ix>, h: Ix) { exists k: nat :: ClosestAt(b, ixs, k) && ixs[k] == h }

  lemma AtMost(b: Ix, ixs: seq<Ix>, k: nat, j: nat)
    requires ClosestAt(b, ixs, k) && j < |ixs|
    ensures Overlap(b, ixs[j]) <= Overlap(b, ixs[k])
  {
    hide Overlap;
  }

  lemma Chosen(b: Ix, ixs: seq<Ix>, k: nat)
    requires ClosestAt(b, ixs, k)
    ensures IsClosest(b, ixs, ixs[k])
  {
    hide Overlap, ClosestAt;
  }

  lemma {:induction false} ClosestNew(b: Ix, init: seq<Ix>, last: Ix, best: Option<Ix>)
    requires best.None? ==> init == []
    requires best.Some? ==> IsClosest(b, init, best.value) && Overlap(b, last) >= Overlap(b, best.value)
    ensures IsClosest(b, init + [last], last)
  {
    hide Overlap;
    var all, n := init + [last], |init|;
    if best.Some? {
      var k: nat :| ClosestAt(b, init, k) && init[k] == best.value;
      forall j | 0 <= j < n ensures Overlap(b, all[j]) <= Overlap(b, last) {
        AtMost(b, init, k, j);
      }
    }
    assert all[n] == last;
    hide IsClosest;
    assert ClosestAt(b, all, n);
    Chosen(b, all, n);
  }

  lemma ClosestOld(b: Ix, init: seq<Ix>, last: Ix, best: Ix)
    requires IsClosest(b, init, best) && Overlap(b, last) < Overlap(b, best)
    ensures IsClosest(b, init + [last], best)
  {
    hide Overlap;
    var k: nat :| ClosestAt(b, init, k) && init[k] == best;
    var all := init + [last];
    assert all[k] == best && ClosestAt(b, all, k);
    Chosen(b, all, k);
  }

  /** The last instruction with the most slot names in common. */
  function Closest(b: Ix, candidates: seq<Ix>): (r: Option<Ix>)
    ensures r.None? <==> candidates == []
    ensures r.Some? ==> r.value in candidates && IsClosest(b, candidates, r.value)
  {
    if candidates == [] then None
    else
      var init, last := candidates[..|candidates| - 1], candidates[|candidates| - 1];
      var best := Closest(b, init);
      assert candidates == init + [last];
      if best.None? || Overlap(b, last) >= Overlap(b, best.value) then
        ClosestNew(b, init, last, best);
        Some(last)
      else
        ClosestOld(b, init, last, best.value);
        best
  }

  // ------------------------------------------------------------- resolution

  predicate AnyAddress(idl: Idl) {
    exists i, k :: 0 <= i < |idl.instructions| && 0 <= k < |Flat(idl.instructions[i])| &&
        Flat(idl.instructions[i])[k].a.address.Some?
  }

  predicate AnySeedsOrRelations(idl: Idl) {
    exists i, k :: 0 <= i < |idl.instructions| && 0 <= k < |Flat(idl.instructions[i])| &&
      (Flat(idl.instructions[i])[k].a.pda.Some? || Flat(idl.instructions[i])[k].a.relations != [])
  }

  /** Base was built with account resolution and head was not. */
  predicate BuiltWithout(base: Idl, head: Idl) {
    (AnyAddress(base) || (base.legacy && AnySeedsOrRelations(base))) && !(AnyAddress(head) || AnySeedsOrRelations(head))
  }

  // -------------------------------------------------------------- the report

  /** The new instructions still unclaimed, and the base instruction each claimed one stands for. */
  datatype Pairing = Pairing(unmatched: seq<Ix>, replaced: map<string, Ix>)

  function PairUp(gone: seq<Ix>, arrived: seq<Ix>): Pairing {
    if gone == [] then Pairing(arrived, map[])
    else
      var p, b := PairUp(gone[..|gone| - 1], arrived), gone[|gone| - 1];
      match RenamedIx(b, p.unmatched)
      case Some(h) => Pairing(Without(p.unmatched, h.name), p.replaced[h.name := b])
      case None => p
  }

  predicate Replaced(p: Pairing, name: string) { exists n :: n in p.replaced && p.replaced[n].name == name }

  predicate Checked(ix: Ix) {
    exists i :: 0 <= i < |Flat(ix)| &&
      (Flat(ix)[i].a.signer || Flat(ix)[i].a.pda.Some? || Flat(ix)[i].a.relations != [])
  }

  function RemovedChange(p: Pairing, b: Ix): seq<Change> {
    if Replaced(p, b.name) || !Checked(b) then []
    else match Closest(b, p.unmatched)
      case Some(h) => [Warn(b.name, "", "", InstructionRemoved(h.name))]
      case None => []
  }

  function RemovedChanges(p: Pairing, gone: seq<Ix>): seq<Change> {
    if gone == [] then [] else RemovedChanges(p, gone[..|gone| - 1]) + RemovedChange(p, gone[|gone| - 1])
  }

  /** Changes found through a guessed pairing say so. */
  function Replacing(cs: seq<Change>, name: string): (r: seq<Change>)
    ensures |r| == |cs|
  {
    seq(|cs|, i requires 0 <= i < |cs| => cs[i].(insteadOf := Some(name)))
  }

  function HeadChange(base: Idl, p: Pairing, resolved: bool, legacy: (bool, bool), h: Ix): seq<Change> {
    match FindIx(base.instructions, h.name)
    case Some(b) => DiffSlots(Flat(b), Flat(h), h.name, false, resolved, legacy)
    case None =>
      if h.name in p.replaced then
        Replacing(DiffSlots(Flat(p.replaced[h.name]), Flat(h), h.name, true, resolved, legacy), p.replaced[h.name].name)
      else if UnsignedWriter(Flat(h)) then [Warn(h.name, "", "", NewUnsignedWriter)]
      else []
  }

  function HeadChanges(base: Idl, p: Pairing, resolved: bool, legacy: (bool, bool), hs: seq<Ix>): seq<Change> {
    if hs == [] then []
    else HeadChanges(base, p, resolved, legacy, hs[..|hs| - 1]) + HeadChange(base, p, resolved, legacy, hs[|hs| - 1])
  }

  predicate SameGuess(x: Change, y: Change) {
    x.path == y.path && x.findings == y.findings && x.insteadOf == y.insteadOf
  }

  predicate IsGuessed(c: Change) { |c.findings| == 1 && c.findings[0].RenameGuessed? }

  /** The first of `out` that says what `c` says also lists its instructions. */
  function Merge(out: seq<Change>, c: Change): Option<seq<Change>> {
    if out == [] then None
    else if SameGuess(out[0], c) then Some([out[0].(ixs := out[0].ixs + c.ixs)] + out[1..])
    else match Merge(out[1..], c)
      case Some(rest) => Some([out[0]] + rest)
      case None => None
  }

  /** The same rename guessed in several instructions is one line. */
  function Collapse(cs: seq<Change>): (r: seq<Change>)
    ensures r == [] <==> cs == []
  {
    if cs == [] then []
    else
      var out, c := Collapse(cs[..|cs| - 1]), cs[|cs| - 1];
      if IsGuessed(c) && Merge(out, c).Some? then MergeKeeps(out, c); Merge(out, c).value else out + [c]
  }

  lemma MergeKeeps(out: seq<Change>, c: Change)
    ensures Merge(out, c).Some? ==> Merge(out, c).value != []
  {
  }

  function PairingOf(base: Idl, head: Idl): Pairing {
    PairUp(NotIn(base.instructions, head.instructions), NotIn(head.instructions, base.instructions))
  }

  function Report(base: Idl, head: Idl): seq<Change> {
    var p := PairingOf(base, head);
    var resolved := !BuiltWithout(base, head);
    (if resolved then [] else [Warn("", "", "", BuiltWithoutResolution)])
    + RemovedChanges(p, NotIn(base.instructions, head.instructions))
    + HeadChanges(base, p, resolved, (base.legacy, head.legacy), head.instructions)
  }

  /** `diff_idl`. */
  method DiffIdl(base: Idl, head: Idl) returns (out: seq<Change>)
    ensures out == Collapse(Report(base, head))
  {
    var resolved := !BuiltWithout(base, head);
    var legacy := (base.legacy, head.legacy);
    var gone := NotIn(base.instructions, head.instructions);
    var p := FindPairing(gone, NotIn(head.instructions, base.instructions));
    var unresolved: seq<Change> := if resolved then [] else [Warn("", "", "", BuiltWithoutResolution)];
    var removed := ReportRemoved(p, gone);
    var compared := ReportHead(base, p, resolved, legacy, head.instructions);
    out := CollapseGuesses(unresolved + removed + compared);
  }

  method ReportRemoved(p: Pairing, gone: seq<Ix>) returns (out: seq<Change>)
    ensures out == RemovedChanges(p, gone)
  {
    out := [];
    for i := 0 to |gone|
      invariant out == RemovedChanges(p, gone[..i])
    {
      assert gone[..i + 1][..i] == gone[..i];
      out := out + RemovedChange(p, gone[i]);
    }
    assert gone[..|gone|] == gone;
  }

  method ReportHead(base: Idl, p: Pairing, resolved: bool, legacy: (bool, bool), hs: seq<Ix>) returns (out: seq<Change>)
    ensures out == HeadChanges(base, p, resolved, legacy, hs)
  {
    out := [];
    for i := 0 to |hs|
      invariant out == HeadChanges(base, p, resolved, legacy, hs[..i])
    {
      assert hs[..i + 1][..i] == hs[..i];
      var mine := OneInstruction(base, p, resolved, legacy, hs[i]);
      out := out + mine;
    }
    assert hs[..|hs|] == hs;
  }

  method FindPairing(gone: seq<Ix>, arrived: seq<Ix>) returns (p: Pairing)
    ensures p == PairUp(gone, arrived)
  {
    p := Pairing(arrived, map[]);
    for i := 0 to |gone|
      invariant p == PairUp(gone[..i], arrived)
    {
      assert gone[..i + 1][..i] == gone[..i];
      match RenamedIx(gone[i], p.unmatched) {
        case Some(h) => p := Pairing(Without(p.unmatched, h.name), p.replaced[h.name := gone[i]]);
        case None =>
      }
    }
    assert gone[..|gone|] == gone;
  }

  method OneInstruction(base: Idl, p: Pairing, resolved: bool, legacy: (bool, bool), h: Ix) returns (out: seq<Change>)
    ensures out == HeadChange(base, p, resolved, legacy, h)
  {
    var b := FindIx(base.instructions, h.name);
    if b.Some? {
      out := DiffIx(b.value, h, false, resolved, legacy);
    } else if h.name in p.replaced {
      out := DiffIx(p.replaced[h.name], h, true, resolved, legacy);
      out := Replacing(out, p.replaced[h.name].name);
    } else if UnsignedWriter(Flat(h)) {
      out := [Warn(h.name, "", "", NewUnsignedWriter)];
    } else {
      out := [];
    }
  }

  method CollapseGuesses(cs: seq<Change>) returns (out: seq<Change>)
    ensures out == Collapse(cs)
  {
    out := [];
    for i := 0 to |cs|
      invariant out == Collapse(cs[..i])
    {
      assert cs[..i + 1][..i] == cs[..i];
      var merged := Merge(out, cs[i]);
      if IsGuessed(cs[i]) && merged.Some? {
        out := merged.value;
      } else {
        out := out + [cs[i]];
      }
    }
    assert cs[..|cs|] == cs;
  }

  // ----------------------------------------------------- what silence means

  lemma {:induction false} HeadChangeSilent(base: Idl, p: Pairing, resolved: bool, legacy: (bool, bool), hs: seq<Ix>,
      k: nat)
    requires HeadChanges(base, p, resolved, legacy, hs) == [] && k < |hs|
    ensures HeadChange(base, p, resolved, legacy, hs[k]) == []
  {
    hide HeadChange;
    if k < |hs| - 1 {
      HeadChangeSilent(base, p, resolved, legacy, hs[..|hs| - 1], k);
    }
  }

  lemma HeadChangesSilent(base: Idl, p: Pairing, resolved: bool, legacy: (bool, bool), hs: seq<Ix>)
    requires HeadChanges(base, p, resolved, legacy, hs) == []
    ensures forall h :: h in hs ==> HeadChange(base, p, resolved, legacy, h) == []
  {
    hide HeadChange, HeadChanges;
    forall h | h in hs ensures HeadChange(base, p, resolved, legacy, h) == [] {
      var k :| 0 <= k < |hs| && hs[k] == h;
      HeadChangeSilent(base, p, resolved, legacy, hs, k);
    }
  }

  lemma {:induction false} RemovedSilent(p: Pairing, gone: seq<Ix>)
    requires RemovedChanges(p, gone) == []
    ensures forall b :: b in gone ==> RemovedChange(p, b) == []
  {
    if gone != [] {
      hide RemovedChange;
      RemovedSilent(p, gone[..|gone| - 1]);
      assert gone == gone[..|gone| - 1] + [gone[|gone| - 1]];
    }
  }

  /** The base instruction a head instruction is compared with: its namesake, or the one it may
      replace. */
  function ComparedWith(base: Idl, head: Idl, h: Ix): Option<Ix> {
    match FindIx(base.instructions, h.name)
    case Some(b) => Some(b)
    case None =>
      var p := PairingOf(base, head);
      if h.name in p.replaced then Some(p.replaced[h.name]) else None
  }

  lemma {:induction false} ReportParts(base: Idl, head: Idl)
    requires Collapse(Report(base, head)) == []
    ensures var p := PairingOf(base, head);
            && !BuiltWithout(base, head)
            && RemovedChanges(p, NotIn(base.instructions, head.instructions)) == []
            && HeadChanges(base, p, true, (base.legacy, head.legacy), head.instructions) == []
  {
  }

  lemma {:induction false} HeadSilent(base: Idl, head: Idl, h: Ix)
    requires UniquePaths(Flat(h)) && PlainNames(Flat(h)) && forall b :: b in base.instructions ==> PlainNames(Flat(b))
    requires HeadChange(base, PairingOf(base, head), true, (false, false), h) == []
    ensures match ComparedWith(base, head, h)
            case Some(b) => Preserved(Flat(b), Flat(h)) <==> Together(Flat(b), Flat(h))
            case None => !UnsignedWriter(Flat(h))
  {
    hide Preserved, Together, PlainNames, UniquePaths, PairingOf;
    var b := ComparedWith(base, head, h);
    ComparedFrom(base, head, h);
    if b.Some? {
      var guessed := FindIx(base.instructions, h.name).None?;
      assert DiffSlots(Flat(b.value), Flat(h), h.name, guessed, true, (false, false)) == [];
      SilenceKeeps(Flat(b.value), Flat(h), h.name, guessed);
    }
  }

  /** What stands for a new instruction is a base instruction that is gone, and what it stands in for
      is a new one. */
  lemma {:induction false} PairedFrom(gone: seq<Ix>, arrived: seq<Ix>)
    ensures var p := PairUp(gone, arrived);
            && (forall h :: h in p.unmatched ==> h in arrived)
            && (forall n :: n in p.replaced ==> HasIx(arrived, n) && p.replaced[n] in gone)
  {
    if gone != [] {
      var init, b := gone[..|gone| - 1], gone[|gone| - 1];
      PairedFrom(init, arrived);
      var p := PairUp(init, arrived);
      match RenamedIx(b, p.unmatched)
      case Some(h) => var k :| 0 <= k < |arrived| && arrived[k] == h;
      case None =>
    }
  }

  lemma {:induction false} ComparedFrom(base: Idl, head: Idl, h: Ix)
    ensures ComparedWith(base, head, h).Some? ==> ComparedWith(base, head, h).value in base.instructions
  {
    PairedFrom(NotIn(base.instructions, head.instructions), NotIn(head.instructions, base.instructions));
  }

  /** A base instruction that is replaced has a new one in head that is compared with it, or with
      another of its name. */
  lemma {:induction false} ReplacedCompared(base: Idl, head: Idl, name: string)
    requires Replaced(PairingOf(base, head), name)
    ensures exists h :: h in head.instructions && ComparedTo(base, head, h, name)
  {
    var p, arrived := PairingOf(base, head), NotIn(head.instructions, base.instructions);
    PairedFrom(NotIn(base.instructions, head.instructions), arrived);
    var n :| n in p.replaced && p.replaced[n].name == name;
    var k :| 0 <= k < |arrived| && arrived[k].name == n;
    assert arrived[k] in arrived;
    assert ComparedTo(base, head, arrived[k], name);
  }

  predicate ComparedTo(base: Idl, head: Idl, h: Ix, name: string) {
    var b := ComparedWith(base, head, h);
    b.Some? && b.value.name == name
  }

  /** A report with nothing in it: every instruction that is compared keeps the checks of the one
      it is compared with, as far as the slots each depends on stayed with it; a new one is not an
      unsigned writer; and a checked instruction is gone only when one in head is compared with it,
      or nothing new is left. */
  lemma {:induction false} SilentReport(base: Idl, head: Idl)
    requires !base.legacy && !head.legacy && Collapse(Report(base, head)) == []
    requires forall h :: h in head.instructions ==> UniquePaths(Flat(h)) && PlainNames(Flat(h))
    requires forall b :: b in base.instructions ==> PlainNames(Flat(b))
    ensures forall h :: h in head.instructions ==>
              match ComparedWith(base, head, h)
              case Some(b) => Preserved(Flat(b), Flat(h)) <==> Together(Flat(b), Flat(h))
              case None => !UnsignedWriter(Flat(h))
    ensures forall b :: b in base.instructions && !HasIx(head.instructions, b.name) && Checked(b) ==>
              || (exists h :: h in head.instructions && ComparedTo(base, head, h, b.name))
              || PairingOf(base, head).unmatched == []
  {
    var p := PairingOf(base, head);
    ReportParts(base, head);
    HeadChangesSilent(base, p, true, (false, false), head.instructions);
    RemovedSilent(p, NotIn(base.instructions, head.instructions));
    hide Preserved, Together, PlainNames, UniquePaths, PairingOf, HeadChange, HeadChanges, RemovedChanges, Report,
        Collapse;
    forall h | h in head.instructions
      ensures match ComparedWith(base, head, h)
              case Some(b) => Preserved(Flat(b), Flat(h)) <==> Together(Flat(b), Flat(h))
              case None => !UnsignedWriter(Flat(h))
    {
      HeadSilent(base, head, h);
    }
    forall b | b in base.instructions && !HasIx(head.instructions, b.name) && Checked(b)
      ensures || (exists h :: h in head.instructions && ComparedTo(base, head, h, b.name)) || p.unmatched == []
    {
      assert RemovedChange(p, b) == [];
      if Replaced(p, b.name) { ReplacedCompared(base, head, b.name); }
    }
  }

  // ------------------------------------------------- a version and itself

  lemma OnlySelf(s: seq<Slot>, t: seq<Slot>)
    requires forall x :: x in s ==> x in t
    ensures Only(s, t) == []
  {
    if s != [] {
      assert s[0] in s && s[0] in t;
      var k :| 0 <= k < |t| && t[k] == s[0];
      assert t[k].path == s[0].path;
      OnlySelf(s[1..], t);
    }
  }

  lemma SelfRenames(s: seq<Slot>)
    ensures RenamesOf(s, s).paths == map[] && RenamesOf(s, s).guessed == []
  {
    OnlySelf(s, s);
    TakenInRange(s, s);
    assert Candidates(s, s) == [];
    assert PairsOf(Sort([])) == [];
  }

  lemma HeadMapSelf(s: seq<Slot>, i: nat)
    requires UniquePaths(s) && i < |s|
    ensures s[i].path in HeadMap(s) && HeadMap(s)[s[i].path] == s[i].a
  {
    HeadMapHas(s);
    assert HasPath(s, s[i].path);
    var k :| 0 <= k < |s| && s[k] == Slot(s[i].path, HeadMap(s)[s[i].path]);
    assert k == i;
  }

  lemma SeedsSelf(r: Renames, prefix: string, seeds: seq<Seed>, legacy: bool)
    requires r.paths == map[]
    ensures SeedKeys(r, prefix, seeds, legacy) == SeedKeys(NoRenames, "", seeds, legacy)
  {
    forall i | 0 <= i < |seeds| ensures SeedKeyOf(r, prefix, seeds[i], legacy) == SeedKeyOf(NoRenames, "", seeds[i],
        legacy) {
      SeedSelf(r, prefix, seeds[i], legacy);
    }
  }

  lemma SeedSelf(r: Renames, prefix: string, s: Seed, legacy: bool)
    requires r.paths == map[]
    ensures SeedKeyOf(r, prefix, s, legacy) == SeedKeyOf(NoRenames, "", s, legacy)
  {
    if s.Account? {
      SiblingSelf(r, prefix, s.path);
      SiblingSelf(NoRenames, "", s.path);
    }
  }

  lemma RelationsSelf(c: Context, prefix: string, rels: seq<string>, h: Acct, target: string)
    requires c.r.paths == map[] && forall rel :: rel in rels ==> rel in h.relations
    ensures RelationFindings(c, prefix, rels, h, target) == ([], [])
  {
    if rels != [] {
      RelationsSelf(c, prefix, rels[..|rels| - 1], h, target);
      SiblingSelf(c.r, prefix, rels[|rels| - 1]);
    }
  }

  lemma SlotSelf(c: Context, s: Slot)
    requires c.r.paths == map[] && s.path in c.head && c.head[s.path] == s.a && c.legacy.0 == c.legacy.1
    ensures SlotChanges(c, s) == []
  {
    RelationsSelf(c, PrefixOf(s.path), s.a.relations, s.a, LeafOf(s.path));
    if s.a.pda.Some? {
      SeedsSelf(c.r, PrefixOf(s.path), s.a.pda.value.seeds, c.legacy.0);
      if s.a.pda.value.program.Some? {
        SeedSelf(c.r, PrefixOf(s.path), s.a.pda.value.program.value, c.legacy.0);
      }
    }
  }

  lemma SlotsSelf(c: Context, all: seq<Slot>, k: nat)
    requires UniquePaths(all) && c.r.paths == map[] && c.head == HeadMap(all) && c.legacy.0 == c.legacy.1 && k <= |all|
    ensures AllSlotChanges(c, all[..k]) == []
  {
    if k > 0 {
      SlotsSelf(c, all, k - 1);
      assert all[..k][..k - 1] == all[..k - 1];
      HeadMapSelf(all, k - 1);
      SlotSelf(c, all[k - 1]);
    }
  }

  lemma DiffSlotsSelf(s: seq<Slot>, ix: string, resolved: bool, legacy: bool)
    requires UniquePaths(s)
    ensures DiffSlots(s, s, ix, false, resolved, (legacy, legacy)) == []
  {
    SelfRenames(s);
    SlotsSelf(ContextOf(s, s, ix, false, resolved, (legacy, legacy)), s, |s|);
    assert s[..|s|] == s;
  }

  lemma FindSelf(ixs: seq<Ix>, i: nat)
    requires i < |ixs| && forall j, k :: 0 <= j < k < |ixs| ==> ixs[j].name != ixs[k].name
    ensures FindIx(ixs, ixs[i].name) == Some(ixs[i])
  {
    if i > 0 {
      FindSelf(ixs[1..], i - 1);
    }
  }

  lemma NotInSelf(ixs: seq<Ix>, all: seq<Ix>)
    requires forall x :: x in ixs ==> x in all
    ensures NotIn(ixs, all) == []
  {
    if ixs != [] {
      assert ixs[0] in ixs && ixs[0] in all;
      var k :| 0 <= k < |all| && all[k] == ixs[0];
      assert all[k].name == ixs[0].name;
      NotInSelf(ixs[1..], all);
    }
  }

  lemma {:induction false} HeadsSelf(x: Idl, p: Pairing)
    requires forall j, k :: 0 <= j < k < |x.instructions| ==> x.instructions[j].name != x.instructions[k].name
    requires forall i :: 0 <= i < |x.instructions| ==> UniquePaths(Flat(x.instructions[i]))
    ensures HeadChanges(x, p, true, (x.legacy, x.legacy), x.instructions) == []
  {
    hide HeadChange, UniquePaths;
    var ixs := x.instructions;
    forall i | 0 <= i < |ixs| ensures HeadChange(x, p, true, (x.legacy, x.legacy), ixs[i]) == [] {
      HeadChangeSelf(x, p, i);
    }
    HeadChangesSelf(x, p, ixs, |ixs|);
    assert ixs[..|ixs|] == ixs;
  }

  /** With unique instruction names and slot paths, a version compared with itself is silent. */
  lemma {:induction false} SelfSilent(x: Idl)
    requires forall j, k :: 0 <= j < k < |x.instructions| ==> x.instructions[j].name != x.instructions[k].name
    requires forall i :: 0 <= i < |x.instructions| ==> UniquePaths(Flat(x.instructions[i]))
    ensures Collapse(Report(x, x)) == []
  {
    HeadsSelf(x, PairingOf(x, x));
    hide HeadChanges, UniquePaths;
    NotInSelf(x.instructions, x.instructions);
    assert !BuiltWithout(x, x);
  }

  lemma {:induction false} HeadChangeSelf(x: Idl, p: Pairing, i: nat)
    requires i < |x.instructions| && UniquePaths(Flat(x.instructions[i]))
    requires forall j, k :: 0 <= j < k < |x.instructions| ==> x.instructions[j].name != x.instructions[k].name
    ensures HeadChange(x, p, true, (x.legacy, x.legacy), x.instructions[i]) == []
  {
    FindSelf(x.instructions, i);
    DiffSlotsSelf(Flat(x.instructions[i]), x.instructions[i].name, true, x.legacy);
  }

  lemma {:induction false} HeadChangesSelf(x: Idl, p: Pairing, ixs: seq<Ix>, n: nat)
    requires n <= |ixs| && forall i :: 0 <= i < |ixs| ==> HeadChange(x, p, true, (x.legacy, x.legacy), ixs[i]) == []
    ensures HeadChanges(x, p, true, (x.legacy, x.legacy), ixs[..n]) == []
  {
    if n > 0 {
      HeadChangesSelf(x, p, ixs, n - 1);
      assert ixs[..n][..n - 1] == ixs[..n - 1];
    }
  }
}
