/** The checks a handler's body loses (crates/solinv-static/src/diff.rs): copies are counted over
    the whole instruction, so one that moves is not a loss, and one that goes is reported. */
module HandlerChecks {
  import opened Common

  /** A slot: the checks it declares, and those the handler and `validate` write on it. */
  datatype Slot = Slot(path: string, declared: seq<string>, body: seq<string>, validate: seq<string>, placeholder: bool)

  /** An instruction: its slots, and the handler's checks that name none. */
  datatype Ix = Ix(slots: seq<Slot>, checks: seq<string>)

  datatype Finding =
    | SlotRemoved(checks: seq<string>)
    | RemovedFromHandler(check: string)
    | MovedToDeclared(check: string, slot: string)
    | NowPlaceholder(removed: seq<string>)

  function Count(v: seq<string>, c: string): nat {
    if v == [] then 0 else (if v[0] == c then 1 else 0) + Count(v[1..], c)
  }

  function SlotCopies(slots: seq<Slot>, c: string): nat {
    if slots == [] then 0 else Count(slots[0].body, c) + SlotCopies(slots[1..], c)
  }

  /** How many times the handler writes `c`, on any slot or none. */
  function BodyTotal(ix: Ix, c: string): nat { Count(ix.checks, c) + SlotCopies(ix.slots, c) }

  function Find(slots: seq<Slot>, path: string): Option<Slot> {
    if slots == [] then None else if slots[0].path == path then Some(slots[0]) else Find(slots[1..], path)
  }

  predicate UniquePaths(slots: seq<Slot>) { forall i, j :: 0 <= i < j < |slots| ==> slots[i].path != slots[j].path }

  /** Each check of `v` once, in order. */
  function Once(v: seq<string>): (r: seq<string>)
    ensures forall c :: c in r <==> c in v
  {
    if v == [] then []
    else
      var r := Once(v[..|v| - 1]);
      assert v == v[..|v| - 1] + [v[|v| - 1]];
      if v[|v| - 1] in r then r else r + [v[|v| - 1]]
  }

  function ChecksOf(s: Slot): seq<string> { s.declared + Once(s.body) + s.validate }

  /** How `declared_instead` reads a lost check: the slot that now declares it. */
  type Instead = (string, Option<string>) -> Option<string>

  function LostFinding(instead: Instead, check: string, slot: Option<string>): Finding {
    match instead(check, slot)
    case Some(other) => MovedToDeclared(check, other)
    case None => RemovedFromHandler(check)
  }

  predicate LostHere(base: Ix, head: Ix, b: seq<string>, h: seq<string>, c: string) {
    Count(b, c) > Count(h, c) && BodyTotal(head, c) < BodyTotal(base, c)
  }

  function LostFindings(base: Ix, head: Ix, b: seq<string>, h: seq<string>, instead: Instead, slot: Option<string>,
      todo: seq<string>): seq<Finding> {
    if todo == [] then []
    else
      var c := todo[|todo| - 1];
      LostFindings(base, head, b, h, instead, slot, todo[..|todo| - 1])
      + if LostHere(base, head, b, h, c) then [LostFinding(instead, c, slot)] else []
  }

  function RemovedChecks(fs: seq<Finding>): seq<string> {
    if fs == [] then []
    else (if fs[0].RemovedFromHandler? then [fs[0].check] else []) + RemovedChecks(fs[1..])
  }

  function NotRemoved(fs: seq<Finding>): seq<Finding> {
    if fs == [] then []
    else (if fs[0].RemovedFromHandler? then [] else [fs[0]]) + NotRemoved(fs[1..])
  }

  /** Removals on a slot made a placeholder are one finding that says so. */
  function Gathered(fs: seq<Finding>): seq<Finding> {
    NotRemoved(fs) + if RemovedChecks(fs) == [] then [] else [NowPlaceholder(RemovedChecks(fs))]
  }

  function SlotFindings(base: Ix, head: Ix, instead: Instead, s: Slot): seq<Finding> {
    match Find(head.slots, s.path)
    case None => if head.slots == [] || ChecksOf(s) == [] then [] else [SlotRemoved(ChecksOf(s))]
    case Some(h) =>
      var fs := LostFindings(base, head, s.body, h.body, instead, Some(s.path), Once(s.body));
      if h.placeholder && !s.placeholder then Gathered(fs) else fs
  }

  function AllSlotFindings(base: Ix, head: Ix, instead: Instead, slots: seq<Slot>): seq<Finding> {
    if slots == [] then []
    else
      AllSlotFindings(base, head, instead, slots[..|slots| - 1])
      + SlotFindings(base, head, instead, slots[|slots| - 1])
  }

  function Findings(base: Ix, head: Ix, instead: Instead): seq<Finding> {
    AllSlotFindings(base, head, instead, base.slots)
    + LostFindings(base, head, base.checks, head.checks, instead, None, Once(base.checks))
  }

  method CompareHandlers(base: Ix, head: Ix, instead: Instead) returns (out: seq<Finding>)
    ensures out == Findings(base, head, instead)
  {
    hide LostFindings, Gathered, ChecksOf;
    out := [];
    for i := 0 to |base.slots|
      invariant out == AllSlotFindings(base, head, instead, base.slots[..i])
    {
      assert base.slots[..i + 1][..i] == base.slots[..i];
      var s := base.slots[i];
      var h := Find(head.slots, s.path);
      if h.Some? {
        var fs := CompareCopies(base, head, s.body, h.value.body, instead, Some(s.path));
        out := out + if h.value.placeholder && !s.placeholder then Gathered(fs) else fs;
      } else if head.slots != [] && ChecksOf(s) != [] {
        out := out + [SlotRemoved(ChecksOf(s))];
      }
    }
    assert base.slots[..|base.slots|] == base.slots;
    var rest := CompareCopies(base, head, base.checks, head.checks, instead, None);
    out := out + rest;
  }

  /** Each distinct check of `b`, compared with its copies in `h`. */
  method CompareCopies(base: Ix, head: Ix, b: seq<string>, h: seq<string>, instead: Instead,
      slot: Option<string>) returns (out: seq<Finding>)
    ensures out == LostFindings(base, head, b, h, instead, slot, Once(b))
  {
    out := [];
    var seen: seq<string> := [];
    for i := 0 to |b|
      invariant seen == Once(b[..i]) && out == LostFindings(base, head, b, h, instead, slot, seen)
    {
      assert b[..i + 1][..i] == b[..i];
      if b[i] !in seen {
        seen := seen + [b[i]];
        assert seen[..|seen| - 1] == Once(b[..i]);
        if LostHere(base, head, b, h, b[i]) {
          out := out + [LostFinding(instead, b[i], slot)];
        }
      }
    }
    assert b[..|b|] == b;
  }

  // ------------------------------------------------------------ conservation

  predicate NamesCheck(f: Finding, c: string) {
    match f
    case SlotRemoved(cs) => c in cs
    case RemovedFromHandler(d) => d == c
    case MovedToDeclared(d, _) => d == c
    case NowPlaceholder(cs) => c in cs
  }

  /** A finding that `c` is removed from the handler, by itself or among a placeholder's. */
  predicate SaysRemoved(f: Finding, c: string) {
    match f
    case RemovedFromHandler(d) => d == c
    case NowPlaceholder(cs) => c in cs
    case _ => false
  }

  predicate Named(fs: seq<Finding>, c: string) { exists f :: f in fs && NamesCheck(f, c) }

  predicate SaidRemoved(fs: seq<Finding>, c: string) { exists f :: f in fs && SaysRemoved(f, c) }

  lemma CountIn(v: seq<string>, c: string)
    ensures Count(v, c) > 0 <==> c in v
  {
  }

  lemma {:induction false} LostNamed(base: Ix, head: Ix, b: seq<string>, h: seq<string>, instead: Instead,
      slot: Option<string>, todo: seq<string>, c: string)
    ensures Named(LostFindings(base, head, b, h, instead, slot, todo), c) <==>
              c in todo && LostHere(base, head, b, h, c)
    ensures SaidRemoved(LostFindings(base, head, b, h, instead, slot, todo), c) ==> LostHere(base, head, b, h, c)
  {
    if todo != [] {
      var init, last := todo[..|todo| - 1], todo[|todo| - 1];
      LostNamed(base, head, b, h, instead, slot, init, c);
      assert todo == init + [last];
      var before := LostFindings(base, head, b, h, instead, slot, init);
      var f := LostFinding(instead, last, slot);
      assert NamesCheck(f, c) <==> last == c;
      if LostHere(base, head, b, h, last) {
        NamedAppend(before, f, c);
      } else {
        assert before + [] == before;
      }
    }
  }

  lemma NamedAppend(fs: seq<Finding>, f: Finding, c: string)
    ensures Named(fs + [f], c) <==> Named(fs, c) || NamesCheck(f, c)
    ensures SaidRemoved(fs + [f], c) <==> SaidRemoved(fs, c) || SaysRemoved(f, c)
  {
    assert f in fs + [f];
    assert forall g :: g in fs ==> g in fs + [f];
  }

  lemma NamedConcat(a: seq<Finding>, b: seq<Finding>, c: string)
    ensures Named(a + b, c) <==> Named(a, c) || Named(b, c)
    ensures SaidRemoved(a + b, c) <==> SaidRemoved(a, c) || SaidRemoved(b, c)
  {
    assert forall f :: f in a + b <==> f in a || f in b;
  }

  lemma {:induction false} GatheredSame(fs: seq<Finding>, c: string)
    requires forall f :: f in fs ==> f.RemovedFromHandler? || f.MovedToDeclared?
    ensures Named(Gathered(fs), c) <==> Named(fs, c)
    ensures SaidRemoved(Gathered(fs), c) <==> SaidRemoved(fs, c)
  {
    RemovedSplit(fs, c);
    var r := RemovedChecks(fs);
    if r == [] {
      assert NotRemoved(fs) + [] == NotRemoved(fs);
    } else {
      NamedAppend(NotRemoved(fs), NowPlaceholder(r), c);
    }
  }

  lemma RemovedSplit(fs: seq<Finding>, c: string)
    requires forall f :: f in fs ==> f.RemovedFromHandler? || f.MovedToDeclared?
    ensures Named(fs, c) <==> Named(NotRemoved(fs), c) || c in RemovedChecks(fs)
    ensures SaidRemoved(fs, c) <==> c in RemovedChecks(fs)
    ensures !SaidRemoved(NotRemoved(fs), c)
  {
    if fs != [] {
      RemovedSplit(fs[1..], c);
      assert fs == [fs[0]] + fs[1..];
      NamedConcat([fs[0]], fs[1..], c);
      var kept := if fs[0].RemovedFromHandler? then [] else [fs[0]];
      NamedConcat(kept, NotRemoved(fs[1..]), c);
      assert Named([fs[0]], c) <==> NamesCheck(fs[0], c) by { assert fs[0] in [fs[0]]; }
      assert SaidRemoved([fs[0]], c) <==> SaysRemoved(fs[0], c) by { assert fs[0] in [fs[0]]; }
    }
  }

  lemma {:induction false} LostKinds(base: Ix, head: Ix, b: seq<string>, h: seq<string>, instead: Instead,
      slot: Option<string>, todo: seq<string>)
    ensures forall f :: f in LostFindings(base, head, b, h, instead, slot, todo) ==>
        f.RemovedFromHandler? || f.MovedToDeclared?
  {
    if todo != [] {
      LostKinds(base, head, b, h, instead, slot, todo[..|todo| - 1]);
    }
  }

  /** The copies a base slot has that head's slot of that path does not. */
  predicate Loses(head: Ix, s: Slot, c: string) {
    match Find(head.slots, s.path)
    case None => Count(s.body, c) > 0
    case Some(h) => Count(s.body, c) > Count(h.body, c)
  }

  lemma {:induction false} SlotNamed(base: Ix, head: Ix, instead: Instead, s: Slot, c: string)
    requires head.slots != []
    ensures BodyTotal(head, c) < BodyTotal(base, c) && Loses(head, s, c) ==>
              Named(SlotFindings(base, head, instead, s), c)
    ensures BodyTotal(head, c) >= BodyTotal(base, c) ==> !SaidRemoved(SlotFindings(base, head, instead, s), c)
  {
    CountIn(s.body, c);
    match Find(head.slots, s.path)
    case None =>
      if c in s.body {
        assert c in ChecksOf(s) && NamesCheck(SlotRemoved(ChecksOf(s)), c);
        assert SlotRemoved(ChecksOf(s)) in SlotFindings(base, head, instead, s);
      }
    case Some(h) =>
      var fs := LostFindings(base, head, s.body, h.body, instead, Some(s.path), Once(s.body));
      LostNamed(base, head, s.body, h.body, instead, Some(s.path), Once(s.body), c);
      LostKinds(base, head, s.body, h.body, instead, Some(s.path), Once(s.body));
      GatheredSame(fs, c);
  }

  lemma NothingNamed(c: string)
    ensures !Named([], c) && !SaidRemoved([], c)
  {
  }

  lemma {:induction false} SlotsNamed(base: Ix, head: Ix, instead: Instead, slots: seq<Slot>, c: string)
    requires head.slots != []
    ensures BodyTotal(head, c) < BodyTotal(base, c) && (exists s :: s in slots && Loses(head, s, c)) ==>
              Named(AllSlotFindings(base, head, instead, slots), c)
    ensures BodyTotal(head, c) >= BodyTotal(base, c) ==> !SaidRemoved(AllSlotFindings(base, head, instead, slots), c)
  {
    hide Loses, SlotFindings, BodyTotal, Named, SaidRemoved;
    if slots == [] {
      NothingNamed(c);
    } else {
      var init, last := slots[..|slots| - 1], slots[|slots| - 1];
      SlotsNamed(base, head, instead, init, c);
      SlotNamed(base, head, instead, last, c);
      NamedConcat(AllSlotFindings(base, head, instead, init), SlotFindings(base, head, instead, last), c);
      assert slots == init + [last];
    }
  }

  function Drop(slots: seq<Slot>, path: string): seq<Slot> {
    if slots == [] then [] else if slots[0].path == path then slots[1..] else [slots[0]] + Drop(slots[1..], path)
  }

  lemma DropCopies(slots: seq<Slot>, path: string, c: string)
    ensures SlotCopies(slots, c) == SlotCopies(Drop(slots, path), c)
              + match Find(slots, path) case Some(h) => Count(h.body, c) case None => 0
    ensures forall p :: p != path ==> Find(Drop(slots, path), p) == Find(slots, p)
  {
    if slots != [] && slots[0].path != path {
      DropCopies(slots[1..], path, c);
      assert Drop(slots, path)[1..] == Drop(slots[1..], path);
    }
  }

  /** If no slot loses a copy, the slots as a whole do not. */
  lemma {:induction false} NoneLost(slots: seq<Slot>, heads: seq<Slot>, checks: seq<string>, c: string)
    requires UniquePaths(slots)
    requires forall s :: s in slots ==> !Loses(Ix(heads, checks), s, c)
    ensures SlotCopies(slots, c) <= SlotCopies(heads, c)
  {
    if slots != [] {
      var s, rest := slots[0], slots[1..];
      assert s in slots;
      DropCopies(heads, s.path, c);
      forall t | t in rest ensures !Loses(Ix(Drop(heads, s.path), checks), t, c) {
        var j :| 0 <= j < |rest| && rest[j] == t;
        assert slots[j + 1] == t && t.path != s.path && !Loses(Ix(heads, checks), t, c);
      }
      assert UniquePaths(rest);
      NoneLost(rest, Drop(heads, s.path), checks, c);
    }
  }

  /** Conservation: if an instruction's copies of a check fall, some change names it; if they do
      not, none says it was removed from the handler. */
  lemma {:induction false} HandlerConservation(base: Ix, head: Ix, instead: Instead, c: string)
    requires UniquePaths(base.slots) && head.slots != []
    ensures BodyTotal(head, c) < BodyTotal(base, c) ==> Named(Findings(base, head, instead), c)
    ensures BodyTotal(head, c) >= BodyTotal(base, c) ==> !SaidRemoved(Findings(base, head, instead), c)
  {
    var slots := AllSlotFindings(base, head, instead, base.slots);
    var whole := LostFindings(base, head, base.checks, head.checks, instead, None, Once(base.checks));
    NamedConcat(slots, whole, c);
    SlotsNamed(base, head, instead, base.slots, c);
    LostNamed(base, head, base.checks, head.checks, instead, None, Once(base.checks), c);
    if BodyTotal(head, c) < BodyTotal(base, c) && Count(base.checks, c) <= Count(head.checks, c) {
      if forall s :: s in base.slots ==> !Loses(head, s, c) {
        assert head == Ix(head.slots, head.checks);
        NoneLost(base.slots, head.slots, head.checks, c);
      }
    }
    CountIn(base.checks, c);
  }

  // ----------------------------------------------------- which change it is

  /** The copies of `c` that a part of base has and head's does not are a loss of the instruction. */
  predicate LosesCopies(base: Ix, head: Ix, b: seq<string>, h: seq<string>, c: string) {
    Count(h, c) < Count(b, c) && BodyTotal(head, c) < BodyTotal(base, c)
  }

  /** The finding for a loss of `c` that `instead` reads as `other`. */
  function FindingFor(c: string, other: Option<string>): Finding {
    match other case Some(slot) => MovedToDeclared(c, slot) case None => RemovedFromHandler(c)
  }

  lemma {:induction false} LostHave(base: Ix, head: Ix, b: seq<string>, h: seq<string>, instead: Instead,
      slot: Option<string>, c: string, other: Option<string>)
    ensures FindingFor(c, other) in LostFindings(base, head, b, h, instead, slot, Once(b)) <==>
              LosesCopies(base, head, b, h, c) && instead(c, slot) == other
  {
    LostAmong(base, head, b, h, instead, slot, Once(b), c, other);
    CountIn(b, c);
    hide BodyTotal;
  }

  lemma {:induction false} LostAmong(base: Ix, head: Ix, b: seq<string>, h: seq<string>, instead: Instead,
      slot: Option<string>, todo: seq<string>, c: string, other: Option<string>)
    ensures FindingFor(c, other) in LostFindings(base, head, b, h, instead, slot, todo) <==>
              c in todo && LosesCopies(base, head, b, h, c) && instead(c, slot) == other
  {
    hide BodyTotal, Count;
    if todo != [] {
      LostAmong(base, head, b, h, instead, slot, todo[..|todo| - 1], c, other);
      assert todo == todo[..|todo| - 1] + [todo[|todo| - 1]];
    }
  }

  /** `c` is said to be lost to `other`: declared on that slot, or removed, by itself or among a
      placeholder's. */
  ghost predicate SaidLost(fs: seq<Finding>, c: string, other: Option<string>) {
    if other.Some? then MovedToDeclared(c, other.value) in fs else SaidRemoved(fs, c)
  }

  lemma SaidConcat(a: seq<Finding>, b: seq<Finding>, c: string, other: Option<string>)
    ensures SaidLost(a + b, c, other) <==> SaidLost(a, c, other) || SaidLost(b, c, other)
  {
    NamedConcat(a, b, c);
  }

  lemma {:induction false} SaidFor(fs: seq<Finding>, c: string, other: Option<string>)
    requires forall f :: f in fs ==> f.RemovedFromHandler? || f.MovedToDeclared?
    ensures SaidLost(fs, c, other) <==> FindingFor(c, other) in fs
    ensures SaidLost(Gathered(fs), c, other) <==> SaidLost(fs, c, other)
  {
    RemovedSplit(fs, c);
    if other.None? {
      if SaidRemoved(fs, c) { var f :| f in fs && SaysRemoved(f, c); }
      if RemovedFromHandler(c) in fs { assert SaysRemoved(RemovedFromHandler(c), c); }
      GatheredRemoved(fs, c);
    } else {
      KeptMoved(fs, MovedToDeclared(c, other.value));
    }
  }

  lemma {:induction false} GatheredRemoved(fs: seq<Finding>, c: string)
    requires forall f :: f in fs ==> f.RemovedFromHandler? || f.MovedToDeclared?
    ensures SaidRemoved(Gathered(fs), c) <==> SaidRemoved(fs, c)
  {
    RemovedSplit(fs, c);
    if RemovedChecks(fs) != [] {
      var whole := NowPlaceholder(RemovedChecks(fs));
      NamedConcat(NotRemoved(fs), [whole], c);
      assert whole in [whole];
      assert SaysRemoved(whole, c) <==> c in RemovedChecks(fs);
    } else {
      assert NotRemoved(fs) + [] == NotRemoved(fs);
    }
  }

  lemma {:induction false} KeptMoved(fs: seq<Finding>, f: Finding)
    requires f.MovedToDeclared?
    ensures f in Gathered(fs) <==> f in fs
  {
    NotRemovedHas(fs, f);
  }

  lemma {:induction false} NotRemovedHas(fs: seq<Finding>, f: Finding)
    requires f.MovedToDeclared?
    ensures f in NotRemoved(fs) <==> f in fs
  {
    if fs != [] {
      NotRemovedHas(fs[1..], f);
      assert fs == [fs[0]] + fs[1..];
    }
  }

  /** A base slot loses `c` to `other`. */
  ghost predicate SlotLoses(base: Ix, head: Ix, instead: Instead, s: Slot, c: string, other: Option<string>) {
    && Find(head.slots, s.path).Some? && instead(c, Some(s.path)) == other
    && LosesCopies(base, head, s.body, Find(head.slots, s.path).value.body, c)
  }

  lemma {:induction false} SlotSaid(base: Ix, head: Ix, instead: Instead, s: Slot, c: string, other: Option<string>)
    ensures SaidLost(SlotFindings(base, head, instead, s), c, other) <==> SlotLoses(base, head, instead, s, c, other)
  {
    hide BodyTotal;
    match Find(head.slots, s.path)
    case None =>
    case Some(h) =>
      var fs := LostFindings(base, head, s.body, h.body, instead, Some(s.path), Once(s.body));
      LostHave(base, head, s.body, h.body, instead, Some(s.path), c, other);
      LostKinds(base, head, s.body, h.body, instead, Some(s.path), Once(s.body));
      SaidFor(fs, c, other);
  }

  lemma {:induction false} SlotsSaid(base: Ix, head: Ix, instead: Instead, slots: seq<Slot>, c: string,
      other: Option<string>)
    ensures SaidLost(AllSlotFindings(base, head, instead, slots), c, other) <==>
              exists s :: s in slots && SlotLoses(base, head, instead, s, c, other)
  {
    hide SlotFindings, SaidLost, SlotLoses;
    if slots == [] {
      NoneSaid(c, other);
    } else {
      var init, last := slots[..|slots| - 1], slots[|slots| - 1];
      SlotsSaid(base, head, instead, init, c, other);
      SlotSaid(base, head, instead, last, c, other);
      SaidConcat(AllSlotFindings(base, head, instead, init), SlotFindings(base, head, instead, last), c, other);
      assert slots == init + [last];
    }
  }

  lemma NoneSaid(c: string, other: Option<string>)
    ensures !SaidLost([], c, other)
  {
  }

  /** A check is said to be removed exactly where its copies are lost and nothing declares it instead, and
      said to be declared on a slot exactly where that slot is what declares it. */
  lemma {:induction false} LossExact(base: Ix, head: Ix, instead: Instead, c: string, other: Option<string>)
    ensures SaidLost(Findings(base, head, instead), c, other) <==>
            || (LosesCopies(base, head, base.checks, head.checks, c) && instead(c, None) == other)
            || (exists s :: s in base.slots && SlotLoses(base, head, instead, s, c, other))
  {
    var whole := LostFindings(base, head, base.checks, head.checks, instead, None, Once(base.checks));
    SaidConcat(AllSlotFindings(base, head, instead, base.slots), whole, c, other);
    SlotsSaid(base, head, instead, base.slots, c, other);
    LostHave(base, head, base.checks, head.checks, instead, None, c, other);
    LostKinds(base, head, base.checks, head.checks, instead, None, Once(base.checks));
    SaidFor(whole, c, other);
    hide SaidLost, SlotLoses, LosesCopies, AllSlotFindings, LostFindings;
  }

  /** A slot that is gone is said to be, with its checks, exactly when it had any and head has the
      instruction. */
  lemma {:induction false} GoneExact(base: Ix, head: Ix, instead: Instead, cs: seq<string>)
    ensures SlotRemoved(cs) in Findings(base, head, instead) <==>
              head.slots != [] &&
              exists s :: s in base.slots && Find(head.slots, s.path).None? && cs == ChecksOf(s) && cs != []
  {
    LostKinds(base, head, base.checks, head.checks, instead, None, Once(base.checks));
    SlotsGone(base, head, instead, base.slots, cs);
    hide ChecksOf;
  }

  lemma {:induction false} SlotsGone(base: Ix, head: Ix, instead: Instead, slots: seq<Slot>, cs: seq<string>)
    ensures SlotRemoved(cs) in AllSlotFindings(base, head, instead, slots) <==>
              head.slots != [] &&
              exists s :: s in slots && Find(head.slots, s.path).None? && cs == ChecksOf(s) && cs != []
  {
    hide ChecksOf, LostFindings, Gathered;
    if slots != [] {
      var init, last := slots[..|slots| - 1], slots[|slots| - 1];
      SlotsGone(base, head, instead, init, cs);
      OfKept(base, head, instead, last, SlotRemoved(cs));
      assert slots == init + [last];
    }
  }

  /** What is said of a slot that head has. */
  lemma {:induction false} OfKept(base: Ix, head: Ix, instead: Instead, s: Slot, f: Finding)
    requires !f.RemovedFromHandler? && !f.MovedToDeclared?
    ensures Find(head.slots, s.path).Some? ==>
              var h := Find(head.slots, s.path).value;
              var fs := LostFindings(base, head, s.body, h.body, instead, Some(s.path), Once(s.body));
              f in SlotFindings(base, head, instead, s) <==>
              h.placeholder && !s.placeholder && RemovedChecks(fs) != [] && f == NowPlaceholder(RemovedChecks(fs))
  {
    if Find(head.slots, s.path).Some? {
      var h := Find(head.slots, s.path).value;
      var fs := LostFindings(base, head, s.body, h.body, instead, Some(s.path), Once(s.body));
      LostKinds(base, head, s.body, h.body, instead, Some(s.path), Once(s.body));
      KeptKinds(fs);
      hide LostFindings;
    }
  }

  lemma {:induction false} KeptKinds(fs: seq<Finding>)
    ensures forall f :: f in NotRemoved(fs) ==> f in fs
  {
    if fs != [] { KeptKinds(fs[1..]); }
  }

  /** Removals are one line that says so exactly where the slot newly is a placeholder: then no removal is
      said by itself of it. */
  lemma {:induction false} PlaceholderExact(base: Ix, head: Ix, instead: Instead, s: Slot, c: string)
    requires Find(head.slots, s.path).Some? && SaidRemoved(SlotFindings(base, head, instead, s), c)
    ensures RemovedFromHandler(c) in SlotFindings(base, head, instead, s) <==>
              !(Find(head.slots, s.path).value.placeholder && !s.placeholder)
  {
    var h := Find(head.slots, s.path).value;
    var fs := LostFindings(base, head, s.body, h.body, instead, Some(s.path), Once(s.body));
    LostKinds(base, head, s.body, h.body, instead, Some(s.path), Once(s.body));
    NoneKept(fs, c);
    SaidFor(fs, c, None);
    hide LostFindings;
  }

  lemma {:induction false} NoneKept(fs: seq<Finding>, c: string)
    ensures RemovedFromHandler(c) !in NotRemoved(fs)
  {
    if fs != [] { NoneKept(fs[1..], c); }
  }

  lemma {:induction false} CountConcat(a: seq<string>, b: seq<string>, c: string)
    ensures Count(a + b, c) == Count(a, c) + Count(b, c)
  {
    if a == [] {
      assert a + b == b;
    } else {
      CountConcat(a[1..], b, c);
      assert (a + b)[1..] == a[1..] + b;
    }
  }

  lemma {:induction false} OnceCount(v: seq<string>, c: string)
    ensures Count(Once(v), c) == if c in v then 1 else 0
  {
    if v != [] {
      var init, last := v[..|v| - 1], v[|v| - 1];
      OnceCount(init, c);
      assert v == init + [last];
      CountConcat(Once(init), [last], c);
      assert [last][1..] == [];
    }
  }

  /** A slot that is gone is said to have had what it declared and what `validate()` asks, copies and all,
      and each check of the handler's once. */
  lemma ChecksOfExact(s: Slot, c: string)
    ensures Count(ChecksOf(s), c) == Count(s.declared, c) + (if c in s.body then 1 else 0) + Count(s.validate, c)
  {
    CountConcat(s.declared + Once(s.body), s.validate, c);
    CountConcat(s.declared, Once(s.body), c);
    OnceCount(s.body, c);
  }

  /** The line of a placeholder comes last of what is said of its slot, and lists exactly what is
      said removed. */
  lemma PlaceholderLast(base: Ix, head: Ix, instead: Instead, s: Slot, cs: seq<string>)
    requires NowPlaceholder(cs) in SlotFindings(base, head, instead, s)
    ensures var said := SlotFindings(base, head, instead, s); said[|said| - 1] == NowPlaceholder(cs)
    ensures Find(head.slots, s.path).Some?
    ensures forall c :: c in cs <==> SaidRemoved(SlotFindings(base, head, instead, s), c)
  {
    OfKept(base, head, instead, s, NowPlaceholder(cs));
    var h := Find(head.slots, s.path).value;
    var fs := LostFindings(base, head, s.body, h.body, instead, Some(s.path), Once(s.body));
    LostKinds(base, head, s.body, h.body, instead, Some(s.path), Once(s.body));
    assert cs == RemovedChecks(fs);
    assert SlotFindings(base, head, instead, s) == Gathered(fs);
    forall c ensures c in cs <==> SaidRemoved(Gathered(fs), c) {
      GatheredRemoved(fs, c);
      RemovedSplit(fs, c);
    }
  }
}
