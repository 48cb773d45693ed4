/** What the reader of native conditions does not miss (crates/solinv-static/src/native.rs): a
    condition written as a check is read, and as no less than the check it is. */
module NativeComplete {
  import opened Common
  import opened NativeSyntax
  import opened NativeRead
  import opened NativeSound
  import opened NativeCalls

  // ----------------------------------------------------- what is a check

  /** An account's key or owner, `v.key` or `v.owner`, in parentheses or not. */
  predicate SideText(t: Term) {
    match t
    case Dot(v, Check(k)) => IsPath(v) && (k == Key || k == Owner)
    case Cond(Part(Unit(Val(v)))) => SideText(v)
    case _ => false
  }

  /** A name that may be a parameter a caller passes a key for. */
  predicate NameText(t: Term) {
    match t
    case Name(x) => IsIdent(x)
    case Cond(Part(Unit(Val(v)))) => NameText(v)
    case _ => false
  }

  predicate ZeroText(t: Term) {
    match t
    case Zero => true
    case Cond(Part(Unit(Val(v)))) => ZeroText(v)
    case _ => false
  }

  /** A comparison of `a` with `b` is a check: a key, an owner or a name on either side, or a
      `sol_memcmp` of such against 0. */
  predicate Equates(a: Term, b: Term)
    decreases Memcmps(a) + Memcmps(b), 1, 0
  {
    SideText(a) || SideText(b) || NameText(a) || NameText(b) || (ZeroText(b) && ComparesIn(a)) ||
    (ZeroText(a) && ComparesIn(b))
  }

  predicate ComparesIn(t: Term)
    decreases Memcmps(t), 0, t
  {
    match t
    case Memcmp(x, y, _) => Equates(x, y)
    case Cond(Part(Unit(Val(v)))) => ComparesIn(v)
    case _ => false
  }

  /** One operand that is a check of an account on a path: a flag, its owner, its key or owner
      compared, or that in a fn that is named as an equality and not seen. */
  predicate IsCheck(rd: Reader, u: Unary) {
    match u
    case Val(Dot(v, Check(k))) => IsPath(v) && (k == Signer || k == Writable || k == Executable)
    case OwnedBy(v, _) => IsPath(v)
    case Cmp(ne, a, b) => !ne && Equates(a, b)
    case Call(f, args) => f !in rd.preds && IsEqName(f) && |args| == 2 && Equates(args[0], args[1])
    case _ => false
  }

  /** `u`, when a condition rejects unless it holds, is checked: itself, in parentheses or a hint, a
      conjunction of such, or a call of a one-expression fn that is such, `left` calls deep. */
  predicate Holding(rd: Reader, u: Unary, left: nat)
    decreases left, u
  {
    match u
    case Val(Cond(g)) => HoldingE(rd, g, left)
    case Hint(g) => HoldingE(rd, g, left)
    case Call(f, args) =>
      if f in rd.preds && |args| == |rd.preds[f].params|
      then left > 0 && HoldingE(rd, Subst(rd.preds[f].params, args, rd.preds[f].body), left - 1)
      else IsCheck(rd, u)
    case _ => IsCheck(rd, u)
  }

  predicate HoldingE(rd: Reader, e: Expr, left: nat)
    decreases left, e
  {
    e.Part? && HoldingC(rd, e.c, left)
  }

  predicate HoldingC(rd: Reader, c: Conj, left: nat)
    decreases left, c
  {
    Holding(rd, c.u, left) && (c.And? ==> HoldingC(rd, c.rest, left))
  }

  /** `u`, when it rejects, is a check: a negation, an inequality, either in parentheses or a hint, or a
      call of a one-expression fn whose condition is. */
  predicate Rejecting(rd: Reader, u: Unary, left: nat)
    decreases left, u
  {
    match u
    case Not(v) => Holding(rd, v, left)
    case Cmp(ne, a, b) => ne && Equates(a, b)
    case Val(Cond(g)) => g.Part? && g.c.Unit? && Rejecting(rd, g.c.u, left)
    case Hint(g) => g.Part? && g.c.Unit? && Rejecting(rd, g.c.u, left)
    case Call(f, args) =>
      && f in rd.preds && |args| == |rd.preds[f].params|
      && left > 0 && Checked(rd, Subst(rd.preds[f].params, args, rd.preds[f].body), left - 1)
    case _ => false
  }

  /** A bare name, in parentheses or not. */
  predicate FlagText(u: Unary) {
    match u
    case Val(Name(x)) => IsIdent(x)
    case Val(Cond(g)) => g.Part? && g.c.Unit? && FlagText(g.c.u)
    case _ => false
  }

  predicate AllFlags(c: Conj) { FlagText(c.u) && (c.And? ==> AllFlags(c.rest)) }

  /** One check, and flags. */
  predicate OneCheck(rd: Reader, c: Conj, left: nat)
    decreases left, c, 0
  {
    || (Rejecting(rd, c.u, left) && (c.And? ==> AllFlags(c.rest)))
    || (c.And? && FlagText(c.u) && OneCheck(rd, c.rest, left))
  }

  /** One `||` part that is a check under its flags, in parentheses or not. */
  predicate PartChecked(rd: Reader, c: Conj, left: nat)
    decreases left, c, 1
  {
    match c
    case Unit(Val(Cond(g))) => g.Part? && PartChecked(rd, g.c, left)
    case _ => OneCheck(rd, c, left)
  }

  predicate PartsChecked(rd: Reader, e: Expr, left: nat)
    decreases left, e, 0
  {
    PartChecked(rd, e.c, left) && (e.Or? ==> PartsChecked(rd, e.rest, left))
  }

  /** A rejecting condition each part of which is a check under flags. */
  predicate Checked(rd: Reader, e: Expr, left: nat)
    decreases left, e, 1
  {
    match e
    case Part(Unit(Val(Cond(g)))) => Checked(rd, g, left)
    case _ => PartsChecked(rd, e, left)
  }

  /** Equal values agree in every byte. */
  ghost predicate Reflexive(w: World) {
    forall n, x {:trigger w.agree(n, x, x)} :: w.agree(n, x, x)
  }

  ghost predicate Setting(w: World, rd: Reader, consts: set<string>, env: Env) {
    Models(w, rd) && Closed(rd, consts) && Knows(w, consts, env) && Reflexive(w)
  }

  // --------------------------------------------------------- one operand

  lemma TextsAreBare(t: Term)
    ensures SideText(t) <==> SideText(BareT(t))
    ensures NameText(t) <==> NameText(BareT(t))
    ensures ZeroText(t) <==> BareT(t).Zero?
    ensures ComparesIn(t) <==> ComparesIn(BareT(t))
    ensures !(BareT(t).Cond? && BareT(t).e.Part? && BareT(t).e.c.Unit? && BareT(t).e.c.u.Val?)
  {
  }

  lemma {:induction false} SidesComplete(w: World, rd: Reader, env: Env, a: Term, b: Term)
    requires env(PROGRAM_ID) == w.thisId
    requires IsSide(a) || IsSide(b) || (a.Name? && IsIdent(a.x)) || (b.Name? && IsIdent(b.x))
    ensures Sides(rd, This(a), This(b)) != []
    ensures AllGuarantee(w, env, Sides(rd, This(a), This(b))) ==> EvalT(w, env, a) == EvalT(w, env, b)
  {
    assert EvalT(w, env, This(a)) == EvalT(w, env, a);
    assert EvalT(w, env, This(b)) == EvalT(w, env, b);
    assert IsSide(This(a)) <==> IsSide(a);
    assert IsSide(This(b)) <==> IsSide(b);
    var atoms := Sides(rd, This(a), This(b));
    if IsSide(a) || IsSide(b) {
      if IsSide(a) { SideAtom(w, env, This(a), This(b)); }
      if IsSide(b) { SideAtom(w, env, This(b), This(a)); }
      assert atoms[0] in atoms && atoms[0].when == [];
    } else {
      PendingAtom(w, env, This(a), This(b));
      PendingAtom(w, env, This(b), This(a));
      assert atoms[0] in atoms && atoms[0].when == [];
    }
  }

  lemma SideAtom(w: World, env: Env, a: Term, b: Term)
    requires IsSide(a)
    ensures AtomTrue(w, env, Plain(a.seg.kind, a.base, Some(b))) <==> EvalT(w, env, a) == EvalT(w, env, b)
  {
  }

  lemma PendingAtom(w: World, env: Env, a: Term, b: Term)
    ensures a.Name? && IsIdent(a.x) ==> PendingOn(a, b) == [Atom(Key, a, Some(b), [], true)]
    ensures AtomTrue(w, env, Atom(Key, a, Some(b), [], true)) <==> EvalT(w, env, a) == EvalT(w, env, b)
  {
  }

  /** A comparison that is a check is read, and what is read says that the two are equal. */
  lemma {:induction false} ComparedComplete(w: World, rd: Reader, env: Env, a: Term, b: Term)
    requires Reflexive(w) && env(PROGRAM_ID) == w.thisId && Equates(a, b)
    ensures Compared(rd, a, b) != []
    ensures AllGuarantee(w, env, Compared(rd, a, b)) ==> EvalT(w, env, a) == EvalT(w, env, b)
    decreases Memcmps(a) + Memcmps(b)
  {
    BareMemcmps(a);
    BareMemcmps(b);
    BareTMeans(w, env, a);
    BareTMeans(w, env, b);
    TextsAreBare(a);
    TextsAreBare(b);
    var x, y := BareT(a), BareT(b);
    if x.Memcmp? && y.Zero? {
      ComparedComplete(w, rd, env, x.a, x.b);
      assert w.agree(x.n, EvalT(w, env, x.a), EvalT(w, env, x.a));
    } else if x.Zero? && y.Memcmp? {
      ComparedComplete(w, rd, env, y.a, y.b);
      assert w.agree(y.n, EvalT(w, env, y.a), EvalT(w, env, y.a));
    } else {
      SidesComplete(w, rd, env, x, y);
    }
  }

  /** A check that must hold is read from its negation, and what is read says that it holds. */
  lemma {:induction false} FailsOnComplete(w: World, rd: Reader, env: Env, u: Unary)
    requires NamedEqual(w, rd) && Reflexive(w) && env(PROGRAM_ID) == w.thisId && IsCheck(rd, u)
    ensures FailsOn(rd, u) != [] && (AllGuarantee(w, env, FailsOn(rd, u)) ==> EvalU(w, env, u))
  {
    var atoms := FailsOn(rd, u);
    match u
    case Val(Dot(v, Check(k))) =>
      assert atoms == [Plain(k, v, None)] && atoms[0] in atoms && atoms[0].when == [];
      assert EvalT(w, env, Dot(v, Check(k))) == w.field(EvalT(w, env, v), Check(k));
    case OwnedBy(v, id) =>
      BareTMeans(w, env, id);
      assert atoms == [Plain(Owner, v, Some(This(BareT(id))))] && atoms[0] in atoms && atoms[0].when == [];
      assert EvalT(w, env, This(BareT(id))) == EvalT(w, env, id);
    case Cmp(_, a, b) => ComparedComplete(w, rd, env, a, b);
    case Call(f, args) =>
      assert EvalArgs(w, env, args) == [EvalT(w, env, args[0]), EvalT(w, env, args[1])];
      ComparedComplete(w, rd, env, args[0], args[1]);
  }

  // ------------------------------------------------- what must hold

  lemma LoneMeans(w: World, env: Env, u: Unary)
    ensures Eval(w, env, Lone(u)) == EvalU(w, env, u)
    ensures u.Hint? ==> EvalU(w, env, u) == Eval(w, env, u.e)
    ensures u.Val? && u.t.Cond? ==> EvalU(w, env, u) == Eval(w, env, u.t.e)
  {
    assert Eval(w, env, Lone(u)) == EvalC(w, env, Unit(u)) == EvalU(w, env, u);
    if u.Val? && u.t.Cond? { GroupMeans(w, env, u.t.e); }
  }

  lemma AllConcat(w: World, env: Env, a: seq<Atom>, b: seq<Atom>)
    ensures AllGuarantee(w, env, a + b) <==> AllGuarantee(w, env, a) && AllGuarantee(w, env, b)
  {
    assert forall x :: x in a + b <==> x in a || x in b;
  }

  /** What must hold and is a check is read from the negation, and what is read says that it holds. */
  lemma {:induction false} HoldingRead(w: World, rd: Reader, consts: set<string>, env: Env, u: Unary, left: nat,
      depth: nat)
    requires Setting(w, rd, consts, env) && depth <= DEPTH && left <= DEPTH - depth && Holding(rd, u, left)
    ensures var atoms := RejectsNot(rd, Bare(Lone(u)), depth);
            atoms != [] && (AllGuarantee(w, env, atoms) ==> EvalU(w, env, u))
    decreases left, 1, u, 1
  {
    hide *;
    LoneMeans(w, env, u);
    HoldingCases(rd, u, left);
    if u.Val? && u.t.Cond? {
      WrappedReads(rd, u, u.t.e, depth);
      HoldingERead(w, rd, consts, env, u.t.e, left, depth);
    } else if u.Hint? {
      WrappedReads(rd, u, u.e, depth);
      HoldingERead(w, rd, consts, env, u.e, left, depth);
    } else if IsInlined(rd, u) {
      Inlines(rd, u);
      CallReads(rd, u.f, u.args, depth);
      InlinedMeans(w, rd, consts, env, u);
      HoldingERead(w, rd, consts, env, Inline(rd, Lone(u)).value, left - 1, depth + 1);
    } else {
      SettingHas(w, rd, consts, env);
      CheckRead(w, rd, env, u, depth);
    }
  }

  /** A call of a one-expression fn. */
  predicate IsInlined(rd: Reader, u: Unary) { u.Call? && u.f in rd.preds && |u.args| == |rd.preds[u.f].params| }

  lemma Inlines(rd: Reader, u: Unary)
    requires IsInlined(rd, u)
    ensures u.Call? && u.f in rd.preds && |u.args| == |rd.preds[u.f].params|
    ensures Inline(rd, Lone(u)) == Some(Subst(rd.preds[u.f].params, u.args, rd.preds[u.f].body))
  {
  }

  lemma HoldingCases(rd: Reader, u: Unary, left: nat)
    requires Holding(rd, u, left)
    ensures u.Val? && u.t.Cond? ==> HoldingE(rd, u.t.e, left)
    ensures u.Hint? ==> HoldingE(rd, u.e, left)
    ensures IsInlined(rd, u) ==>
              left > 0 && Inline(rd, Lone(u)).Some? && HoldingE(rd, Inline(rd, Lone(u)).value, left - 1)
    ensures !(u.Val? && u.t.Cond?) && !u.Hint? && !IsInlined(rd, u) ==> IsCheck(rd, u)
  {
    hide HoldingE, IsCheck;
  }

  lemma {:induction false} CheckRead(w: World, rd: Reader, env: Env, u: Unary, depth: nat)
    requires NamedEqual(w, rd) && Reflexive(w) && env(PROGRAM_ID) == w.thisId && IsCheck(rd, u) && depth <= DEPTH
    ensures var atoms := RejectsNot(rd, Bare(Lone(u)), depth);
            atoms != [] && (AllGuarantee(w, env, atoms) ==> EvalU(w, env, u))
  {
    FailsOnComplete(w, rd, env, u);
    assert Bare(Lone(u)) == Lone(u) && Inline(rd, Lone(u)).None? && SplitAnd(Lone(u)) == [Lone(u)];
    assert RejectsNot(rd, Lone(u), depth) == FailsOn(rd, u);
  }

  lemma {:induction false} HoldingERead(w: World, rd: Reader, consts: set<string>, env: Env, e: Expr, left: nat,
      depth: nat)
    requires Setting(w, rd, consts, env) && depth <= DEPTH && left <= DEPTH - depth && HoldingE(rd, e, left)
    ensures var atoms := RejectsNot(rd, Bare(e), depth);
            atoms != [] && (AllGuarantee(w, env, atoms) ==> Eval(w, env, e))
    decreases left, 1, e, 1
  {
    if e.c.Unit? {
      assert e == Lone(e.c.u);
      LoneMeans(w, env, e.c.u);
      HoldingRead(w, rd, consts, env, e.c.u, left, depth);
    } else {
      assert Bare(e) == e && Inline(rd, e).None?;
      SplitAndParts(w, env, e);
      var pieces := SplitAnd(e);
      PiecesHolding(rd, e.c, left);
      EachRead(w, rd, consts, env, pieces, Size(e), e.c, left, depth);
      assert RejectsNot(rd, e, depth) == RejectsEach(rd, pieces, Size(e), depth);
    }
  }

  /** The pieces of a conjunction, in order. */
  lemma {:induction false} PiecesHolding(rd: Reader, c: Conj, left: nat)
    requires HoldingC(rd, c, left)
    ensures SplitAnd(Part(c)) == PiecesOf(c)
  {
    if c.And? {
      assert Size(Part(c)) == SizeC(c) && Size(Part(c.rest)) == SizeC(c.rest);
      PiecesHolding(rd, c.rest, left);
    }
  }

  function PiecesOf(c: Conj): seq<Expr> { [Lone(c.u)] + if c.And? then PiecesOf(c.rest) else [] }

  lemma {:induction false} EachRead(w: World, rd: Reader, consts: set<string>, env: Env, pieces: seq<Expr>, bound: nat,
      c: Conj, left: nat, depth: nat)
    requires Setting(w, rd, consts, env) && depth <= DEPTH && left <= DEPTH - depth && HoldingC(rd, c, left)
    requires pieces == PiecesOf(c) && forall p :: p in pieces ==> Size(p) < bound
    ensures var atoms := RejectsEach(rd, pieces, bound, depth);
            atoms != [] && (AllGuarantee(w, env, atoms) ==> forall p :: p in pieces ==> Eval(w, env, p))
    decreases left, 1, c, 1
  {
    assert pieces[0] == Lone(c.u) && pieces[0] in pieces;
    LoneMeans(w, env, c.u);
    HoldingRead(w, rd, consts, env, c.u, left, depth);
    var rest := pieces[1..];
    var first, more := RejectsNot(rd, Bare(pieces[0]), depth), RejectsEach(rd, rest, bound, depth);
    assert RejectsEach(rd, pieces, bound, depth) == first + more;
    AllConcat(w, env, first, more);
    if c.And? {
      assert rest == PiecesOf(c.rest);
      EachRead(w, rd, consts, env, rest, bound, c.rest, left, depth);
    } else {
      assert rest == [];
    }
    assert pieces == [pieces[0]] + rest;
  }

  // ----------------------------------------------------- what rejects

  lemma BareUnparen(e: Expr)
    ensures Bare(Unparen(e)) == Bare(e)
  {
  }

  lemma {:induction false} NotReads(rd: Reader, v: Unary, depth: nat)
    requires depth <= DEPTH
    ensures Rejects(rd, Lone(Not(v)), depth) == RejectsNot(rd, Bare(Lone(v)), depth)
  {
    var e := Lone(Not(v));
    assert Bare(e) == e && LeadsNot(e) && StripNot(e) == Lone(v);
  }

  lemma {:induction false} UnequalReads(rd: Reader, a: Term, b: Term, depth: nat)
    requires depth <= DEPTH
    ensures Rejects(rd, Lone(Cmp(true, a, b)), depth) == Compared(rd, a, b)
  {
    var e := Lone(Cmp(true, a, b));
    assert Bare(e) == e && !LeadsNot(e) && Inline(rd, e).None?;
  }

  lemma {:induction false} WrappedReads(rd: Reader, u: Unary, g: Expr, depth: nat)
    requires depth <= DEPTH && (u == Val(Cond(g)) || u == Hint(g))
    ensures Rejects(rd, Lone(u), depth) == Rejects(rd, g, depth)
    ensures RejectsNot(rd, Bare(Lone(u)), depth) == RejectsNot(rd, Bare(g), depth)
  {
    assert Bare(Lone(u)) == Bare(g);
  }

  /** A call of a one-expression fn, inlined. */
  lemma {:induction false} CallReads(rd: Reader, f: string, args: seq<Term>, depth: nat)
    requires depth < DEPTH && f in rd.preds && |args| == |rd.preds[f].params|
    ensures var body := Subst(rd.preds[f].params, args, rd.preds[f].body);
            && Inline(rd, Lone(Call(f, args))) == Some(body)
            && Rejects(rd, Lone(Call(f, args)), depth) == AtomsIn(rd, body, depth + 1)
            && RejectsNot(rd, Bare(Lone(Call(f, args))), depth) == RejectsNot(rd, Bare(body), depth + 1)
  {
    var e := Lone(Call(f, args));
    assert Bare(e) == e && !LeadsNot(e);
  }

  /** What rejects and is a check is read, and what is read says that it does not. */
  lemma {:induction false} RejectingRead(w: World, rd: Reader, consts: set<string>, env: Env, u: Unary, left: nat,
      depth: nat)
    requires Setting(w, rd, consts, env) && depth <= DEPTH && left <= DEPTH - depth && Rejecting(rd, u, left)
    ensures var atoms := Rejects(rd, Lone(u), depth);
            atoms != [] && (AllGuarantee(w, env, atoms) ==> !EvalU(w, env, u))
    decreases left, 1, u, 2
  {
    LoneMeans(w, env, u);
    hide Setting, Rejects, RejectsNot, AtomsIn, Compared, AllGuarantee, Holding, Checked, Bare, Eval, Inline;
    match u
    case Not(v) =>
      NotReads(rd, v, depth);
      HoldingRead(w, rd, consts, env, v, left, depth);
    case Cmp(ne, a, b) =>
      UnequalReads(rd, a, b, depth);
      SettingHas(w, rd, consts, env);
      ComparedComplete(w, rd, env, a, b);
    case Val(Cond(g)) =>
      LoneMeans(w, env, g.c.u);
      assert g == Lone(g.c.u);
      WrappedReads(rd, u, g, depth);
      RejectingRead(w, rd, consts, env, g.c.u, left, depth);
    case Hint(g) =>
      LoneMeans(w, env, g.c.u);
      assert g == Lone(g.c.u);
      WrappedReads(rd, u, g, depth);
      RejectingRead(w, rd, consts, env, g.c.u, left, depth);
    case Call(f, args) =>
      CallReads(rd, f, args, depth);
      InlinedMeans(w, rd, consts, env, u);
      CheckedRead(w, rd, consts, env, Inline(rd, Lone(u)).value, left - 1, depth + 1);
  }

  lemma InlinedMeans(w: World, rd: Reader, consts: set<string>, env: Env, u: Unary)
    requires Setting(w, rd, consts, env) && Inline(rd, Lone(u)).Some?
    ensures Eval(w, env, Inline(rd, Lone(u)).value) == EvalU(w, env, u)
  {
    LoneMeans(w, env, u);
    InlineMeans(w, rd, consts, env, Lone(u));
  }

  lemma SettingHas(w: World, rd: Reader, consts: set<string>, env: Env)
    requires Setting(w, rd, consts, env)
    ensures NamedEqual(w, rd) && Reflexive(w) && env(PROGRAM_ID) == w.thisId
  {
  }

  /** A flag as its text is read. */
  lemma {:induction false} FlagRead(w: World, env: Env, u: Unary)
    requires FlagText(u)
    ensures IsFlag(Unparen(Lone(u))) && EvalU(w, env, u) == (env(Unparen(Lone(u)).c.u.t.x) != 0)
  {
    LoneMeans(w, env, u);
    match u
    case Val(Cond(g)) =>
      assert g == Lone(g.c.u) && Unparen(Lone(u)) == Unparen(g);
      FlagRead(w, env, g.c.u);
      LoneMeans(w, env, g.c.u);
    case _ =>
  }

  lemma {:induction false} NoFlag(rd: Reader, u: Unary, left: nat)
    requires Rejecting(rd, u, left)
    ensures !IsFlag(Unparen(Lone(u)))
    decreases u
  {
    match u
    case Val(Cond(g)) =>
      assert g == Lone(g.c.u) && Unparen(Lone(u)) == Unparen(g);
      NoFlag(rd, g.c.u, left);
    case _ =>
  }

  lemma {:induction false} FlagsOnly(w: World, env: Env, c: Conj)
    requires AllFlags(c)
    ensures Checks(PiecesOf(c), true) == []
    ensures EvalC(w, env, c) ==> FlagsTrue(env, Flags(PiecesOf(c), true))
  {
    FlagRead(w, env, c.u);
    var pieces := PiecesOf(c);
    assert pieces[0] == Lone(c.u);
    if c.And? {
      assert pieces[1..] == PiecesOf(c.rest);
      FlagsOnly(w, env, c.rest);
      FlagsFirst(env, Unparen(Lone(c.u)).c.u.t.x, Flags(pieces[1..], true));
    } else {
      assert pieces[1..] == [];
      FlagsFirst(env, Unparen(Lone(c.u)).c.u.t.x, []);
    }
  }

  /** The check among the flags of one part. */
  lemma {:induction false} OneCheckRead(w: World, rd: Reader, env: Env, c: Conj, left: nat, several: bool)
      returns (u: Unary)
    requires OneCheck(rd, c, left) && (c.And? ==> several)
    ensures Rejecting(rd, u, left) && Checks(PiecesOf(c), several) == [Unparen(Lone(u))]
    ensures EvalC(w, env, c) ==> FlagsTrue(env, Flags(PiecesOf(c), several)) && EvalU(w, env, u)
    decreases c
  {
    var pieces := PiecesOf(c);
    assert pieces[0] == Lone(c.u);
    if Rejecting(rd, c.u, left) && (c.And? ==> AllFlags(c.rest)) {
      u := c.u;
      NoFlag(rd, u, left);
      if c.And? {
        assert pieces[1..] == PiecesOf(c.rest);
        FlagsOnly(w, env, c.rest);
        assert Flags(pieces, several) == [] + Flags(pieces[1..], several);
      } else {
        assert pieces[1..] == [];
      }
    } else {
      u := OneCheckRead(w, rd, env, c.rest, left, several);
      assert pieces[1..] == PiecesOf(c.rest);
      FlagRead(w, env, c.u);
      FlagsFirst(env, Unparen(Lone(c.u)).c.u.t.x, Flags(pieces[1..], true));
    }
  }

  lemma SplitPieces(c: Conj)
    ensures SplitAnd(Part(c)) == PiecesOf(c) && (|PiecesOf(c)| > 1 <==> c.And?)
  {
    if c.And? {
      assert Size(Part(c)) == SizeC(c) && Size(Part(c.rest)) == SizeC(c.rest);
      SplitPieces(c.rest);
    }
  }

  lemma NeededGuarantee(w: World, env: Env, atoms: seq<Atom>, flags: seq<string>)
    requires FlagsTrue(env, flags) && AllGuarantee(w, env, Needing(atoms, flags))
    ensures AllGuarantee(w, env, atoms)
  {
    forall a | a in atoms ensures Guarantees(w, env, a) {
      var i :| 0 <= i < |atoms| && atoms[i] == a;
      var b := Needing(atoms, flags)[i];
      assert b in Needing(atoms, flags) && b == a.(when := a.when + flags);
      if FlagsTrue(env, a.when) {
        assert forall f :: f in b.when ==> f in a.when || f in flags;
        assert FlagsTrue(env, b.when);
      }
    }
  }

  /** One part that is a check under flags is read, and what is read says that it does not reject. */
  lemma {:induction false} PartRead(w: World, rd: Reader, consts: set<string>, env: Env, c: Conj, left: nat, depth: nat)
    requires Setting(w, rd, consts, env) && depth <= DEPTH && left <= DEPTH - depth && PartChecked(rd, c, left)
    ensures var atoms := PartAtoms(rd, Unparen(Part(c)), depth);
            atoms != [] && (AllGuarantee(w, env, atoms) ==> !EvalC(w, env, c))
    decreases left, 3, c
  {
    if c.Unit? && c.u.Val? && c.u.t.Cond? {
      var g := c.u.t.e;
      LoneMeans(w, env, c.u);
      assert Part(c) == Lone(c.u) && g == Part(g.c) && Unparen(Part(c)) == Unparen(g);
      assert EvalC(w, env, c) == EvalU(w, env, c.u) == Eval(w, env, g) == EvalC(w, env, g.c);
      hide Setting, PartAtoms, AllGuarantee, EvalC, Unparen;
      PartRead(w, rd, consts, env, g.c, left, depth);
    } else {
      assert Unparen(Part(c)) == Part(c);
      FlaggedRead(w, rd, consts, env, c, left, depth);
    }
  }

  lemma {:induction false} FlaggedRead(w: World, rd: Reader, consts: set<string>, env: Env, c: Conj, left: nat,
      depth: nat)
    requires Setting(w, rd, consts, env) && depth <= DEPTH && left <= DEPTH - depth && OneCheck(rd, c, left)
    ensures var atoms := PartAtoms(rd, Part(c), depth);
            atoms != [] && (AllGuarantee(w, env, atoms) ==> !EvalC(w, env, c))
    decreases left, 2, c
  {
    SplitPieces(c);
    var several := |PiecesOf(c)| > 1;
    var u := OneCheckRead(w, rd, env, c, left, several);
    BareUnparen(Lone(u));
    assert Rejects(rd, Unparen(Lone(u)), depth) == Rejects(rd, Lone(u), depth);
    var atoms, flags := Rejects(rd, Unparen(Lone(u)), depth), Flags(PiecesOf(c), several);
    assert PartAtoms(rd, Part(c), depth) == Needing(atoms, flags);
    hide Setting, AllGuarantee, EvalC, EvalU, Rejects, PartAtoms, Flags, Checks, PiecesOf, Rejecting, FlagsTrue;
    RejectingRead(w, rd, consts, env, u, left, depth);
    if EvalC(w, env, c) && AllGuarantee(w, env, Needing(atoms, flags)) {
      NeededGuarantee(w, env, atoms, flags);
    }
  }

  lemma {:induction false} PartsRead(w: World, rd: Reader, consts: set<string>, env: Env, e: Expr, left: nat,
      depth: nat)
    requires Setting(w, rd, consts, env) && depth <= DEPTH && left <= DEPTH - depth && PartsChecked(rd, e, left)
    ensures var atoms := PartsAtoms(rd, e, depth);
            atoms != [] && (AllGuarantee(w, env, atoms) ==> !Eval(w, env, e))
    decreases left, 4, e
  {
    PartRead(w, rd, consts, env, e.c, left, depth);
    var first := PartAtoms(rd, Unparen(Part(e.c)), depth);
    if e.Or? {
      PartsRead(w, rd, consts, env, e.rest, left, depth);
      assert PartsAtoms(rd, e, depth) == first + PartsAtoms(rd, e.rest, depth);
      AllConcat(w, env, first, PartsAtoms(rd, e.rest, depth));
    } else {
      assert PartsAtoms(rd, e, depth) == first + [] == first;
    }
  }

  /** A condition each part of which is a check under flags is read, and what is read says that it does
      not reject: no check in it is missed or made less of. */
  lemma {:induction false} CheckedRead(w: World, rd: Reader, consts: set<string>, env: Env, e: Expr, left: nat,
      depth: nat)
    requires Setting(w, rd, consts, env) && depth <= DEPTH && left <= DEPTH - depth && Checked(rd, e, left)
    ensures var atoms := AtomsIn(rd, e, depth);
            atoms != [] && (AllGuarantee(w, env, atoms) ==> !Eval(w, env, e))
    decreases left, 5, e
  {
    if e.Part? && e.c.Unit? && e.c.u.Val? && e.c.u.t.Cond? {
      LoneMeans(w, env, e.c.u);
      assert e == Lone(e.c.u) && Unparen(e) == Unparen(e.c.u.t.e);
      CheckedRead(w, rd, consts, env, e.c.u.t.e, left, depth);
    } else {
      assert Unparen(e) == e;
      PartsRead(w, rd, consts, env, e, left, depth);
    }
  }

  /** `c` is one of the `||` parts of `e`. */
  predicate HasPart(e: Expr, c: Conj) { e.c == c || (e.Or? && HasPart(e.rest, c)) }

  /** A part that is a check is read whatever the other parts are: `a` alone would be read as some atom,
      and every atom it would be read as is read of the whole. */
  lemma {:induction false} PartReadAmong(w: World, rd: Reader, consts: set<string>, env: Env, e: Expr, c: Conj)
    requires Setting(w, rd, consts, env) && e.Or? && HasPart(e, c) && PartChecked(rd, c, 4)
    ensures AtomsIn(rd, Part(c), 0) != [] && forall a :: a in AtomsIn(rd, Part(c), 0) ==> a in AtomsIn(rd, e, 0)
    ensures AllGuarantee(w, env, AtomsIn(rd, e, 0)) ==> !EvalC(w, env, c)
  {
    PartRead(w, rd, consts, env, c, 4, 0);
    PartAlone(rd, c);
    assert Unparen(e) == e;
    PartAmong(rd, e, c);
  }

  lemma {:induction false} PartAlone(rd: Reader, c: Conj)
    requires PartChecked(rd, c, 4)
    ensures AtomsIn(rd, Part(c), 0) == PartAtoms(rd, Unparen(Part(c)), 0)
  {
    PartStays(rd, c, 4);
    var p := Unparen(Part(c));
    UnparenTwice(Part(c));
    assert PartsAtoms(rd, p, 0) == PartAtoms(rd, Unparen(Part(p.c)), 0) + [];
  }

  lemma PartStays(rd: Reader, c: Conj, left: nat)
    requires PartChecked(rd, c, left)
    ensures Unparen(Part(c)).Part?
    decreases c
  {
    if c.Unit? && c.u.Val? && c.u.t.Cond? { PartStays(rd, c.u.t.e.c, left); }
  }

  lemma UnparenTwice(e: Expr)
    ensures Unparen(Unparen(e)) == Unparen(e)
  {
  }

  lemma {:induction false} PartAmong(rd: Reader, e: Expr, c: Conj)
    requires HasPart(e, c)
    ensures forall a :: a in PartAtoms(rd, Unparen(Part(c)), 0) ==> a in PartsAtoms(rd, e, 0)
    decreases e
  {
    if e.c != c { PartAmong(rd, e.rest, c); }
  }

  /** The fns taken for equalities by their name: `cmp_pubkeys`, and lower-case names that end in `eq`
      or `_equal`. */
  lemma {:induction false} EqNameExact(f: string)
    ensures IsEqName(f) <==>
              || f == "cmp_pubkeys"
              || ((forall c :: c in f ==> 'a' <= c <= 'z' || c == '_') &&
                  ((exists p :: f == p + "eq") || (exists p :: f == p + "_equal")))
  {
    EndsExact(f, "eq");
    EndsExact(f, "_equal");
    hide EndsWith;
    if forall c :: c in f ==> 'a' <= c <= 'z' || c == '_' {
      forall i | 0 <= i < |f| ensures 'a' <= f[i] <= 'z' || f[i] == '_' {
        assert f[i] in f;
      }
    }
  }

  /** A name is made of ASCII letters, digits and `_`, and starts with no digit and no capital. */
  lemma IdentExact(x: string)
    ensures IsIdent(x) <==>
              && x != "" && !('0' <= x[0] <= '9') && !('A' <= x[0] <= 'Z')
              && forall c :: c in x ==> 'a' <= c <= 'z' || 'A' <= c <= 'Z' || '0' <= c <= '9' || c == '_'
  {
    if x != "" && forall c :: c in x ==> 'a' <= c <= 'z' || 'A' <= c <= 'Z' || '0' <= c <= '9' || c == '_' {
      forall i | 0 <= i < |x| ensures WordChar(x[i]) {
        assert x[i] in x;
      }
    }
  }

  lemma EndsExact(f: string, suffix: string)
    ensures EndsWith(f, suffix) <==> exists p :: f == p + suffix
  {
    if EndsWith(f, suffix) {
      assert f == f[..|f| - |suffix|] + suffix;
    }
  }

  /** `!vault.is_owned_by(&crate::ID)`, whatever the vault's path. */
  lemma OwnerRead(rd: Reader, vault: Term)
    requires IsPath(vault)
    ensures AtomsIn(rd, Lone(Not(OwnedBy(vault, ThisId))), 0) == [Plain(Owner, vault, Some(Name("program_id")))]
  {
    var e, held := Lone(Not(OwnedBy(vault, ThisId))), Lone(OwnedBy(vault, ThisId));
    assert Bare(e) == e && StripNot(e) == held && Bare(held) == held && Inline(rd, held) == None;
    assert SplitAnd(held) == [held] && SplitAnd(e) == [e];
    assert RejectsNot(rd, held, 0) == FailsOn(rd, OwnedBy(vault, ThisId));
    assert Checks([e], false) == [e] + Checks([e][1..], false) == [e];
    assert Flags([e], false) == [] + Flags([e][1..], false) == [];
    assert PartAtoms(rd, e, 0) == Needing(Rejects(rd, e, 0), []);
  }

  // ------------------------------------------------------------ whole fns

  /** Fn `i` has what its own conditions check, at their places, and what its calls carry. */
  lemma {:induction false} HoldsHas(prog: Program, i: nat, at: nat, a: Atom)
    requires i < |prog.fns| && at < |prog.fns[i].body| && a.when == [] && !a.pending
    ensures prog.fns[i].body[at].RejectIf? && a in AtomsIn(prog.rd, prog.fns[i].body[at].cond, 0) ==>
              Placed(prog.fns[i].body, at, a) in Holds(prog, i)
    ensures Followed(prog, i, at) ==>
              forall b :: b in Atoms(prog, Target(prog, i, at), 3) && Carry(prog, i, at, b) == Some(a) ==>
                a in Holds(prog, i)
  {
    var body := prog.fns[i].body;
    if body[at].RejectIf? && a in AtomsIn(prog.rd, body[at].cond, 0) {
      DirectHas(prog, i, 0, at, a);
      assert Placed(body, at, a) in Atoms(prog, i, DEPTH);
    }
    if Followed(prog, i, at) {
      forall b | b in Atoms(prog, Target(prog, i, at), 3) && Carry(prog, i, at, b) == Some(a)
        ensures a in Holds(prog, i)
      {
        CarriedUp(prog, i, at, 0, 3, b, a);
        assert a in Atoms(prog, i, DEPTH);
      }
    }
  }

  lemma {:induction false} DirectHas(prog: Program, i: nat, from: nat, at: nat, a: Atom)
    requires i < |prog.fns| && from <= at < |prog.fns[i].body| && prog.fns[i].body[at].RejectIf?
    requires a in AtomsIn(prog.rd, prog.fns[i].body[at].cond, 0)
    ensures Placed(prog.fns[i].body, at, a) in Direct(prog, i, from)
    decreases at - from
  {
    hide AtomsIn, Placed;
    if from == at {
      var atoms := AtomsIn(prog.rd, prog.fns[i].body[at].cond, 0);
      var n :| 0 <= n < |atoms| && atoms[n] == a;
      assert PlacedAll(prog.fns[i].body, at, atoms)[n] == Placed(prog.fns[i].body, at, a);
    } else {
      DirectHas(prog, i, from + 1, at, a);
    }
  }

  /** The call at `at` passes a literal `true` for a flag that is a parameter of the callee. */
  predicate FlagGiven(prog: Program, i: nat, at: nat, f: string)
    requires Followed(prog, i, at)
  {
    f in prog.fns[Target(prog, i, at)].params ==>
      ArgFor(prog.fns[Target(prog, i, at)].params, prog.fns[i].body[at].args, f) == Name(TRUE)
  }

  /** A check is carried up exactly when each flag it needs that is a parameter is given. */
  lemma {:induction false} CarriedExact(prog: Program, i: nat, at: nat, a: Atom)
    requires Followed(prog, i, at)
    ensures Carry(prog, i, at, a).Some? <==> forall f :: f in a.when ==> FlagGiven(prog, i, at, f)
  {
    FlagsLeftExact(prog.fns[Target(prog, i, at)].params, prog.fns[i].body[at].args, a.when);
  }

  lemma {:induction false} FlagsLeftExact(params: seq<string>, args: seq<Term>, when: seq<string>)
    requires |params| == |args|
    ensures FlagsLeft(params, args, when).Some? <==>
              forall f :: f in when && f in params ==> ArgFor(params, args, f) == Name(TRUE)
  {
    if when != [] {
      FlagsLeftExact(params, args, when[1..]);
      assert when == [when[0]] + when[1..];
    }
  }

  /** Every flag a check of the callee needs, of those it takes, is given. */
  ghost predicate FlagsGiven(prog: Program, i: nat, at: nat, depth: nat)
    requires Followed(prog, i, at)
  {
    forall a, f :: a in Atoms(prog, Target(prog, i, at), depth) && f in a.when ==> FlagGiven(prog, i, at, f)
  }

  /** All that fn `i` rejects on, in its own conditions and in the fns it calls, is a check, and its
      calls nest at most `depth` deep. */
  ghost predicate Readable(prog: Program, i: nat, depth: nat)
    requires i < |prog.fns|
    decreases depth
  {
    && (forall at :: 0 <= at < |prog.fns[i].body| && prog.fns[i].body[at].RejectIf? ==>
          Checked(prog.rd, prog.fns[i].body[at].cond, 4))
    && (forall at: nat :: Followed(prog, i, at) ==>
          depth > 0 && FlagsGiven(prog, i, at, depth - 1) && Readable(prog, Target(prog, i, at), depth - 1))
  }

  /** What is known of a program and a world where every text is carried as it is meant. */
  ghost predicate Fit(w: World, prog: Program, consts: set<string>) {
    && Models(w, prog.rd) && Reflexive(w) && ProgramTidy(prog, consts) && ArgsTidy(prog, consts)
    && w.consts(TRUE) != 0
  }

  lemma {:induction false} OwnPasses(w: World, prog: Program, consts: set<string>, i: nat, env: Env, at: nat)
    requires i < |prog.fns| && at < |prog.fns[i].body| && prog.fns[i].body[at].RejectIf? && Fit(w, prog, consts)
    requires Knows(w, consts, env) && AllGuarantee(w, env, Direct(prog, i, 0))
    requires Checked(prog.rd, prog.fns[i].body[at].cond, 4)
    ensures !Eval(w, EnvAt(w, prog.fns[i].body, at, env), prog.fns[i].body[at].cond)
  {
    var body := prog.fns[i].body;
    var here, atoms := EnvAt(w, body, at, env), AtomsIn(prog.rd, body[at].cond, 0);
    FnTidy(prog, consts, i);
    assert StmtTidy(prog, consts, i, at);
    KnowsAt(w, prog, consts, i, at, env);
    assert Setting(w, prog.rd, consts, here);
    hide AtomsIn, Checked, Direct, EnvAt, Models, ProgramTidy, ArgsTidy, Tidy, Knows, Guarantees;
    forall a | a in atoms ensures Guarantees(w, here, a) {
      DirectHas(prog, i, 0, at, a);
      PathNames(a.var_);
      assert forall f :: f in a.when ==> f !in LetNames(body, at);
      PlacedMeans(w, prog, consts, i, at, env, a);
    }
    CheckedRead(w, prog.rd, consts, here, body[at].cond, 4, 0);
  }

  /** What a call carries up, when it holds in the caller, holds in the callee. */
  lemma {:induction false} CalleeGuaranteed(w: World, prog: Program, consts: set<string>, i: nat, at: nat, env: Env,
      depth: nat)
    requires Followed(prog, i, at) && Fit(w, prog, consts) && Knows(w, consts, env)
    requires FlagsGiven(prog, i, at, depth) && AllGuarantee(w, env, Atoms(prog, i, depth + 1))
    ensures AllGuarantee(w, CalleeEnv(w, prog, consts, i, at, env), Atoms(prog, Target(prog, i, at), depth))
  {
    var j, callee := Target(prog, i, at), CalleeEnv(w, prog, consts, i, at, env);
    assert Called(prog, j) && TRUE in consts;
    FnTidy(prog, consts, i);
    FnTidy(prog, consts, j);
    AtomsPortable(prog, consts, j, depth);
    AtomsFull(prog, j, depth);
    hide Models, ProgramTidy, ArgsTidy, Tidy, Called, CalleeEnv, Portable, RootsTidy, Guarantees, Carry, Knows;
    forall a | a in Atoms(prog, j, depth) ensures Guarantees(w, callee, a) {
      CarriedExact(prog, i, at, a);
      var b := Carry(prog, i, at, a).value;
      CarriedUp(prog, i, at, 0, depth, a, b);
      assert b in Atoms(prog, i, depth + 1);
      assert Carried(prog, consts, a) && Carried(prog, consts, b);
      CarriedTidy(prog, consts, i, at, a, depth);
      ThroughMeans(w, prog, consts, i, at, env, a);
    }
  }

  /** When every atom of a readable fn holds of what it was given, it returns Ok. */
  lemma {:induction false} AtomsEnough(w: World, prog: Program, consts: set<string>, i: nat, env: Env, depth: nat)
    requires i < |prog.fns| && Fit(w, prog, consts) && Knows(w, consts, env) && Readable(prog, i, depth)
    requires AllGuarantee(w, env, Atoms(prog, i, depth))
    ensures ReturnsOk(w, prog, consts, i, env, depth)
    decreases depth, 1
  {
    DirectAmong(w, prog, i, env, depth);
    hide Fit, Knows, AllGuarantee, ReturnsOk, Passes, Readable, Atoms;
    forall at: nat | at < |prog.fns[i].body| ensures Passes(w, prog, consts, i, env, at, depth) {
      StatementPasses(w, prog, consts, i, env, at, depth);
    }
    AllPass(w, prog, consts, i, env, depth);
  }

  lemma {:induction false} StatementPasses(w: World, prog: Program, consts: set<string>, i: nat, env: Env, at: nat,
      depth: nat)
    requires i < |prog.fns| && at < |prog.fns[i].body| && Fit(w, prog, consts) && Knows(w, consts, env)
    requires Readable(prog, i, depth) && AllGuarantee(w, env, Atoms(prog, i, depth))
    requires AllGuarantee(w, env, Direct(prog, i, 0))
    ensures Passes(w, prog, consts, i, env, at, depth)
    decreases depth, 0
  {
    hide Fit, Knows, AllGuarantee, ReturnsOk, Eval, Checked, Atoms, Direct, CalleeEnv, EnvAt, FlagsGiven;
    if prog.fns[i].body[at].RejectIf? {
      OwnPasses(w, prog, consts, i, env, at);
    }
    if Followed(prog, i, at) {
      CalleeGuaranteed(w, prog, consts, i, at, env, depth - 1);
      CalleeKnows(w, prog, consts, i, at, env);
      AtomsEnough(w, prog, consts, Target(prog, i, at), CalleeEnv(w, prog, consts, i, at, env), depth - 1);
    }
  }

  lemma AllPass(w: World, prog: Program, consts: set<string>, i: nat, env: Env, fuel: nat)
    requires i < |prog.fns|
    requires forall at: nat :: at < |prog.fns[i].body| ==> Passes(w, prog, consts, i, env, at, fuel)
    ensures ReturnsOk(w, prog, consts, i, env, fuel)
  {
    hide Passes;
  }

  lemma DirectAmong(w: World, prog: Program, i: nat, env: Env, depth: nat)
    requires i < |prog.fns| && AllGuarantee(w, env, Atoms(prog, i, depth))
    ensures AllGuarantee(w, env, Direct(prog, i, 0))
  {
    hide Guarantees, Direct;
  }

  lemma CalleeKnows(w: World, prog: Program, consts: set<string>, i: nat, at: nat, env: Env)
    requires Followed(prog, i, at) && Fit(w, prog, consts) && Knows(w, consts, env)
    ensures Knows(w, consts, CalleeEnv(w, prog, consts, i, at, env))
  {
    var body := prog.fns[i].body;
    FnTidy(prog, consts, i);
    FnTidy(prog, consts, Target(prog, i, at));
    hide ProgramTidy;
    assert StmtTidy(prog, consts, i, at);
    KnowsAt(w, prog, consts, i, at, env);
    hide Knows, Frame, EnvAt, Tidy;
    FrameLinked(w, prog, consts, Target(prog, i, at), EnvAt(w, body, at, env), body[at].args);
  }

  /** Of a fn all of whose rejections are checks, down to the fns it calls: a run returns Ok exactly when
      every atom collected holds of what it was given, if the atom's flags are true. Nothing it checks is
      missed, and nothing it does not check is said. */
  lemma {:induction false} OkExact(w: World, prog: Program, consts: set<string>, i: nat, env: Env, depth: nat)
    requires i < |prog.fns| && Fit(w, prog, consts) && Knows(w, consts, env) && Readable(prog, i, depth)
    ensures ReturnsOk(w, prog, consts, i, env, depth) <==> AllGuarantee(w, env, Atoms(prog, i, depth))
  {
    if ReturnsOk(w, prog, consts, i, env, depth) {
      AtomsSound(w, prog, consts, i, env, depth, depth);
      assert forall a :: Carried(prog, consts, a);
    }
    if AllGuarantee(w, env, Atoms(prog, i, depth)) {
      AtomsEnough(w, prog, consts, i, env, depth);
    }
  }

  /** A call of itself adds nothing to a fn, and neither does one with another number of arguments. */
  lemma NotFollowed(prog: Program, i: nat, at: nat)
    requires i < |prog.fns| && at < |prog.fns[i].body| && prog.fns[i].body[at].Try?
    ensures Followed(prog, i, at) <==>
              exists j: nat :: j < |prog.fns| && j != i && prog.fns[i].body[at].target == Some(j) &&
                               |prog.fns[j].params| == |prog.fns[i].body[at].args|
  {
  }
}
