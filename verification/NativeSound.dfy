/** What the atoms of a condition are worth: when the condition does not reject, every atom whose
    flags are true holds of the accounts. The reader splits text, so this is not so for every
    condition; the guards below (`NotSplitsRight`, `RejectSplitsRight`) say where its splits read
    a group as it is meant. */
module NativeSound {
  import opened Common
  import opened NativeSyntax
  import opened NativeRead

  function ValFor(params: seq<string>, vals: seq<Obj>, x: string, otherwise: Obj): Obj
    requires |params| == |vals|
  {
    if params == [] then otherwise
    else if params[0] == x then vals[0]
    else ValFor(params[1..], vals[1..], x, otherwise)
  }

  lemma ValForOther(params: seq<string>, vals: seq<Obj>, x: string, otherwise: Obj)
    requires |params| == |vals| && x !in params
    ensures ValFor(params, vals, x, otherwise) == otherwise
  {
  }

  /** Parameters as passed, every other name as `rest` has it. */
  function Bind(params: seq<string>, vals: seq<Obj>, rest: Env): Env
    requires |params| == |vals|
  {
    x => ValFor(params, vals, x, rest(x))
  }

  function ConstEnv(w: World): Env {
    x => if x == PROGRAM_ID then w.thisId else w.consts(x)
  }

  /** A one-expression fn answers what its body says. */
  ghost predicate CallsBodies(w: World, rd: Reader) {
    forall f, vals: seq<Obj> {:trigger w.call(f, vals)} ::
      f in rd.preds && |vals| == |rd.preds[f].params| ==>
      w.call(f, vals) == Eval(w, Bind(rd.preds[f].params, vals, ConstEnv(w)), rd.preds[f].body)
  }

  /** A fn whose body is not seen, and is named as an equality, is one. */
  ghost predicate NamedEqual(w: World, rd: Reader) {
    forall f, x: Obj, y: Obj {:trigger w.call(f, [x, y])} ::
      IsEqName(f) && f !in rd.preds ==> w.call(f, [x, y]) == (x == y)
  }

  /** A key is 32 bytes. */
  ghost predicate KeysWide(w: World) {
    forall n, x, y {:trigger w.agree(n, x, y)} :: n >= 32 && w.agree(n, x, y) ==> x == y
  }

  ghost predicate Models(w: World, rd: Reader) {
    CallsBodies(w, rd) && NamedEqual(w, rd) && KeysWide(w)
  }

  /** One-expression fns read only their parameters and constants. */
  ghost predicate Closed(rd: Reader, consts: set<string>) {
    forall f, x :: f in rd.preds && x in Names(rd.preds[f].body) ==>
      x in rd.preds[f].params || x in consts || x == PROGRAM_ID
  }

  /** Constants, and this program's id, are what they are everywhere. */
  ghost predicate Knows(w: World, consts: set<string>, env: Env) {
    && env(PROGRAM_ID) == w.thisId
    && forall x :: x in consts ==> env(x) == w.consts(x)
  }

  /** The check an atom names passes. */
  predicate AtomTrue(w: World, env: Env, a: Atom) {
    var v := EvalT(w, env, a.var_);
    if a.pending then a.against.Some? && v == EvalT(w, env, a.against.value)
    else match a.against
      case Some(t) => w.field(v, Check(a.kind)) == EvalT(w, env, t)
      case None => w.field(v, Check(a.kind)) != 0
  }

  predicate FlagsTrue(env: Env, flags: seq<string>) {
    forall f :: f in flags ==> env(f) != 0
  }

  predicate Guarantees(w: World, env: Env, a: Atom) {
    FlagsTrue(env, a.when) ==> AtomTrue(w, env, a)
  }

  ghost predicate AllGuarantee(w: World, env: Env, atoms: seq<Atom>) {
    forall a :: a in atoms ==> Guarantees(w, env, a)
  }

  // ------------------------------------------------------------- the guards

  predicate NoLone(pieces: seq<Expr>) {
    forall p :: p in pieces ==> !IsLone(p)
  }

  /** A `sol_memcmp` read as a comparison of keys compares whole keys. */
  predicate WholeKeys(a: Term, b: Term)
    decreases Memcmps(a) + Memcmps(b)
  {
    BareMemcmps(a);
    BareMemcmps(b);
    if BareT(a).Memcmp? && BareT(b).Zero? then BareT(a).n >= 32 && WholeKeys(BareT(a).a, BareT(a).b)
    else if BareT(a).Zero? && BareT(b).Memcmp? then BareT(b).n >= 32 && WholeKeys(BareT(b).a, BareT(b).b)
    else true
  }

  /** One operand is read as what it means: keys are compared whole, and a fn taken for an
      equality by its name has no body that was seen. */
  predicate FailsWhole(rd: Reader, u: Unary) {
    match u
    case Call(f, args) => IsEqName(f) && |args| == 2 ==> f !in rd.preds && WholeKeys(args[0], args[1])
    case Cmp(false, a, b) => WholeKeys(a, b)
    case _ => true
  }

  /** An account's key or owner, or a bare name: what a comparison is read as a check of. */
  predicate IsRead(t: Term) {
    var s := This(BareT(t));
    IsSide(s) || (s.Name? && IsIdent(s.x))
  }

  /** A pattern for one operand opens with `u`. */
  predicate Opens(u: Unary, ne: bool) {
    match u
    case OwnedBy(v, _) => IsPath(v) && !ne
    case Cmp(unequal, a, _) => unequal == ne && IsRead(a)
    case Call(f, args) => IsEqName(f) && |args| == 2 && IsRead(args[0]) && !ne
    case _ => false
  }

  /** No pattern for one operand runs over the several of `e`. */
  predicate Untorn(rd: Reader, e: Expr, ne: bool) { !(Tears(rd, e) && Opens(e.c.u, ne)) }

  predicate AllUntorn(rd: Reader, pieces: seq<Expr>) { forall p :: p in pieces && !IsLone(p) ==> Untorn(rd, p, false) }

  /** `!(e)` is split as it is meant: `e` is all `&&`s, or the split leaves no operand alone. */
  predicate NotSplitsRight(rd: Reader, e: Expr, depth: nat)
    requires depth <= DEPTH
    decreases DEPTH - depth, 0, Size(e), 1, 0
  {
    if depth < DEPTH && Inline(rd, e).Some? then NotSplitsRight(rd, Bare(Inline(rd, e).value), depth + 1)
    else if |SplitAnd(e)| > 1 then
      (e.Or? ==> NoLone(SplitAnd(e))) && EachSplitsRight(rd, SplitAnd(e), Size(e), depth)
    else if IsLone(e) then FailsWhole(rd, e.c.u)
    else Untorn(rd, e, false)
  }

  predicate EachSplitsRight(rd: Reader, pieces: seq<Expr>, bound: nat, depth: nat)
    requires depth <= DEPTH
    requires forall p :: p in pieces ==> Size(p) < bound
    decreases DEPTH - depth, 0, bound, 0, |pieces|
  {
    pieces == [] || (NotSplitsRight(rd, Bare(pieces[0]), depth) && EachSplitsRight(rd, pieces[1..], bound, depth))
  }

  /** A `!` the reader strips is over the whole text, or stripping it leaves no operand alone. */
  predicate RejectSplitsRight(rd: Reader, e: Expr, depth: nat)
    requires depth <= DEPTH
    decreases DEPTH - depth, 1, 0, 0, 0
  {
    var c := Bare(e);
    if LeadsNot(c) then
      if IsLone(c) then NotSplitsRight(rd, Bare(StripNot(c)), depth)
      else NoLone(SplitAnd(StripNot(c))) && AllUntorn(rd, SplitAnd(StripNot(c)))
    else if depth < DEPTH && Inline(rd, c).Some? then SplitsRight(rd, Inline(rd, c).value, depth + 1)
    else match c
      case Part(Unit(Cmp(true, a, b))) => WholeKeys(a, b)
      case _ => IsLone(c) || Untorn(rd, c, true)
  }

  predicate PartsSplitRight(rd: Reader, e: Expr, depth: nat)
    requires depth <= DEPTH
    decreases DEPTH - depth, 3, e, 0, 0
  {
    var conj := SplitAnd(Unparen(Part(e.c)));
    var checks := Checks(conj, |conj| > 1);
    && (|checks| == 1 ==> RejectSplitsRight(rd, checks[0], depth))
    && (e.Or? ==> PartsSplitRight(rd, e.rest, depth))
  }

  predicate SplitsRight(rd: Reader, e: Expr, depth: nat)
    requires depth <= DEPTH
    decreases DEPTH - depth, 4, 0, 0, 0
  {
    PartsSplitRight(rd, Unparen(e), depth)
  }

  // ------------------------------------------------------------- the proof

  lemma BareMeans(w: World, env: Env, e: Expr)
    ensures Eval(w, env, Bare(e)) == Eval(w, env, e)
  {
    match e
    case Part(Unit(Val(Cond(g)))) =>
      GroupMeans(w, env, g);
      assert Eval(w, env, e) == EvalC(w, env, e.c) == EvalU(w, env, e.c.u);
      BareMeans(w, env, g);
    case Part(Unit(Hint(g))) =>
      assert Eval(w, env, e) == EvalC(w, env, e.c) == EvalU(w, env, e.c.u);
      BareMeans(w, env, g);
    case _ =>
  }

  lemma GroupMeans(w: World, env: Env, g: Expr)
    ensures (EvalT(w, env, Cond(g)) != 0) == Eval(w, env, g)
  {
    if g.Part? && g.c.Unit? && g.c.u.Val? {
      assert Eval(w, env, g) == EvalC(w, env, g.c) == EvalU(w, env, g.c.u);
    }
  }

  lemma UnparenMeans(w: World, env: Env, e: Expr)
    ensures Eval(w, env, Unparen(e)) == Eval(w, env, e)
  {
    match e
    case Part(Unit(Val(Cond(g)))) =>
      GroupMeans(w, env, g);
      assert Eval(w, env, e) == EvalC(w, env, e.c) == EvalU(w, env, e.c.u);
      UnparenMeans(w, env, g);
    case _ =>
  }

  lemma BareTMeans(w: World, env: Env, t: Term)
    ensures EvalT(w, env, BareT(t)) == EvalT(w, env, t)
  {
  }

  lemma SidesSound(w: World, rd: Reader, env: Env, a: Term, b: Term)
    requires env(PROGRAM_ID) == w.thisId && EvalT(w, env, a) == EvalT(w, env, b)
    ensures AllGuarantee(w, env, Sides(rd, This(a), This(b)))
  {
    assert EvalT(w, env, This(a)) == EvalT(w, env, a);
    assert EvalT(w, env, This(b)) == EvalT(w, env, b);
  }

  lemma ComparedSound(w: World, rd: Reader, env: Env, a: Term, b: Term)
    requires KeysWide(w) && env(PROGRAM_ID) == w.thisId
    requires WholeKeys(a, b) && EvalT(w, env, a) == EvalT(w, env, b)
    ensures AllGuarantee(w, env, Compared(rd, a, b))
    decreases Memcmps(a) + Memcmps(b)
  {
    BareMemcmps(a);
    BareMemcmps(b);
    BareTMeans(w, env, a);
    BareTMeans(w, env, b);
    if BareT(a).Memcmp? && BareT(b).Zero? {
      assert w.agree(BareT(a).n, EvalT(w, env, BareT(a).a), EvalT(w, env, BareT(a).b));
      ComparedSound(w, rd, env, BareT(a).a, BareT(a).b);
    } else if BareT(a).Zero? && BareT(b).Memcmp? {
      assert w.agree(BareT(b).n, EvalT(w, env, BareT(b).a), EvalT(w, env, BareT(b).b));
      ComparedSound(w, rd, env, BareT(b).a, BareT(b).b);
    } else {
      SidesSound(w, rd, env, BareT(a), BareT(b));
    }
  }

  lemma FailsOnSound(w: World, rd: Reader, env: Env, u: Unary)
    requires NamedEqual(w, rd) && KeysWide(w) && env(PROGRAM_ID) == w.thisId
    requires FailsWhole(rd, u) && EvalU(w, env, u)
    ensures AllGuarantee(w, env, FailsOn(rd, u))
  {
    match u
    case OwnedBy(v, id) => BareTMeans(w, env, id);
    case Call(f, args) =>
      if IsEqName(f) && |args| == 2 {
        assert EvalArgs(w, env, args) == [EvalT(w, env, args[0]), EvalT(w, env, args[1])];
        ComparedSound(w, rd, env, args[0], args[1]);
      }
    case Cmp(false, a, b) => ComparedSound(w, rd, env, a, b);
    case _ =>
  }

  /** An inlined call means what the call means. */
  lemma InlineMeans(w: World, rd: Reader, consts: set<string>, env: Env, e: Expr)
    requires Models(w, rd) && Closed(rd, consts) && Knows(w, consts, env)
    requires Inline(rd, e).Some?
    ensures Eval(w, env, Inline(rd, e).value) == Eval(w, env, e)
  {
    var f, args := e.c.u.f, e.c.u.args;
    var p := rd.preds[f];
    var vals := EvalArgs(w, env, args);
    var inner := Bind(p.params, vals, ConstEnv(w));
    forall x | x in Names(p.body)
      ensures inner(x) == EvalT(w, env, ArgFor(p.params, args, x))
    {
      BoundMeans(w, env, p.params, args, vals, x, ConstEnv(w)(x));
    }
    SubstMeans(w, env, inner, p.params, args, p.body);
    assert w.call(f, vals) == Eval(w, inner, p.body);
    assert Eval(w, env, e) == EvalC(w, env, e.c) == EvalU(w, env, e.c.u) == w.call(f, vals);
  }

  lemma BoundMeans(w: World, env: Env, params: seq<string>, args: seq<Term>, vals: seq<Obj>, x: string, otherwise: Obj)
    requires |params| == |args| == |vals|
    requires forall i :: 0 <= i < |args| ==> vals[i] == EvalT(w, env, args[i])
    requires x in params || otherwise == env(x)
    ensures ValFor(params, vals, x, otherwise) == EvalT(w, env, ArgFor(params, args, x))
  {
    if params != [] && params[0] != x {
      BoundMeans(w, env, params[1..], args[1..], vals[1..], x, otherwise);
    }
  }

  lemma SplitAndParts(w: World, env: Env, e: Expr)
    requires e.Part?
    ensures Eval(w, env, e) == forall p :: p in SplitAnd(e) ==> Eval(w, env, p)
    ensures forall p :: p in SplitAnd(e) ==> IsLone(p)
    decreases Size(e)
  {
    if e.c.And? {
      var rest := Part(e.c.rest);
      assert Size(e) == SizeC(e.c) && Size(rest) == SizeC(e.c.rest);
      SplitAndParts(w, env, rest);
      var first := Lone(e.c.u);
      assert SplitAnd(e) == [first] + SplitAnd(rest);
      assert Eval(w, env, first) == EvalC(w, env, first.c) == EvalU(w, env, e.c.u);
      assert Eval(w, env, e) == (Eval(w, env, first) && Eval(w, env, rest));
      assert forall p :: p in SplitAnd(e) <==> p == first || p in SplitAnd(rest);
    } else {
      assert SplitAnd(e) == [e];
    }
  }

  /** Every operand of `e` is a `||` part of its own. */
  predicate AllUnits(e: Expr) { e.c.Unit? && (e.Or? ==> AllUnits(e.rest)) }

  lemma {:induction false} SplitAndUnits(e: Expr)
    ensures forall p :: p in SplitAnd(e) ==> AllUnits(p)
    ensures AllUnits(e) ==> SplitAnd(e) == [e]
    ensures e.Or? ==> exists p :: p in SplitAnd(e) && !IsLone(p)
    decreases Size(e)
  {
    match e
    case Part(Unit(_)) =>
    case Part(And(u, c)) =>
      assert Size(e) == SizeC(e.c) && Size(Part(c)) == SizeC(c);
      SplitAndUnits(Part(c));
    case Or(Unit(u), rest) =>
      SplitAndUnits(rest);
      var r := SplitAnd(rest);
      assert r[0] in r;
      assert SplitAnd(e)[0] == Or(Unit(u), r[0]);
      assert Or(Unit(u), r[0]) in SplitAnd(e) && !IsLone(Or(Unit(u), r[0]));
    case Or(And(u, c), rest) =>
      assert Size(e) == 1 + SizeC(e.c) + Size(rest) && Size(Or(c, rest)) == 1 + SizeC(c) + Size(rest);
      SplitAndUnits(Or(c, rest));
      var p :| p in SplitAnd(Or(c, rest)) && !IsLone(p);
      assert p in SplitAnd(e);
  }

  lemma UntornReads(rd: Reader, e: Expr, ne: bool)
    ensures TornAtoms(rd, e, ne) == [] <==> Untorn(rd, e, ne)
  {
  }

  /** A piece that is more than one operand is not read at all, unless it is torn. */
  lemma NoLoneNoAtoms(rd: Reader, pieces: seq<Expr>, bound: nat, depth: nat)
    requires depth <= DEPTH
    requires forall p :: p in pieces ==> Size(p) < bound && AllUnits(p)
    requires NoLone(pieces) && AllUntorn(rd, pieces)
    ensures RejectsEach(rd, pieces, bound, depth) == []
  {
    if pieces != [] {
      var p := pieces[0];
      assert p in pieces;
      SplitAndUnits(p);
      assert Bare(p) == p && p.Or?;
      UntornReads(rd, p, false);
      NoLoneNoAtoms(rd, pieces[1..], bound, depth);
    }
  }

  lemma NotManyNoAtoms(rd: Reader, e: Expr, depth: nat)
    requires depth <= DEPTH && !IsLone(e) && NoLone(SplitAnd(e)) && AllUntorn(rd, SplitAnd(e))
    ensures RejectsNot(rd, e, depth) == []
  {
    SplitAndUnits(e);
    if |SplitAnd(e)| > 1 {
      NoLoneNoAtoms(rd, SplitAnd(e), Size(e), depth);
    } else {
      assert e in SplitAnd(e);
      UntornReads(rd, e, false);
    }
  }

  /** Pieces of several operands that are read as they are meant are not torn. */
  lemma {:induction false} EachUntorn(rd: Reader, pieces: seq<Expr>, bound: nat, depth: nat)
    requires depth <= DEPTH && (forall p :: p in pieces ==> Size(p) < bound && AllUnits(p))
    requires EachSplitsRight(rd, pieces, bound, depth)
    ensures AllUntorn(rd, pieces)
  {
    if pieces != [] {
      var p := pieces[0];
      assert p in pieces;
      EachUntorn(rd, pieces[1..], bound, depth);
      if !IsLone(p) {
        SplitAndUnits(p);
        assert Bare(p) == p && p.Or?;
      }
    }
  }

  lemma SplitGroupNoAtoms(rd: Reader, e: Expr, depth: nat)
    requires depth <= DEPTH && e.Or? && |SplitAnd(e)| > 1 && NotSplitsRight(rd, e, depth)
    ensures RejectsNot(rd, e, depth) == []
  {
    SplitAndUnits(e);
    EachUntorn(rd, SplitAnd(e), Size(e), depth);
    NotManyNoAtoms(rd, e, depth);
  }

  /** When `!(e)` does not reject, what it is read to check holds. */
  lemma {:induction false} RejectsNotSound(w: World, rd: Reader, consts: set<string>, env: Env, e: Expr, depth: nat)
    requires Models(w, rd) && Closed(rd, consts) && Knows(w, consts, env)
    requires depth <= DEPTH && NotSplitsRight(rd, e, depth) && Eval(w, env, e)
    ensures AllGuarantee(w, env, RejectsNot(rd, e, depth))
    decreases DEPTH - depth, 0, Size(e), 1, 0
  {
    assert NamedEqual(w, rd) && KeysWide(w);
    hide Models, Closed, CallsBodies, NamedEqual, KeysWide, FailsWhole, FailsOn, Untorn, TornAtoms;
    if depth < DEPTH && Inline(rd, e).Some? {
      var body := Inline(rd, e).value;
      InlineMeans(w, rd, consts, env, e);
      BareMeans(w, env, body);
      RejectsNotSound(w, rd, consts, env, Bare(body), depth + 1);
    } else if |SplitAnd(e)| > 1 {
      if e.Or? {
        SplitGroupNoAtoms(rd, e, depth);
      } else {
        SplitAndParts(w, env, e);
        RejectsEachSound(w, rd, consts, env, SplitAnd(e), Size(e), depth);
      }
    } else if IsLone(e) {
      assert Eval(w, env, e) == EvalC(w, env, e.c) == EvalU(w, env, e.c.u);
      FailsOnSound(w, rd, env, e.c.u);
    } else {
      UntornReads(rd, e, false);
    }
  }

  lemma {:induction false} RejectsEachSound(w: World, rd: Reader, consts: set<string>, env: Env, pieces: seq<Expr>,
      bound: nat, depth: nat)
    requires Models(w, rd) && Closed(rd, consts) && Knows(w, consts, env)
    requires depth <= DEPTH
    requires forall p :: p in pieces ==> Size(p) < bound && Eval(w, env, p)
    requires EachSplitsRight(rd, pieces, bound, depth)
    ensures AllGuarantee(w, env, RejectsEach(rd, pieces, bound, depth))
    decreases DEPTH - depth, 0, bound, 0, |pieces|
  {
    if pieces != [] {
      assert pieces[0] in pieces;
      BareMeans(w, env, pieces[0]);
      RejectsNotSound(w, rd, consts, env, Bare(pieces[0]), depth);
      RejectsEachSound(w, rd, consts, env, pieces[1..], bound, depth);
    }
  }

  /** A `!` the reader strips is over the whole of one operand. */
  lemma {:induction false} StripMeans(w: World, env: Env, c: Expr)
    requires LeadsNot(c) && IsLone(c)
    ensures Eval(w, env, Bare(StripNot(c))) == !Eval(w, env, c)
  {
    var inner := StripNot(c);
    assert Eval(w, env, c) == EvalC(w, env, c.c) == EvalU(w, env, c.c.u);
    assert Eval(w, env, inner) == EvalC(w, env, inner.c) == EvalU(w, env, inner.c.u);
    BareMeans(w, env, inner);
  }

  lemma {:induction false} UnequalSound(w: World, rd: Reader, env: Env, a: Term, b: Term)
    requires KeysWide(w) && env(PROGRAM_ID) == w.thisId && !Eval(w, env, Lone(Cmp(true, a, b))) && WholeKeys(a, b)
    ensures AllGuarantee(w, env, Compared(rd, a, b))
  {
    var c := Lone(Cmp(true, a, b));
    assert Eval(w, env, c) == EvalC(w, env, c.c) == EvalU(w, env, c.c.u);
    ComparedSound(w, rd, env, a, b);
  }

  /** When a condition does not reject, what it is read to check holds. */
  lemma {:induction false} RejectsSound(w: World, rd: Reader, consts: set<string>, env: Env, e: Expr, depth: nat)
    requires Models(w, rd) && Closed(rd, consts) && Knows(w, consts, env)
    requires depth <= DEPTH && RejectSplitsRight(rd, e, depth) && !Eval(w, env, e)
    ensures AllGuarantee(w, env, Rejects(rd, e, depth))
    decreases DEPTH - depth, 1, 0, 0, 0
  {
    assert KeysWide(w);
    hide Models, Closed, CallsBodies, NamedEqual, KeysWide, WholeKeys, Compared, EvalU;
    var c := Bare(e);
    BareMeans(w, env, e);
    if LeadsNot(c) {
      if IsLone(c) {
        StripMeans(w, env, c);
        RejectsNotSound(w, rd, consts, env, Bare(StripNot(c)), depth);
      } else {
        assert Bare(StripNot(c)) == StripNot(c) && !IsLone(StripNot(c));
        NotManyNoAtoms(rd, StripNot(c), depth);
      }
    } else if depth < DEPTH && Inline(rd, c).Some? {
      InlineMeans(w, rd, consts, env, c);
      ConditionSound(w, rd, consts, env, Inline(rd, c).value, depth + 1);
    } else {
      match c
      case Part(Unit(Cmp(true, a, b))) =>
        UnequalSound(w, rd, env, a, b);
      case _ => UntornReads(rd, c, true);
    }
  }

  lemma FlagsAndChecks(w: World, env: Env, conj: seq<Expr>, several: bool)
    ensures (forall c :: c in Checks(conj, several) ==> Eval(w, env, c)) && FlagsTrue(env, Flags(conj, several))
            ==> forall p :: p in conj ==> Eval(w, env, p)
  {
    if conj != [] {
      var p := conj[0];
      var c := Unparen(p);
      var flag := several && IsFlag(c);
      UnparenMeans(w, env, p);
      FlagsAndChecks(w, env, conj[1..], several);
      assert conj == [p] + conj[1..];
      if flag {
        assert Flags(conj, several) == [c.c.u.t.x] + Flags(conj[1..], several);
        assert Eval(w, env, c) == EvalC(w, env, c.c) == EvalU(w, env, c.c.u) == (env(c.c.u.t.x) != 0);
      } else {
        assert Checks(conj, several) == [c] + Checks(conj[1..], several);
      }
      if (forall d :: d in Checks(conj, several) ==> Eval(w, env, d)) && FlagsTrue(env, Flags(conj, several)) {
        assert FlagsTrue(env, Flags(conj[1..], several));
        assert Eval(w, env, p);
      }
    }
  }

  lemma {:induction false} PartSound(w: World, rd: Reader, consts: set<string>, env: Env, part: Expr, depth: nat)
    requires Models(w, rd) && Closed(rd, consts) && Knows(w, consts, env)
    requires depth <= DEPTH && !Eval(w, env, part)
    requires var conj := SplitAnd(part); var checks := Checks(conj, |conj| > 1);
             |checks| == 1 ==> RejectSplitsRight(rd, checks[0], depth)
    ensures AllGuarantee(w, env, PartAtoms(rd, part, depth))
    decreases DEPTH - depth, 2, 0, 0, 0
  {
    var conj := SplitAnd(part);
    var checks := Checks(conj, |conj| > 1);
    var flags := Flags(conj, |conj| > 1);
    if |checks| == 1 {
      var atoms := Rejects(rd, checks[0], depth);
      if |conj| > 1 && part.Or? {
        MixedPartCheck(part, checks);
        ManyNoAtoms(rd, checks[0], depth);
      } else if FlagsTrue(env, flags) {
        LastCheckFails(w, env, part);
        RejectsSound(w, rd, consts, env, checks[0], depth);
      }
      NeedingSound(w, env, atoms, flags);
    }
  }

  /** A part that is false with every flag true is false for its one check. */
  lemma LastCheckFails(w: World, env: Env, part: Expr)
    requires !Eval(w, env, part) && (part.Part? || |SplitAnd(part)| == 1)
    requires |Checks(SplitAnd(part), |SplitAnd(part)| > 1)| == 1
    requires FlagsTrue(env, Flags(SplitAnd(part), |SplitAnd(part)| > 1))
    ensures !Eval(w, env, Checks(SplitAnd(part), |SplitAnd(part)| > 1)[0])
  {
    var conj := SplitAnd(part);
    FlagsAndChecks(w, env, conj, |conj| > 1);
    if part.Part? {
      SplitAndParts(w, env, part);
    }
  }

  lemma NeedingSound(w: World, env: Env, atoms: seq<Atom>, flags: seq<string>)
    requires FlagsTrue(env, flags) ==> AllGuarantee(w, env, atoms)
    ensures AllGuarantee(w, env, Needing(atoms, flags))
  {
    forall a | a in Needing(atoms, flags)
      ensures Guarantees(w, env, a)
    {
      var i :| 0 <= i < |atoms| && a == Needing(atoms, flags)[i];
      assert atoms[i] in atoms && a.when == atoms[i].when + flags;
      if FlagsTrue(env, a.when) {
        assert forall f :: f in flags ==> f in a.when;
        assert forall f :: f in atoms[i].when ==> f in a.when;
      }
    }
  }

  lemma ManyIsCheck(conj: seq<Expr>, several: bool, p: Expr)
    requires p in conj && !IsLone(p)
    ensures p in Checks(conj, several)
  {
    if conj[0] != p {
      ManyIsCheck(conj[1..], several, p);
    }
  }

  /** A part that joins `&&` and `||` has a piece that is not one operand, and it is a check. */
  lemma {:induction false} MixedPartCheck(part: Expr, checks: seq<Expr>)
    requires part.Or? && checks == Checks(SplitAnd(part), true) && |checks| == 1
    ensures AllUnits(checks[0]) && !IsLone(checks[0])
  {
    var conj := SplitAnd(part);
    SplitAndUnits(part);
    hide SplitAnd, AllUnits, IsLone;
    var p :| p in conj && !IsLone(p);
    ManyIsCheck(conj, true, p);
    assert p == checks[0];
  }

  lemma {:induction false} ManyNoAtoms(rd: Reader, c: Expr, depth: nat)
    requires depth <= DEPTH && AllUnits(c) && !IsLone(c)
    requires RejectSplitsRight(rd, c, depth)
    ensures Rejects(rd, c, depth) == []
  {
    assert Bare(c) == c && c.Or?;
    if LeadsNot(c) {
      assert Bare(StripNot(c)) == StripNot(c);
      NotManyNoAtoms(rd, StripNot(c), depth);
    } else {
      UntornReads(rd, c, true);
    }
  }

  lemma {:induction false} PartsSound(w: World, rd: Reader, consts: set<string>, env: Env, e: Expr, depth: nat)
    requires Models(w, rd) && Closed(rd, consts) && Knows(w, consts, env)
    requires depth <= DEPTH && PartsSplitRight(rd, e, depth) && !Eval(w, env, e)
    ensures AllGuarantee(w, env, PartsAtoms(rd, e, depth))
    decreases DEPTH - depth, 3, e, 0, 0
  {
    assert Eval(w, env, Part(e.c)) == EvalC(w, env, e.c);
    UnparenMeans(w, env, Part(e.c));
    PartSound(w, rd, consts, env, Unparen(Part(e.c)), depth);
    if e.Or? {
      PartsSound(w, rd, consts, env, e.rest, depth);
    }
  }

  /** Condition soundness: when a rejecting condition is false, every atom it is read as holds,
      if the atom's flags are true. */
  lemma {:induction false} ConditionSound(w: World, rd: Reader, consts: set<string>, env: Env, e: Expr, depth: nat)
    requires Models(w, rd) && Closed(rd, consts) && Knows(w, consts, env)
    requires depth <= DEPTH && SplitsRight(rd, e, depth)
    ensures !Eval(w, env, e) ==> AllGuarantee(w, env, AtomsIn(rd, e, depth))
    decreases DEPTH - depth, 4, 0, 0, 0
  {
    if !Eval(w, env, e) {
      UnparenMeans(w, env, e);
      PartsSound(w, rd, consts, env, Unparen(e), depth);
    }
  }
}
