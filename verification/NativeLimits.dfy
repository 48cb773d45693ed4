/** Where the check reader is wrong, and exactly when it is right about a group of signer checks. */
module NativeLimits {
  import opened Common
  import opened NativeSyntax
  import opened NativeRead
  import opened NativeSound
  import opened NativeCalls

  /** No run slips past an atom read from `cond`. */
  ghost predicate AlwaysSound(rd: Reader, cond: Expr) {
    forall w: World, env: Env {:trigger Eval(w, env, cond)} ::
      Models(w, rd) && Knows(w, {}, env) && !Eval(w, env, cond) ==>
      AllGuarantee(w, env, AtomsIn(rd, cond, 0))
  }

  function SignerOf(x: string): Unary { Val(Dot(Name(x), Check(Signer))) }

  /** A group of signer checks, `a.is_signer() && b.is_signer() || ..`. */
  predicate FlatC(c: Conj) {
    c.u.Val? && c.u.t.Dot? && c.u.t.base.Name? && c.u.t.seg == Check(Signer) && (c.And? ==> FlatC(c.rest))
  }

  predicate Flat(e: Expr) { FlatC(e.c) && (e.Or? ==> Flat(e.rest)) }

  function AccountsC(c: Conj): seq<string>
    requires FlatC(c)
  {
    [c.u.t.base.x] + if c.And? then AccountsC(c.rest) else []
  }

  function Accounts(e: Expr): seq<string>
    requires Flat(e)
  {
    AccountsC(e.c) + if e.Or? then Accounts(e.rest) else []
  }

  predicate Distinct(s: seq<string>) { forall i, j :: 0 <= i < j < |s| ==> s[i] != s[j] }

  /** `g` with a `!` in front of its text. */
  function Lead(g: Expr): Expr {
    var c := match g.c case Unit(u) => Unit(Not(u)) case And(u, rest) => And(Not(u), rest);
    match g
    case Part(_) => Part(c)
    case Or(_, rest) => Or(c, rest)
  }

  /** A world where an account is its own signer flag. */
  function Plainly(id: Obj): World {
    World((o, s) => o, (f, vs) => 0, (f, vs) => |vs| == 2 && vs[0] == vs[1], (n, x, y) => x == y, id, x => 1,
        (j, x) => 0)
  }

  function NoPreds(texts: Texts): Reader { Reader(map[], texts) }

  lemma PlainlyModels(id: Obj, texts: Texts)
    ensures Models(Plainly(id), NoPreds(texts))
  {
  }

  // ------------------------------------------------ pieces of a flat group

  lemma LonePieces(g: Expr)
    requires Flat(g)
    ensures forall p :: p in SplitAnd(g) ==> Flat(p) && forall x :: x in Accounts(p) ==> x in Accounts(g)
    decreases Size(g)
  {
    match g
    case Part(Unit(_)) =>
    case Part(And(u, c)) =>
      assert Size(g) == SizeC(g.c) && Size(Part(c)) == SizeC(c);
      LonePieces(Part(c));
    case Or(Unit(u), rest) =>
      LonePieces(rest);
      var r := SplitAnd(rest);
      assert r[0] in r;
    case Or(And(u, c), rest) =>
      assert Size(g) == 1 + SizeC(g.c) + Size(rest) && Size(Or(c, rest)) == 1 + SizeC(c) + Size(rest);
      LonePieces(Or(c, rest));
  }

  lemma {:induction false} EachRead(rd: Reader, pieces: seq<Expr>, bound: nat, depth: nat, x: string)
    requires depth <= DEPTH && forall p :: p in pieces ==> Size(p) < bound
    requires Lone(SignerOf(x)) in pieces
    ensures Plain(Signer, Name(x), None) in RejectsEach(rd, pieces, bound, depth)
  {
    var p := Lone(SignerOf(x));
    if pieces[0] == p {
      assert Bare(p) == p && SplitAnd(p) == [p];
      assert RejectsNot(rd, p, depth) == FailsOn(rd, p.c.u) == [Plain(Signer, Name(x), None)];
    } else {
      EachRead(rd, pieces[1..], bound, depth, x);
    }
  }

  lemma {:induction false} EachFlatRight(rd: Reader, pieces: seq<Expr>, bound: nat, depth: nat)
    requires depth <= DEPTH && forall p :: p in pieces ==> Size(p) < bound && Flat(p) && AllUnits(p)
    ensures EachSplitsRight(rd, pieces, bound, depth)
  {
    if pieces != [] {
      var p := pieces[0];
      assert p in pieces && Bare(p) == p;
      SplitAndUnits(p);
      EachFlatRight(rd, pieces[1..], bound, depth);
    }
  }

  lemma FlagMeans(id: Obj, env: Env, x: string)
    ensures EvalU(Plainly(id), env, SignerOf(x)) == (env(x) != 0)
  {
    var t := Dot(Name(x), Check(Signer));
    assert EvalT(Plainly(id), env, t) == Plainly(id).field(EvalT(Plainly(id), env, t.base), t.seg);
  }

  lemma AllTrue(id: Obj, env: Env, g: Expr)
    requires Flat(g) && forall x :: x in Accounts(g) ==> env(x) != 0
    ensures Eval(Plainly(id), env, g)
  {
    AllTrueC(id, env, g.c);
  }

  lemma AllTrueC(id: Obj, env: Env, c: Conj)
    requires FlatC(c) && forall x :: x in AccountsC(c) ==> env(x) != 0
    ensures EvalC(Plainly(id), env, c)
  {
    FlagMeans(id, env, c.u.t.base.x);
    if c.And? {
      AllTrueC(id, env, c.rest);
    }
  }

  lemma AllFalse(id: Obj, env: Env, g: Expr)
    requires Flat(g) && forall x :: x in Accounts(g) ==> env(x) == 0
    ensures !Eval(Plainly(id), env, g)
  {
    FlagMeans(id, env, g.c.u.t.base.x);
    if g.Or? {
      AllFalse(id, env, g.rest);
    }
  }

  function Negated(g: Expr): Expr { Lone(Not(Val(Cond(g)))) }

  function Hinted(g: Expr): Expr { Lone(Hint(Lead(g))) }

  lemma NeedingNone(atoms: seq<Atom>)
    ensures Needing(atoms, []) == atoms
  {
    assert forall i :: 0 <= i < |atoms| ==> atoms[i].when + [] == atoms[i].when;
  }

  lemma {:induction false} NegatedReads(rd: Reader, g: Expr)
    requires !IsLone(g)
    ensures AtomsIn(rd, Negated(g), 0) == RejectsNot(rd, g, 0)
    ensures NotSplitsRight(rd, g, 0) ==> SplitsRight(rd, Negated(g), 0)
    ensures forall w, env :: Eval(w, env, Negated(g)) == !Eval(w, env, g)
  {
    var e := Negated(g);
    assert Unparen(e) == e && Bare(e) == e && SplitAnd(e) == [e];
    assert Checks([e], false) == [e] + Checks([], false) == [e];
    assert Flags([e], false) == [] + Flags([], false) == [];
    assert Bare(StripNot(e)) == Bare(Lone(Val(Cond(g)))) == Bare(g) == g;
    assert Rejects(rd, e, 0) == RejectsNot(rd, g, 0);
    NeedingNone(RejectsNot(rd, g, 0));
    forall w, env ensures Eval(w, env, e) == !Eval(w, env, g) {
      GroupMeans(w, env, g);
      assert Eval(w, env, e) == EvalC(w, env, e.c) == EvalU(w, env, e.c.u) == !EvalU(w, env, e.c.u.u);
    }
  }

  lemma {:induction false} NegatedGroupRight(rd: Reader, g: Expr)
    requires rd.preds == map[] && Flat(g) && !IsLone(g) && (g.Part? || NoLone(SplitAnd(g)))
    ensures AlwaysSound(rd, Negated(g))
  {
    SplitAndUnits(g);
    LonePieces(g);
    NegatedReads(rd, g);
    if |SplitAnd(g)| > 1 {
      EachFlatRight(rd, SplitAnd(g), Size(g), 0);
    }
    forall w: World, env: Env | Models(w, rd) && Knows(w, {}, env) && !Eval(w, env, Negated(g))
      ensures AllGuarantee(w, env, AtomsIn(rd, Negated(g), 0))
    {
      ConditionSound(w, rd, {}, env, Negated(g), 0);
    }
  }

  /** A run that goes on though `x` does not sign. */
  lemma {:induction false} WrongAt(texts: Texts, e: Expr, x: string, env: Env)
    requires env(x) == 0 && !Eval(Plainly(env(PROGRAM_ID)), env, e)
    requires Plain(Signer, Name(x), None) in AtomsIn(NoPreds(texts), e, 0)
    ensures !AlwaysSound(NoPreds(texts), e)
  {
    var w, a := Plainly(env(PROGRAM_ID)), Plain(Signer, Name(x), None);
    PlainlyModels(env(PROGRAM_ID), texts);
    assert Knows(w, {}, env);
    FlagMeans(env(PROGRAM_ID), env, x);
    assert !Guarantees(w, env, a) by { assert FlagsTrue(env, a.when) && !AtomTrue(w, env, a); }
  }

  lemma {:induction false} LoneIsRead(rd: Reader, g: Expr, x: string)
    requires rd.preds == map[] && Flat(g) && !IsLone(g) && Lone(SignerOf(x)) in SplitAnd(g)
    ensures Plain(Signer, Name(x), None) in RejectsNot(rd, g, 0)
  {
    ManyPieces(g, Lone(SignerOf(x)));
    EachRead(rd, SplitAnd(g), Size(g), 0, x);
  }

  /** Only `x` does not sign. */
  lemma {:induction false} NegatedGroupWrong(texts: Texts, g: Expr, x: string)
    requires Flat(g) && Distinct(Accounts(g)) && g.Or? && Lone(SignerOf(x)) in SplitAnd(g)
    ensures !AlwaysSound(NoPreds(texts), Negated(g))
  {
    var env: Env := y => if y == x then 0 else 1;
    NegatedReads(NoPreds(texts), g);
    OnePartHolds(env(PROGRAM_ID), env, g, x);
    LoneIsRead(NoPreds(texts), g, x);
    WrongAt(texts, Negated(g), x, env);
  }

  lemma ManyPieces(g: Expr, p: Expr)
    requires p in SplitAnd(g) && IsLone(p) && !IsLone(g)
    ensures |SplitAnd(g)| > 1
  {
  }

  /** `!(g)` of distinct signer checks is read soundly exactly when `g` has no `||`, or splitting
      it at each `&&` leaves no check alone: `!(a || b && c)` is not, `!(a && b)` and `!(a || b)`
      are. */
  lemma {:induction false} NegatedGroupExact(texts: Texts, g: Expr)
    requires Flat(g) && Distinct(Accounts(g)) && !IsLone(g)
    ensures AlwaysSound(NoPreds(texts), Negated(g)) <==> g.Part? || NoLone(SplitAnd(g))
  {
    if g.Part? || NoLone(SplitAnd(g)) {
      NegatedGroupRight(NoPreds(texts), g);
    } else {
      var p :| p in SplitAnd(g) && IsLone(p);
      LonePieces(g);
      NegatedGroupWrong(texts, g, p.c.u.t.base.x);
    }
  }

  lemma OnePartHolds(id: Obj, env: Env, g: Expr, x: string)
    requires Flat(g) && Distinct(Accounts(g)) && g.Or?
    requires forall y :: y != x ==> env(y) != 0
    ensures Eval(Plainly(id), env, g)
  {
    if x in AccountsC(g.c) {
      var i :| 0 <= i < |AccountsC(g.c)| && AccountsC(g.c)[i] == x;
      forall j | 0 <= j < |Accounts(g.rest)| ensures Accounts(g.rest)[j] != x {
        assert Accounts(g)[i] == x && Accounts(g)[|AccountsC(g.c)| + j] == Accounts(g.rest)[j];
      }
      AllTrue(id, env, g.rest);
    } else {
      AllTrueC(id, env, g.c);
    }
  }

  // ------------------------------------------------------- a leading `!`

  lemma {:induction false} HintedReads(rd: Reader, g: Expr)
    requires Flat(g) && !IsLone(g)
    ensures AtomsIn(rd, Hinted(g), 0) == RejectsNot(rd, g, 0)
    ensures SplitsRight(rd, Hinted(g), 0) == NoLone(SplitAnd(g))
    ensures forall w, env :: Eval(w, env, Hinted(g)) == Eval(w, env, Lead(g))
  {
    var e, h := Hinted(g), Lead(g);
    assert Unparen(e) == e && SplitAnd(e) == [e];
    assert Bare(e) == Bare(h) == h && LeadsNot(h) && StripNot(h) == g && Bare(g) == g;
    assert Checks([e], false) == [e] + Checks([], false) == [e];
    assert Flags([e], false) == [] + Flags([], false) == [];
    assert Rejects(rd, e, 0) == RejectsNot(rd, g, 0);
    NeedingNone(RejectsNot(rd, g, 0));
    LonePieces(g);
    assert AllUntorn(rd, SplitAnd(g));
    forall w, env ensures Eval(w, env, e) == Eval(w, env, h) {
      assert Eval(w, env, e) == EvalC(w, env, e.c) == EvalU(w, env, e.c.u) == Eval(w, env, h);
    }
  }

  /** A lone piece naming the first account is the first operand of an `&&`. */
  lemma FirstLone(g: Expr, x: string)
    requires Flat(g) && Distinct(Accounts(g)) && Lone(SignerOf(x)) in SplitAnd(g) && !IsLone(g) && g.c.u.t.base.x == x
    ensures g.c.And?
  {
    if g.Or? && g.c.Unit? {
      forall j | 0 <= j < |Accounts(g.rest)| ensures Accounts(g.rest)[j] != x {
        assert Accounts(g)[0] == x && Accounts(g)[1 + j] == Accounts(g.rest)[j];
      }
      assert x in Accounts(Lone(SignerOf(x)));
      LonePieces(g.rest);
    }
  }

  lemma LeadFalse(id: Obj, env: Env, g: Expr)
    requires Flat(g)
    requires env(g.c.u.t.base.x) != 0 || (g.c.And? && !EvalU(Plainly(id), env, g.c.rest.u))
    requires g.Or? ==> forall x :: x in Accounts(g.rest) ==> env(x) == 0
    ensures !Eval(Plainly(id), env, Lead(g))
  {
    var h := Lead(g);
    FlagMeans(id, env, g.c.u.t.base.x);
    assert EvalU(Plainly(id), env, h.c.u) == !EvalU(Plainly(id), env, g.c.u);
    if g.c.And? {
      assert EvalC(Plainly(id), env, g.c.rest) ==> EvalU(Plainly(id), env, g.c.rest.u);
    }
    assert !EvalC(Plainly(id), env, h.c);
    if g.Or? {
      AllFalse(id, env, g.rest);
    }
  }

  /** No account signs but the first, and that one only when it is not `x`. */
  lemma {:induction false} HintedGroupWrong(texts: Texts, g: Expr, x: string)
    requires Flat(g) && Distinct(Accounts(g)) && !IsLone(g) && Lone(SignerOf(x)) in SplitAnd(g)
    ensures !AlwaysSound(NoPreds(texts), Hinted(g))
  {
    var first := g.c.u.t.base.x;
    var env: Env := y => if y == first && first != x then 1 else 0;
    NobodySigns(g, x, env);
    hide Flat, Accounts, SplitAnd, Distinct, IsLone, NoLone, Eval, AlwaysSound, Lone;
    HintedReads(NoPreds(texts), g);
    LoneIsRead(NoPreds(texts), g, x);
    WrongAt(texts, Hinted(g), x, env);
  }

  lemma {:induction false} NobodySigns(g: Expr, x: string, env: Env)
    requires Flat(g) && Distinct(Accounts(g)) && !IsLone(g) && Lone(SignerOf(x)) in SplitAnd(g)
    requires forall y :: env(y) == if y == g.c.u.t.base.x && g.c.u.t.base.x != x then 1 else 0
    ensures !Eval(Plainly(env(PROGRAM_ID)), env, Lead(g))
  {
    var first := g.c.u.t.base.x;
    if first == x {
      FirstLone(g, x);
      assert FlatC(g.c.rest);
      FlagMeans(env(PROGRAM_ID), env, g.c.rest.u.t.base.x);
    }
    if g.Or? {
      forall j | 0 <= j < |Accounts(g.rest)| ensures Accounts(g.rest)[j] != first {
        assert Accounts(g)[0] == first && Accounts(g)[|AccountsC(g.c)| + j] == Accounts(g.rest)[j];
      }
    }
    LeadFalse(env(PROGRAM_ID), env, g);
  }

  /** `unlikely(!a ..)`: the reader strips the hint, then the `!`, and takes what is left as
      negated. For distinct signer checks that is sound exactly when splitting what is left at
      each `&&` leaves no check alone: `unlikely(!a && b)` is read as two checks it does not
      make. */
  lemma {:induction false} HintedGroupExact(texts: Texts, g: Expr)
    requires Flat(g) && Distinct(Accounts(g)) && !IsLone(g)
    ensures AlwaysSound(NoPreds(texts), Hinted(g)) <==> NoLone(SplitAnd(g))
  {
    var rd := NoPreds(texts);
    if NoLone(SplitAnd(g)) {
      HintedReads(rd, g);
      forall w: World, env: Env | Models(w, rd) && Knows(w, {}, env) && !Eval(w, env, Hinted(g))
        ensures AllGuarantee(w, env, AtomsIn(rd, Hinted(g), 0))
      {
        ConditionSound(w, rd, {}, env, Hinted(g), 0);
      }
    } else {
      var p :| p in SplitAnd(g) && IsLone(p);
      LonePieces(g);
      HintedGroupWrong(texts, g, p.c.u.t.base.x);
    }
  }

  // ------------------------------------------------------------ torn groups

  /** The values of `u` are paths, or this program's id. */
  predicate OfPlaces(u: Unary) {
    match u
    case OwnedBy(v, id) => IsPlace(v) && IsPlace(id)
    case Cmp(_, a, b) => IsPlace(a) && IsPlace(b)
    case Call(_, args) => forall i :: 0 <= i < |args| ==> IsPlace(args[i])
    case _ => true
  }

  predicate IsPlace(t: Term) { IsPath(t) || t.ThisId? }

  /** Every place is 0, and no torn text is. */
  function Zeros(): World {
    World((o, s) => o, (f, vs) => 1, (f, vs) => |vs| == 2 && vs[0] == vs[1], (n, x, y) => x == y, 0, x => 0,
        (j, x) => 0)
  }

  function Nowhere(): Env { x => 0 }

  lemma PlaceZero(t: Term)
    requires IsPlace(t)
    ensures EvalT(Zeros(), Nowhere(), t) == 0 && BareT(t) == t
  {
    if t.Dot? { PlaceZero(t.base); }
  }

  lemma SideFalse(rd: Reader, t: Term, e: Expr, b: Term, a: Atom)
    requires IsPlace(t) && a in Sides(rd, This(t), Torn(b, e))
    ensures a.when == [] && !AtomTrue(Zeros(), Nowhere(), a)
  {
    PlaceZero(t);
    if t.Dot? { PlaceZero(t.base); }
    assert EvalT(Zeros(), Nowhere(), Torn(b, e)) == 1;
  }

  /** In that world a torn atom is false, though the first operand has the value it was read for. */
  lemma TornFalse(rd: Reader, e: Expr, ne: bool, a: Atom)
    requires OfPlaces(e.c.u) && a in TornAtoms(rd, e, ne)
    ensures a.when == [] && !AtomTrue(Zeros(), Nowhere(), a) && EvalU(Zeros(), Nowhere(), e.c.u) == !ne
  {
    var w: World, env: Env := Zeros(), Nowhere();
    match e.c.u
    case OwnedBy(v, id) =>
      PlaceZero(v);
      PlaceZero(id);
      assert EvalT(w, env, Torn(id, e)) == 1;
    case Cmp(unequal, p, b) =>
      PlaceZero(p);
      PlaceZero(b);
      SideFalse(rd, p, e, b, a);
    case Call(f, args) =>
      PlaceZero(args[0]);
      PlaceZero(args[1]);
      SideFalse(rd, args[0], e, args[1], a);
      assert EvalArgs(w, env, args) == [0, 0];
    case _ =>
  }

  lemma {:induction false} TornWrong(texts: Texts, cond: Expr, e: Expr, ne: bool)
    requires OfPlaces(e.c.u) && !Untorn(NoPreds(texts), e, ne)
    requires AtomsIn(NoPreds(texts), cond, 0) == TornAtoms(NoPreds(texts), e, ne)
    requires EvalU(Zeros(), Nowhere(), e.c.u) == !ne ==> !Eval(Zeros(), Nowhere(), cond)
    ensures !AlwaysSound(NoPreds(texts), cond)
  {
    var rd: Reader, w: World, env: Env := NoPreds(texts), Zeros(), Nowhere();
    UntornReads(rd, e, ne);
    var a := TornAtoms(rd, e, ne)[0];
    TornFalse(rd, e, ne, a);
    assert Models(w, rd) && Knows(w, {}, env);
    assert a in AtomsIn(rd, cond, 0) && FlagsTrue(env, a.when) && !Guarantees(w, env, a);
  }

  /** `!(a.is_owned_by(x) || ..)`: a group of operands joined by `||` is read soundly exactly when no
      pattern for its first operand runs on to the end of the text. */
  lemma {:induction false} TornGroupExact(texts: Texts, g: Expr)
    requires g.Or? && AllUnits(g) && (Opens(g.c.u, false) ==> OfPlaces(g.c.u))
    ensures AlwaysSound(NoPreds(texts), Negated(g)) <==> !(Tears(NoPreds(texts), g) && Opens(g.c.u, false))
  {
    var rd := NoPreds(texts);
    SplitAndUnits(g);
    NegatedReads(rd, g);
    if Untorn(rd, g, false) {
      forall w: World, env: Env | Models(w, rd) && Knows(w, {}, env) && !Eval(w, env, Negated(g))
        ensures AllGuarantee(w, env, AtomsIn(rd, Negated(g), 0))
      {
        ConditionSound(w, rd, {}, env, Negated(g), 0);
      }
    } else {
      assert EvalU(Zeros(), Nowhere(), g.c.u) ==> Eval(Zeros(), Nowhere(), g);
      TornWrong(texts, Negated(g), g, false);
    }
  }

  /** `!(vault.is_owned_by(x) || vault.is_owned_by(y))`, a vault of either program, is read as a
      check of its owner against neither. */
  lemma TornOwner(texts: Texts, x: string, y: string)
    ensures var g := OwnedByEither(x, y);
            && AtomsIn(NoPreds(texts), Negated(g), 0) == [Plain(Owner, Name("vault"), Some(Torn(Name(x), g)))]
            && !AlwaysSound(NoPreds(texts), Negated(g))
  {
    var g := OwnedByEither(x, y);
    assert LastOf(g) == LastOf(g.rest) == OwnedBy(Name("vault"), Name(y));
    SplitAndUnits(g);
    NegatedReads(NoPreds(texts), g);
    TornGroupExact(texts, g);
  }

  function OwnedByEither(x: string, y: string): Expr {
    Or(Unit(OwnedBy(Name("vault"), Name(x))), Lone(OwnedBy(Name("vault"), Name(y))))
  }

  /** `unlikely(a.key().ne(k) && ..)`: operands joined by `&&` inside a hint are read soundly exactly
      when no pattern for the first runs on to the end of the text. */
  lemma {:induction false} TornHintExact(texts: Texts, g: Expr)
    requires g.Part? && g.c.And? && !LeadsNot(g) && (Opens(g.c.u, true) ==> OfPlaces(g.c.u))
    ensures AlwaysSound(NoPreds(texts), Lone(Hint(g))) <==> !(Tears(NoPreds(texts), g) && Opens(g.c.u, true))
  {
    var rd, e := NoPreds(texts), Lone(Hint(g));
    HintReads(rd, g);
    if Untorn(rd, g, true) {
      forall w: World, env: Env | Models(w, rd) && Knows(w, {}, env) && !Eval(w, env, e)
        ensures AllGuarantee(w, env, AtomsIn(rd, e, 0))
      {
        ConditionSound(w, rd, {}, env, e, 0);
      }
    } else {
      assert Eval(Zeros(), Nowhere(), e) == EvalC(Zeros(), Nowhere(), e.c) == EvalU(Zeros(), Nowhere(), e.c.u);
      assert Eval(Zeros(), Nowhere(), g) == EvalC(Zeros(), Nowhere(), g.c);
      TornWrong(texts, e, g, true);
    }
  }

  lemma {:induction false} HintReads(rd: Reader, g: Expr)
    requires g.Part? && g.c.And? && !LeadsNot(g)
    ensures AtomsIn(rd, Lone(Hint(g)), 0) == TornAtoms(rd, g, true)
    ensures SplitsRight(rd, Lone(Hint(g)), 0) == Untorn(rd, g, true)
  {
    var e := Lone(Hint(g));
    assert Unparen(e) == e && SplitAnd(e) == [e] && Bare(e) == Bare(g) == g;
    assert Checks([e], false) == [e] + Checks([], false) == [e];
    assert Flags([e], false) == [] + Flags([], false) == [];
    NeedingNone(TornAtoms(rd, g, true));
  }

  // -------------------------------------------------- fns named as equalities

  /** No run slips past an atom of `cond` where the fn `f` of two values means `means`. */
  ghost predicate SoundWhere(rd: Reader, cond: Expr, f: string, means: (Obj, Obj) -> bool) {
    forall w: World, env: Env {:trigger Eval(w, env, cond)} ::
      && CallsBodies(w, rd) && KeysWide(w) && (forall x: Obj, y: Obj :: w.call(f, [x, y]) == means(x, y))
      && Knows(w, {}, env) && !Eval(w, env, cond)
      ==> AllGuarantee(w, env, AtomsIn(rd, cond, 0))
  }

  function CallFails(f: string): Expr { Lone(Not(Call(f, [Dot(Name("a"), Check(Key)), Name("b")]))) }

  lemma {:induction false} CallFailsReads(rd: Reader, f: string)
    requires IsEqName(f) && f !in rd.preds
    ensures AtomsIn(rd, CallFails(f), 0) == [KeyCheck("a", Name("b"))]
  {
    var e, k := CallFails(f), Dot(Name("a"), Check(Key));
    var u := e.c.u.u;
    assert Unparen(e) == e && Bare(e) == e && SplitAnd(e) == [e];
    assert Checks([e], false) == [e] + Checks([], false) == [e];
    assert Flags([e], false) == [] + Flags([], false) == [];
    assert Bare(StripNot(e)) == Bare(Lone(u)) == Lone(u) && Inline(rd, Lone(u)).None? && SplitAnd(Lone(u)) == [Lone(u)];
    assert BareT(k) == k && IsPath(k.base) && IsSide(k) && !IsSide(Name("b"));
    assert RejectsNot(rd, Lone(u), 0) == FailsOn(rd, u) == Compared(rd, k, Name("b")) == [KeyCheck("a", Name("b"))];
    NeedingNone([KeyCheck("a", Name("b"))]);
  }

  lemma CallFailsMeans(w: World, env: Env, f: string)
    ensures var k := w.field(env("a"), Check(Key)); Eval(w, env, CallFails(f)) == !w.call(f, [k, env("b")])
    ensures AtomTrue(w, env, KeyCheck("a", Name("b"))) == (w.field(env("a"), Check(Key)) == env("b"))
  {
    var e, k := CallFails(f), Dot(Name("a"), Check(Key));
    assert EvalT(w, env, k) == w.field(EvalT(w, env, k.base), k.seg);
    assert EvalArgs(w, env, [k, Name("b")]) == [EvalT(w, env, k), env("b")];
    assert Eval(w, env, e) == EvalC(w, env, e.c) == EvalU(w, env, e.c.u) == !EvalU(w, env, e.c.u.u);
  }

  /** `!f(a.key, b)`, `f` named as an equality and its body not seen, is read as a comparison of the
      two: that is sound exactly when `f` answers true of equal values only. */
  lemma {:induction false} NamedFnExact(texts: Texts, f: string, means: (Obj, Obj) -> bool)
    requires IsEqName(f)
    ensures AtomsIn(NoPreds(texts), CallFails(f), 0) == [KeyCheck("a", Name("b"))]
    ensures SoundWhere(NoPreds(texts), CallFails(f), f, means) <==> forall x, y :: means(x, y) ==> x == y
  {
    var rd, cond, a := NoPreds(texts), CallFails(f), KeyCheck("a", Name("b"));
    CallFailsReads(rd, f);
    if x, y :| means(x, y) && x != y {
      var env: Env := z => if z == "a" then x else y;
      var w := Plainly(env(PROGRAM_ID)).(call := (g, vs) => |vs| == 2 && means(vs[0], vs[1]));
      assert CallsBodies(w, rd) && KeysWide(w) && Knows(w, {}, env);
      CallFailsMeans(w, env, f);
      assert w.call(f, [x, y]) == means(x, y);
      assert a in AtomsIn(rd, cond, 0) && FlagsTrue(env, a.when) && !Guarantees(w, env, a);
      assert !AllGuarantee(w, env, AtomsIn(rd, cond, 0));
    } else {
      forall w: World, env: Env
        | CallsBodies(w, rd) && KeysWide(w) && (forall x: Obj, y: Obj :: w.call(f, [x, y]) == means(x, y)) &&
          Knows(w, {}, env) && !Eval(w, env, cond)
        ensures AllGuarantee(w, env, AtomsIn(rd, cond, 0))
      {
        CallFailsMeans(w, env, f);
      }
    }
  }

  /** `!neq(a.key, b)` lets only different values past, and is read as the check that they are
      equal. */
  lemma NeqNamed(texts: Texts)
    ensures IsEqName("neq") && !SoundWhere(NoPreds(texts), CallFails("neq"), "neq", (x, y) => x != y)
  {
    var means: (Obj, Obj) -> bool := (x, y) => x != y;
    assert EndsWith("neq", "eq");
    NamedFnExact(texts, "neq", means);
    assert means(0, 1) && 0 != 1;
  }

  /** With its body seen, the same fn is read by what it says: worlds with such a helper exist, and
      condition soundness speaks of them. */
  lemma NeqSeen(texts: Texts)
    ensures exists w :: Models(w, Reader(map["neq" := Pred(["a", "b"], Lone(Cmp(true, Name("a"), Name("b"))))], texts))
  {
    var body := Lone(Cmp(true, Name("a"), Name("b")));
    var rd := Reader(map["neq" := Pred(["a", "b"], body)], texts);
    var w := Plainly(0).(call := (f, vs) => |vs| == 2 && if f == "neq" then vs[0] != vs[1] else vs[0] == vs[1]);
    forall vals: seq<Obj> | |vals| == 2
      ensures w.call("neq", vals) == Eval(w, Bind(["a", "b"], vals, ConstEnv(w)), body)
    {
      var env := Bind(["a", "b"], vals, ConstEnv(w));
      assert ["a", "b"][1..] == ["b"] && vals[1..] == [vals[1]] && "a" != "b";
      assert env("a") == vals[0] && env("b") == ValFor(["b"], [vals[1]], "b", ConstEnv(w)("b")) == vals[1];
      assert Eval(w, env, body) == EvalC(w, env, body.c) == EvalU(w, env, body.c.u);
    }
    assert Models(w, rd);
  }

  // ------------------------------------------------ other unsound readings

  function KeyIsNot(account: string, t: Term): Expr { Lone(Cmp(true, Dot(Name(account), Check(Key)), t)) }

  function KeyCheck(account: string, against: Term): Atom { Plain(Key, Name(account), Some(against)) }

  lemma {:induction false} LoneCmpReads(rd: Reader, a: Term, b: Term)
    ensures AtomsIn(rd, Lone(Cmp(true, a, b)), 0) == Compared(rd, a, b)
    ensures SplitsRight(rd, Lone(Cmp(true, a, b)), 0) == WholeKeys(a, b)
  {
    var cond := Lone(Cmp(true, a, b));
    assert Unparen(cond) == cond && SplitAnd(cond) == [cond] && Bare(cond) == cond;
    assert Checks([cond], false) == [cond] + Checks([], false) == [cond];
    assert Flags([cond], false) == [] + Flags([], false) == [];
    NeedingNone(Compared(rd, a, b));
  }

  lemma KeyIsNotReads(rd: Reader, account: string, t: Term)
    requires t.Name? || t.ThisId?
    ensures AtomsIn(rd, KeyIsNot(account, t), 0) == [KeyCheck(account, This(t))]
    ensures SplitsRight(rd, KeyIsNot(account, t), 0)
  {
    var k := Dot(Name(account), Check(Key));
    LoneCmpReads(rd, k, t);
    assert BareT(k) == k && BareT(t) == t && IsPath(k.base) && IsSide(k) && !IsSide(This(t));
  }

  /** `sol_memcmp(a.key, b, n) != 0` is read as a comparison of whole keys, whatever `n`: that is
      sound exactly when `n` covers a key. */
  lemma MemcmpExact(texts: Texts, n: nat)
    ensures var cond := Lone(Cmp(true, Memcmp(Dot(Name("a"), Check(Key)), Name("b"), n), Zero));
            && AtomsIn(NoPreds(texts), cond, 0) == [KeyCheck("a", Name("b"))]
            && (AlwaysSound(NoPreds(texts), cond) <==> n >= 32)
  {
    var rd := NoPreds(texts);
    var k := Dot(Name("a"), Check(Key));
    var m := Memcmp(k, Name("b"), n);
    var cond := Lone(Cmp(true, m, Zero));
    var a := KeyCheck("a", Name("b"));
    LoneCmpReads(rd, m, Zero);
    assert BareT(m) == m && BareT(Zero) == Zero && BareT(k) == k && BareT(Name("b")) == Name("b");
    assert IsPath(k.base) && IsSide(k) && !IsSide(Name("b"));
    assert Compared(rd, m, Zero) == Compared(rd, k, Name("b")) == Sides(rd, k, Name("b")) == [a];
    if n >= 32 {
      forall w: World, env: Env | Models(w, rd) && Knows(w, {}, env) && !Eval(w, env, cond)
        ensures AllGuarantee(w, env, AtomsIn(rd, cond, 0))
      {
        ConditionSound(w, rd, {}, env, cond, 0);
      }
    } else {
      ShortMemcmp(rd, k, cond, a);
    }
  }

  lemma {:induction false} ShortMemcmp(rd: Reader, k: Term, cond: Expr, a: Atom)
    requires rd.preds == map[] && k == Dot(Name("a"), Check(Key)) && a == KeyCheck("a", Name("b"))
    requires exists n: nat {:trigger Memcmp(k, Name("b"), n)} ::
               n < 32 && cond == Lone(Cmp(true, Memcmp(k, Name("b"), n), Zero))
    requires AtomsIn(rd, cond, 0) == [a]
    ensures !AlwaysSound(rd, cond)
  {
    var env: Env := x => if x == "a" then 0 else 1;
    var w := Plainly(1).(agree := (i, x, y) => i < 32 || x == y);
    assert Models(w, rd) && Knows(w, {}, env);
    assert EvalT(w, env, cond.c.u.a) == 0;
    assert Eval(w, env, cond) == EvalC(w, env, cond.c) == EvalU(w, env, cond.c.u) == false;
    assert EvalT(w, env, k) == w.field(env("a"), Check(Key)) == 0;
    assert !AtomTrue(w, env, a) && FlagsTrue(env, a.when);
    assert a in AtomsIn(rd, cond, 0) && !Guarantees(w, env, a);
  }
}
