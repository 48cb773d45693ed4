/** Where a check is carried up a call wrongly (crates/solinv-static/src/native.rs, `placed`,
    `through`), and exactly when. */
module NativeCallLimits {
  import opened Common
  import opened NativeSyntax
  import opened NativeRead
  import opened NativeSound
  import opened NativeCalls
  import opened NativeLimits

  /** `fn f(accounts, other) { g(args)?; }` and `fn g(params1) { if cond { return Err } }`. */
  function OneCall(texts: Texts, args: seq<Term>, params1: seq<string>, cond: Expr): Program {
    Program([Fn(["accounts", "other"], [Try(Some(1), args)]), Fn(params1, [RejectIf(cond)])], NoPreds(texts))
  }

  ghost predicate Refuted(prog: Program, i: nat, a: Atom)
    requires i < |prog.fns|
  {
    a in Holds(prog, i) &&
    exists w: World, env: Env, fuel: nat {:trigger ReturnsOk(w, prog, {TRUE}, i, env, fuel)} ::
      && Models(w, prog.rd) && w.consts(TRUE) != 0 && Knows(w, {TRUE}, env)
      && ReturnsOk(w, prog, {TRUE}, i, env, fuel) && !AtomTrue(w, env, a)
  }

  lemma {:induction false} OneCallReads(prog: Program, texts: Texts, args: seq<Term>,
      params1: seq<string>, cond: Expr, a: Atom, b: Atom)
    requires prog == OneCall(texts, args, params1, cond) && |args| == |params1|
    requires AtomsIn(prog.rd, cond, 0) == [a] && a.when == []
    requires Through(prog.fns[0].body, 0, params1, args, a) == Some(b) && b.when == [] && !b.pending
    ensures b in Holds(prog, 0)
  {
    assert prog.fns[0].body == [Try(Some(1), args)];
    assert Placed(prog.fns[1].body, 0, a) == a by { PlacedAtStart(prog.fns[1].body, a); }
    assert PlacedAll(prog.fns[1].body, 0, [a]) == [a];
    assert Direct(prog, 1, 1) == [];
    assert Direct(prog, 1, 0) == [a] + Direct(prog, 1, 1);
    assert a in Atoms(prog, 1, DEPTH - 1);
    assert Followed(prog, 0, 0);
    ThroughAllHas(prog.fns[0].body, 0, params1, args, Atoms(prog, 1, DEPTH - 1), a, b);
    assert b in FromCalls(prog, 0, 0, DEPTH);
    assert b in Atoms(prog, 0, DEPTH);
  }

  lemma PlacedAtStart(body: seq<Stmt>, a: Atom)
    ensures Placed(body, 0, a) == a
  {
    SubstNothing(a.var_);
    SubstVarNothing(a.var_);
    if a.against.Some? {
      SubstNothing(a.against.value);
    }
  }

  lemma SubstVarNothing(t: Term)
    ensures SubstVar([], [], t) == t
  {
  }

  /** A world whose accounts all have key 0, with this program's id `id`. */
  function Blank(id: Obj): World {
    World((o, s) => 0, (f, vs) => 0, (f, vs) => |vs| == 2 && vs[0] == vs[1], (n, x, y) => x == y, id, x => 1,
        (j, x) => 0)
  }

  lemma KeyIsNotBlank(id: Obj, env: Env, account: string, t: Term)
    ensures Eval(Blank(id), env, KeyIsNot(account, t)) == (EvalT(Blank(id), env, t) != 0)
    ensures AtomTrue(Blank(id), env, KeyCheck(account, t)) == (EvalT(Blank(id), env, t) == 0)
  {
    var w, cond, k := Blank(id), KeyIsNot(account, t), Dot(Name(account), Check(Key));
    assert EvalT(w, env, k) == w.field(EvalT(w, env, k.base), k.seg) == 0;
    assert Eval(w, env, cond) == EvalC(w, env, cond.c) == EvalU(w, env, cond.c.u);
  }

  /** `accounts` is passed as `a`, whose key the callee compares with `t`; the caller is said to
      compare it with `said`. */
  lemma {:induction false} SaysKey(texts: Texts, args: seq<Term>, params1: seq<string>, t: Term, said: Term)
    requires t.Name? || t.ThisId?
    requires |args| == |params1| > 0 && params1[0] == "a" && args[0] == Name("accounts")
    requires SubstT(params1, args, This(t)) == said
    ensures var prog := OneCall(texts, args, params1, KeyIsNot("a", t));
            && Direct(prog, 1, 0) == [KeyCheck("a", This(t))]
            && KeyCheck("accounts", said) in Holds(prog, 0)
  {
    var cond := KeyIsNot("a", t);
    var prog := OneCall(texts, args, params1, cond);
    var a, b := KeyCheck("a", This(t)), KeyCheck("accounts", said);
    KeyIsNotReads(prog.rd, "a", t);
    PlacedAtStart(prog.fns[0].body, b);
    assert SubstVar(params1, args, a.var_) == Name("accounts");
    assert Through(prog.fns[0].body, 0, params1, args, a) == Some(b);
    OneCallReads(prog, texts, args, params1, cond, a, b);
  }

  /** A run of it that returns Ok, for which what the caller is said to compare is false. */
  lemma {:induction false} Refutes(w: World, texts: Texts, args: seq<Term>, params1: seq<string>, t: Term, said: Term,
      env: Env)
    requires t.Name? || t.ThisId?
    requires |args| == |params1| > 0 && params1[0] == "a" && args[0] == Name("accounts")
    requires SubstT(params1, args, This(t)) == said
    requires Models(w, NoPreds(texts)) && w.consts(TRUE) != 0 && Knows(w, {TRUE}, env)
    requires var prog := OneCall(texts, args, params1, KeyIsNot("a", t));
             !Eval(w, Frame(w, prog, {TRUE}, 1, EvalArgs(w, env, args)), KeyIsNot("a", t))
    requires !AtomTrue(w, env, KeyCheck("accounts", said))
    ensures Refuted(OneCall(texts, args, params1, KeyIsNot("a", t)), 0, KeyCheck("accounts", said))
  {
    var cond := KeyIsNot("a", t);
    var prog := OneCall(texts, args, params1, cond);
    SaysKey(texts, args, params1, t, said);
    CalleeOk(w, prog, texts, env, args, params1, cond);
  }

  /** A program of that shape is tidy when the callee compares with a shared name, and a parameter
      called `program_id` is passed this program's id: what its caller is said to check, it does. */
  lemma {:induction false} NotRefuted(texts: Texts, args: seq<Term>, params1: seq<string>, t: Term, said: Term)
    requires t.Name? || t.ThisId?
    requires |args| == |params1| > 0 && params1[0] == "a" && args[0] == Name("accounts")
    requires SubstT(params1, args, This(t)) == said
    requires TRUE !in params1
    requires forall n :: 0 <= n < |args| && params1[n] == PROGRAM_ID ==>
               args[n] == ThisId || args[n] == Name(PROGRAM_ID)
    requires t.Name? ==> Shared(OneCall(texts, args, params1, KeyIsNot("a", t)), {TRUE}, 1, t.x)
    ensures !Refuted(OneCall(texts, args, params1, KeyIsNot("a", t)), 0, KeyCheck("accounts", said))
  {
    var cond := KeyIsNot("a", t);
    var prog := OneCall(texts, args, params1, cond);
    SaysKey(texts, args, params1, t, said);
    OneCallTidy(prog, texts, args, params1, t);
    forall w: World, env: Env, fuel: nat
      | Models(w, prog.rd) && w.consts(TRUE) != 0 && Knows(w, {TRUE}, env) && ReturnsOk(w, prog, {TRUE}, 0, env, fuel)
      ensures AtomTrue(w, env, KeyCheck("accounts", said))
    {
      PathsSound(w, prog, {TRUE}, 0, env, fuel);
    }
  }

  lemma {:induction false} OneCallTidy(prog: Program, texts: Texts, args: seq<Term>, params1: seq<string>, t: Term)
    requires t.Name? || t.ThisId?
    requires prog == OneCall(texts, args, params1, KeyIsNot("a", t)) && |args| == |params1| > 0 && params1[0] == "a"
    requires TRUE !in params1
    requires forall n :: 0 <= n < |args| && params1[n] == PROGRAM_ID ==>
               args[n] == ThisId || args[n] == Name(PROGRAM_ID)
    requires t.Name? ==> Shared(prog, {TRUE}, 1, t.x)
    requires Direct(prog, 1, 0) == [KeyCheck("a", This(t))]
    ensures ProgramTidy(prog, {TRUE})
  {
    hide AtomsIn, SplitsRight, Direct, KeyIsNot;
    KeyIsNotReads(prog.rd, "a", t);
    assert |TRUE| == 4 && |"accounts"| == 8 && |"other"| == 5;
    assert StmtTidy(prog, {TRUE}, 0, 0);
    assert StmtTidy(prog, {TRUE}, 1, 0);
    assert Tidy(prog, {TRUE}, 0) && Tidy(prog, {TRUE}, 1);
    var a := KeyCheck("a", This(t));
    assert NamesT(a.var_) == {"a"} && NamesT(This(t)) <= {if t.Name? then t.x else PROGRAM_ID};
    assert Portable(prog, {TRUE}, 1, a);
    assert CalleeTidy(prog, {TRUE}, 1);
  }

  /** Only this program's id and the key of the account at 1 are 0. */
  function OneKey(): World {
    World((o, s) => if o == 1 && s == Check(Key) then 0 else 3, (f, vs) => 0, (f, vs) => |vs| == 2 && vs[0] == vs[1],
      (n, x, y) => x == y, 0, x => 2, (j, x) => 0)
  }

  function AtOne(): Env { z => if z == PROGRAM_ID then 0 else if z == "accounts" then 1 else 2 }

  lemma {:induction false} OtherPlace(t: Term)
    requires IsPath(t) && t != Name(PROGRAM_ID) && t != Dot(Name("accounts"), Check(Key))
    ensures EvalT(OneKey(), AtOne(), t) != 0
  {
    match t
    case Name(_) =>
    case Dot(b, _) =>
      if b.Dot? {
        assert EvalT(OneKey(), AtOne(), b) == OneKey().field(EvalT(OneKey(), AtOne(), b.base), b.seg);
      }
  }

  /** A callee compares the key of its `a` with this program's id, and its parameter named
      `program_id` is passed `id`, a path or this program's id. The caller is said to have compared
      with what was passed: that is wrong exactly when it is another id, and not the key itself. */
  lemma {:induction false} ProgramIdParameter(texts: Texts, id: Term)
    requires IsPlace(id)
    ensures var prog := OneCall(texts, [Name("accounts"), id], ["a", PROGRAM_ID], KeyIsNot("a", ThisId));
            Refuted(prog, 0, KeyCheck("accounts", id)) <==>
            id != ThisId && id != Name(PROGRAM_ID) && id != Dot(Name("accounts"), Check(Key))
  {
    var args, params1 := [Name("accounts"), id], ["a", PROGRAM_ID];
    assert params1[1..] == [PROGRAM_ID] && args[1..] == [id];
    assert |"a"| == 1 && |PROGRAM_ID| == 10 && |TRUE| == 4 && |"accounts"| == 8;
    assert ArgFor(params1, args, PROGRAM_ID) == ArgFor(params1[1..], args[1..], PROGRAM_ID) == id;
    if id == ThisId || id == Name(PROGRAM_ID) {
      NotRefuted(texts, args, params1, ThisId, id);
    } else if id == Dot(Name("accounts"), Check(Key)) {
      OwnKey(OneCall(texts, args, params1, KeyIsNot("a", ThisId)), id);
    } else {
      OtherPlace(id);
      OneKeyRuns(texts, args, params1, id);
      Refutes(OneKey(), texts, args, params1, ThisId, id, AtOne());
    }
  }

  lemma OwnKey(prog: Program, id: Term)
    requires |prog.fns| > 0 && id == Dot(Name("accounts"), Check(Key))
    ensures !Refuted(prog, 0, KeyCheck("accounts", id))
  {
    var a := KeyCheck("accounts", id);
    forall w: World, env: Env ensures AtomTrue(w, env, a) {
      assert EvalT(w, env, id) == w.field(EvalT(w, env, id.base), id.seg);
    }
  }

  lemma {:induction false} OneKeyRuns(texts: Texts, args: seq<Term>, params1: seq<string>, id: Term)
    requires args == [Name("accounts"), id] && params1 == ["a", PROGRAM_ID] && EvalT(OneKey(), AtOne(), id) != 0
    ensures Models(OneKey(), NoPreds(texts)) && Knows(OneKey(), {TRUE}, AtOne())
    ensures var prog := OneCall(texts, args, params1, KeyIsNot("a", ThisId));
            !Eval(OneKey(), Frame(OneKey(), prog, {TRUE}, 1, EvalArgs(OneKey(), AtOne(), args)), KeyIsNot("a", ThisId))
    ensures !AtomTrue(OneKey(), AtOne(), KeyCheck("accounts", id))
  {
    var w, env, cond := OneKey(), AtOne(), KeyIsNot("a", ThisId);
    var prog := OneCall(texts, args, params1, cond);
    var callee := Frame(w, prog, {TRUE}, 1, EvalArgs(w, env, args));
    assert |TRUE| == 4 && |PROGRAM_ID| == 10 && |"accounts"| == 8;
    var vals := EvalArgs(w, env, args);
    assert vals[0] == EvalT(w, env, Name("accounts")) == 1;
    assert callee("a") == ValFor(params1, vals, "a", FrameRest(w, {TRUE}, 1)("a")) == vals[0];
    var k := Dot(Name("a"), Check(Key));
    assert EvalT(w, callee, k) == w.field(EvalT(w, callee, k.base), k.seg) == 0;
    assert Eval(w, callee, cond) == EvalC(w, callee, cond.c) == EvalU(w, callee, cond.c.u);
  }

  /** A callee compares its parameter's key with `y`. The caller is said to have compared with what
      `y` is there: that is wrong exactly when `y` is a name of the callee's own. */
  lemma {:induction false} LocalLeaks(texts: Texts, y: string)
    ensures var prog := OneCall(texts, [Name("accounts")], ["a"], KeyIsNot("a", Name(y)));
            Refuted(prog, 0, KeyCheck("accounts", ArgFor(["a"], [Name("accounts")], y))) <==>
                !Shared(prog, {TRUE}, 1, y)
  {
    var args, params1 := [Name("accounts")], ["a"];
    var prog := OneCall(texts, args, params1, KeyIsNot("a", Name(y)));
    assert |"a"| == 1 && |TRUE| == 4 && |PROGRAM_ID| == 10;
    if Shared(prog, {TRUE}, 1, y) {
      NotRefuted(texts, args, params1, Name(y), ArgFor(params1, args, y));
    } else {
      var env: Env, w := x => 1, Blank(1);
      ArgForOther(params1, args, y);
      ValForOther(params1, EvalArgs(w, env, args), y, 0);
      assert FrameRest(w, {TRUE}, 1)(y) == w.locals(1, y) == 0;
      var callee := Frame(w, prog, {TRUE}, 1, EvalArgs(w, env, args));
      assert callee(y) == 0;
      KeyIsNotBlank(1, callee, "a", Name(y));
      KeyIsNotBlank(1, env, "accounts", Name(y));
      Refutes(w, texts, args, params1, Name(y), Name(y), env);
    }
  }

  lemma {:induction false} CalleeOk(w: World, prog: Program, texts: Texts, env: Env, args: seq<Term>,
      params1: seq<string>, cond: Expr)
    requires prog == OneCall(texts, args, params1, cond) && |args| == |params1|
    requires !Eval(w, Frame(w, prog, {TRUE}, 1, EvalArgs(w, env, args)), cond)
    ensures ReturnsOk(w, prog, {TRUE}, 0, env, 1)
  {
    var callee := Frame(w, prog, {TRUE}, 1, EvalArgs(w, env, args));
    assert EnvAt(w, prog.fns[1].body, 0, callee) == callee;
    assert !Followed(prog, 1, 0);
    assert Passes(w, prog, {TRUE}, 1, callee, 0, 0);
    assert ReturnsOk(w, prog, {TRUE}, 1, callee, 0);
    assert EnvAt(w, prog.fns[0].body, 0, env) == env;
    assert Passes(w, prog, {TRUE}, 0, env, 0, 1);
  }

  // ------------------------------------------ accounts passed as expressions

  function Picked(y: string): Term { Op("pick", [Name(y)]) }

  function Signs(t: Term): Atom { Plain(Signer, t, None) }

  function Unsigned(): Expr { Lone(Not(SignerOf("p"))) }

  /** `fn c(p) { if !p.is_signer() { return Err } }` */
  function SignerFn(): Fn { Fn(["p"], [RejectIf(Unsigned())]) }

  /** `fn a(accounts, xs) { b(accounts)?; }`, `fn b(xs) { c(pick(y))?; }` and `c`. */
  function Chain(texts: Texts, y: string): Program {
    var a, b := Fn(["accounts", "xs"], [Try(Some(1), [Name("accounts")])]), Fn(["xs"], [Try(Some(2), [Picked(y)])]);
    Program([a, b, SignerFn()], NoPreds(texts))
  }

  /** `fn a(xs) { let q = &xs[0]; c(pick(y))?; }` and `c`. */
  function LetChain(texts: Texts, y: string): Program {
    Program([Fn(["xs"], [LetAt("q", "xs", 0), Try(Some(1), [Picked(y)])]), SignerFn()], NoPreds(texts))
  }

  lemma {:induction false} UnsignedReads(rd: Reader)
    ensures AtomsIn(rd, Unsigned(), 0) == [Signs(Name("p"))] && SplitsRight(rd, Unsigned(), 0)
    ensures forall w, env :: Eval(w, env, Unsigned()) == (w.field(env("p"), Check(Signer)) == 0)
  {
    var e, s := Unsigned(), Lone(SignerOf("p"));
    assert Unparen(e) == e && SplitAnd(e) == [e] && Bare(e) == e && StripNot(e) == s;
    assert Bare(s) == s && SplitAnd(s) == [s];
    assert Checks([e], false) == [e] + Checks([], false) == [e];
    assert Flags([e], false) == [] + Flags([], false) == [];
    assert RejectsNot(rd, s, 0) == FailsOn(rd, s.c.u) == [Signs(Name("p"))];
    NeedingNone([Signs(Name("p"))]);
    forall w, env ensures Eval(w, env, e) == (w.field(env("p"), Check(Signer)) == 0) {
      assert Eval(w, env, e) == EvalC(w, env, e.c) == EvalU(w, env, e.c.u) == !EvalU(w, env, e.c.u.u);
      assert EvalT(w, env, e.c.u.u.t) == w.field(EvalT(w, env, e.c.u.u.t.base), Check(Signer));
    }
  }

  /** A fn like `c`, the last of a program. */
  lemma {:induction false} SignerFnReads(prog: Program, j: nat, depth: nat)
    requires j < |prog.fns| && prog.fns[j] == SignerFn()
    ensures Direct(prog, j, 0) == [Signs(Name("p"))] && Signs(Name("p")) in Atoms(prog, j, depth)
  {
    UnsignedReads(prog.rd);
    hide AtomsIn;
    PlacedAtStart(prog.fns[j].body, Signs(Name("p")));
    assert PlacedAll(prog.fns[j].body, 0, [Signs(Name("p"))]) == [Signs(Name("p"))];
    assert Direct(prog, j, 1) == [];
    assert Direct(prog, j, 0) == [Signs(Name("p"))] + Direct(prog, j, 1);
  }

  lemma {:induction false} ChainReads(texts: Texts, y: string)
    ensures Signs(Picked(y)) in Holds(Chain(texts, y), 0)
  {
    var prog, a, b := Chain(texts, y), Signs(Name("p")), Signs(Picked(y));
    SignerFnReads(prog, 2, DEPTH - 2);
    assert Followed(prog, 1, 0) && Target(prog, 1, 0) == 2 && Followed(prog, 0, 0) && Target(prog, 0, 0) == 1;
    assert SubstVar(["p"], [Picked(y)], Name("p")) == Picked(y);
    assert Carry(prog, 1, 0, a) == Some(b);
    CarriedUp(prog, 1, 0, 0, DEPTH - 2, a, b);
    assert b in Atoms(prog, 1, DEPTH - 1);
    assert Carry(prog, 0, 0, b) == Some(b);
    CarriedUp(prog, 0, 0, 0, DEPTH - 1, b, b);
    assert b in Atoms(prog, 0, DEPTH);
  }

  lemma {:induction false} LetChainReads(texts: Texts, y: string)
    ensures Signs(Picked(y)) in Holds(LetChain(texts, y), 0)
  {
    var prog, a, b := LetChain(texts, y), Signs(Name("p")), Signs(Picked(y));
    SignerFnReads(prog, 1, DEPTH - 1);
    assert Followed(prog, 0, 1) && Target(prog, 0, 1) == 1;
    assert SubstVar(["p"], [Picked(y)], Name("p")) == Picked(y);
    assert Carry(prog, 0, 1, a) == Some(b);
    CarriedUp(prog, 0, 1, 0, DEPTH - 1, a, b);
    assert b in Atoms(prog, 0, DEPTH);
  }

  /** `pick` gives back what it is given, and an account is its own signer flag. */
  function Picker(): World {
    World((o, s) => o, (f, vs) => if |vs| == 1 then vs[0] else 0, (f, vs) => |vs| == 2 && vs[0] == vs[1],
      (n, x, y) => x == y, 1, x => 1, (j, x) => 1)
  }

  function AllBut(y: string): Env { z => if z == y then 0 else 1 }

  lemma PickerSigns(env: Env, y: string)
    ensures EvalT(Picker(), env, Picked(y)) == env(y)
    ensures AtomTrue(Picker(), env, Signs(Picked(y))) == (env(y) != 0)
  {
    assert EvalT(Picker(), env, Picked(y)) == Picker().op("pick", EvalArgs(Picker(), env, [Name(y)]));
  }

  lemma PickerModels(texts: Texts, y: string)
    requires y != TRUE && y != PROGRAM_ID
    ensures Models(Picker(), NoPreds(texts)) && Knows(Picker(), {TRUE}, AllBut(y))
  {
  }

  /** A run of `c` given an account that signs. */
  lemma {:induction false} SignerFnRuns(prog: Program, j: nat, v: Obj)
    requires j < |prog.fns| && prog.fns[j] == SignerFn() && v != 0
    ensures ReturnsOk(Picker(), prog, {TRUE}, j, Frame(Picker(), prog, {TRUE}, j, [v]), 0)
  {
    var callee := Frame(Picker(), prog, {TRUE}, j, [v]);
    UnsignedReads(prog.rd);
    assert EnvAt(Picker(), prog.fns[j].body, 0, callee) == callee && callee("p") == v;
    assert !Followed(prog, j, 0);
    assert Passes(Picker(), prog, {TRUE}, j, callee, 0, 0);
  }

  lemma OneParam(p: string, v: Obj, x: string, otherwise: Obj)
    ensures ValFor([p], [v], x, otherwise) == if x == p then v else otherwise
  {
    assert [p][1..] == [] && [v][1..] == [];
  }

  lemma {:induction false} ChainRuns(texts: Texts, y: string)
    requires y != TRUE && y != PROGRAM_ID
    ensures ReturnsOk(Picker(), Chain(texts, y), {TRUE}, 0, AllBut(y), 2)
  {
    var prog, w, env := Chain(texts, y), Picker(), AllBut(y);
    assert Followed(prog, 1, 0) && Target(prog, 1, 0) == 2 && Followed(prog, 0, 0) && Target(prog, 0, 0) == 1;
    assert |"xs"| == 2 && |"accounts"| == 8;
    var inner := CalleeEnv(w, prog, {TRUE}, 0, 0, env);
    var vals := EvalArgs(w, EnvAt(w, prog.fns[0].body, 0, env), [Name("accounts")]);
    assert vals[0] == EvalT(w, env, Name("accounts")) == env("accounts");
    OneParam("xs", vals[0], y, FrameRest(w, {TRUE}, 1)(y));
    assert vals == [vals[0]] && inner == Frame(w, prog, {TRUE}, 1, vals);
    assert inner(y) == ValFor(["xs"], vals, y, FrameRest(w, {TRUE}, 1)(y)) == 1;
    PickerSigns(inner, y);
    assert EvalArgs(w, inner, [Picked(y)]) == [1];
    SignerFnRuns(prog, 2, 1);
    assert CalleeEnv(w, prog, {TRUE}, 1, 0, inner) == Frame(w, prog, {TRUE}, 2, [1]);
    assert Passes(w, prog, {TRUE}, 1, inner, 0, 1);
    assert ReturnsOk(w, prog, {TRUE}, 1, inner, 1);
    assert Passes(w, prog, {TRUE}, 0, env, 0, 2);
  }

  lemma {:induction false} LetChainRuns(texts: Texts)
    ensures ReturnsOk(Picker(), LetChain(texts, "q"), {TRUE}, 0, AllBut("q"), 1)
  {
    var prog, w, env := LetChain(texts, "q"), Picker(), AllBut("q");
    assert Followed(prog, 0, 1) && Target(prog, 0, 1) == 1 && |"xs"| == 2 && |"q"| == 1;
    var here := EnvAt(w, prog.fns[0].body, 1, env);
    assert EnvAt(w, prog.fns[0].body, 0, env) == env;
    assert here("q") == 1;
    PickerSigns(here, "q");
    assert EvalArgs(w, here, [Picked("q")]) == [1];
    SignerFnRuns(prog, 1, 1);
    assert CalleeEnv(w, prog, {TRUE}, 0, 1, env) == Frame(w, prog, {TRUE}, 1, [1]);
    assert Passes(w, prog, {TRUE}, 0, env, 1, 1);
    assert Passes(w, prog, {TRUE}, 0, env, 0, 1);
  }

  lemma {:induction false} SignerFnTidy(prog: Program, j: nat)
    requires j < |prog.fns| && prog.fns[j] == SignerFn()
    ensures Tidy(prog, {TRUE}, j) && CalleeTidy(prog, {TRUE}, j)
  {
    UnsignedReads(prog.rd);
    SignerFnReads(prog, j, 0);
    hide AtomsIn, SplitsRight, Direct, StmtTidy, CalleeTidy;
    assert |TRUE| == 4 && |"p"| == 1;
    SignerStmtTidy(prog, j);
    SignerCalleeTidy(prog, j);
  }

  lemma {:induction false} SignerStmtTidy(prog: Program, j: nat)
    requires j < |prog.fns| && prog.fns[j] == SignerFn() && SplitsRight(prog.rd, Unsigned(), 0)
    requires AtomsIn(prog.rd, Unsigned(), 0) == [Signs(Name("p"))]
    ensures StmtTidy(prog, {TRUE}, j, 0)
  {
    hide AtomsIn, SplitsRight;
  }

  lemma {:induction false} SignerCalleeTidy(prog: Program, j: nat)
    requires j < |prog.fns| && prog.fns[j] == SignerFn() && Direct(prog, j, 0) == [Signs(Name("p"))]
    ensures CalleeTidy(prog, {TRUE}, j)
  {
    hide Direct;
    assert forall at: nat :: !Followed(prog, j, at);
    assert Portable(prog, {TRUE}, j, Signs(Name("p")));
  }

  lemma PickedInside(y: string)
    ensures Inside(Picked(y)) == NamesT(Picked(y)) == {y} && Roots(Picked(y)) == {}
  {
    assert [Name(y)][1..] == [] && NamesArgs([Name(y)]) == NamesT(Name(y)) + NamesArgs([]);
  }

  /** A fn that only passes on. */
  lemma {:induction false} PassOnTidy(prog: Program, i: nat)
    requires i < |prog.fns| && |prog.fns[i].body| == 1 && prog.fns[i].body[0].Try? && TRUE !in prog.fns[i].params
    requires Followed(prog, i, 0) ==> PROGRAM_ID !in prog.fns[Target(prog, i, 0)].params
    ensures Tidy(prog, {TRUE}, i)
  {
    assert StmtTidy(prog, {TRUE}, i, 0);
    hide StmtTidy;
  }

  lemma {:induction false} PassOnCalleeTidy(prog: Program, i: nat)
    requires Followed(prog, i, 0) && |prog.fns[i].body| == |prog.fns[i].body[0].args| == 1
    requires forall x :: x in NamesT(prog.fns[i].body[0].args[0]) ==> Shared(prog, {TRUE}, i, x)
    ensures CalleeTidy(prog, {TRUE}, i)
  {
    hide Shared;
    assert Direct(prog, i, 1) == [];
    assert Direct(prog, i, 0) == [] + Direct(prog, i, 1) == [];
    forall x | Shared(prog, {TRUE}, i, x) ensures PlaceShared(prog, {TRUE}, i, 0, x) {
      assert ArgFor(LetNames(prog.fns[i].body, 0), LetPlaces(prog.fns[i].body, 0), x) == Name(x);
    }
    assert forall at: nat :: Followed(prog, i, at) ==> at == 0;
  }

  /** What the chain's helpers name, `b`'s parameter included, is what callers can name. */
  lemma {:induction false} ChainTidy(texts: Texts, y: string)
    requires y == "xs" || y == TRUE || y == PROGRAM_ID
    ensures ProgramTidy(Chain(texts, y), {TRUE})
  {
    var prog := Chain(texts, y);
    assert |TRUE| == 4 && |"xs"| == 2 && |"accounts"| == 8 && |"p"| == 1 && |PROGRAM_ID| == 10;
    assert Followed(prog, 1, 0) && Target(prog, 1, 0) == 2 && Followed(prog, 0, 0) && Target(prog, 0, 0) == 1;
    PickedInside(y);
    assert Shared(prog, {TRUE}, 1, y);
    hide Tidy, CalleeTidy, Shared;
    SignerFnTidy(prog, 2);
    PassOnTidy(prog, 1);
    PassOnCalleeTidy(prog, 1);
    PassOnTidy(prog, 0);
  }

  lemma {:induction false} ChainArgsTidy(texts: Texts, y: string)
    requires y == TRUE || y == PROGRAM_ID
    ensures ArgsTidy(Chain(texts, y), {TRUE})
  {
    var prog := Chain(texts, y);
    PickedInside(y);
    hide Heads, Called;
    assert Followed(prog, 1, 0) ==> ArgTidy(prog, {TRUE}, 1, 0, 0);
    assert Followed(prog, 0, 0) ==> ArgTidy(prog, {TRUE}, 0, 0, 0);
  }

  lemma {:induction false} LetChainTidy(texts: Texts, y: string)
    ensures ProgramTidy(LetChain(texts, y), {TRUE})
  {
    var prog := LetChain(texts, y);
    assert |TRUE| == 4 && |"xs"| == 2 && |"q"| == 1 && |PROGRAM_ID| == 10 && |"p"| == 1;
    SignerFnTidy(prog, 1);
    assert LetNames(prog.fns[0].body, 0) == [];
    assert StmtTidy(prog, {TRUE}, 0, 0) && StmtTidy(prog, {TRUE}, 0, 1);
    hide StmtTidy, CalleeTidy, LetNames;
    assert Tidy(prog, {TRUE}, 0);
  }

  lemma {:induction false} LetChainArgsTidy(texts: Texts, y: string)
    requires y != "q"
    ensures ArgsTidy(LetChain(texts, y), {TRUE})
  {
    var prog := LetChain(texts, y);
    PickedInside(y);
    assert LetNames(prog.fns[0].body, 1) == ["q"] + LetNames(prog.fns[0].body, 0) == ["q"];
    assert !Called(prog, 0);
    hide Heads, Called, LetNames;
    assert Followed(prog, 0, 1) ==> ArgTidy(prog, {TRUE}, 0, 1, 0);
  }

  lemma SoundNotRefuted(prog: Program, i: nat, a: Atom)
    requires i < |prog.fns| && ProgramTidy(prog, {TRUE}) && ArgsTidy(prog, {TRUE})
    ensures !Refuted(prog, i, a)
  {
    hide ProgramTidy, ArgsTidy, Models, AtomTrue, ReturnsOk, Holds;
    forall w: World, env: Env, fuel: nat
      | Models(w, prog.rd) && w.consts(TRUE) != 0 && Knows(w, {TRUE}, env) && ReturnsOk(w, prog, {TRUE}, i, env, fuel)
      ensures a in Holds(prog, i) ==> AtomTrue(w, env, a)
    {
      HoldsSound(w, prog, {TRUE}, i, env, fuel);
    }
  }

  /** A helper `b` passes on `pick(y)` as the account `c` checks. Its caller is said to check `pick` of
      its own `y`: that is wrong exactly when `y` is not a name that means the same to every fn. */
  lemma {:induction false} PassedExpression(texts: Texts, y: string)
    ensures Refuted(Chain(texts, y), 0, Signs(Picked(y))) <==> y != TRUE && y != PROGRAM_ID
  {
    ChainReads(texts, y);
    if y == TRUE || y == PROGRAM_ID {
      ChainTidy(texts, y);
      ChainArgsTidy(texts, y);
      SoundNotRefuted(Chain(texts, y), 0, Signs(Picked(y)));
    } else {
      hide Chain, Holds, Models, Knows, ReturnsOk, AtomTrue;
      PickerModels(texts, y);
      ChainRuns(texts, y);
      PickerSigns(AllBut(y), y);
    }
  }

  /** `b`'s own parameter is such a name, though every check of its callee names parameters only. */
  lemma {:induction false} PassedParameter(texts: Texts)
    ensures ProgramTidy(Chain(texts, "xs"), {TRUE}) && Refuted(Chain(texts, "xs"), 0, Signs(Picked("xs")))
  {
    assert |"xs"| == 2 && |TRUE| == 4 && |PROGRAM_ID| == 10;
    ChainTidy(texts, "xs");
    PassedExpression(texts, "xs");
  }

  /** A fn that binds `q` passes `pick(y)`. It is said to check `pick` of the `y` it was given: that is
      wrong exactly when `y` is `q`. */
  lemma {:induction false} PassedLet(texts: Texts, y: string)
    ensures Refuted(LetChain(texts, y), 0, Signs(Picked(y))) <==> y == "q"
  {
    LetChainReads(texts, y);
    if y == "q" {
      assert |"q"| == 1 && |TRUE| == 4 && |PROGRAM_ID| == 10;
      hide LetChain, Holds, Models, Knows, ReturnsOk, AtomTrue;
      PickerModels(texts, y);
      LetChainRuns(texts);
      PickerSigns(AllBut(y), y);
    } else {
      LetChainTidy(texts, y);
      LetChainArgsTidy(texts, y);
      SoundNotRefuted(LetChain(texts, y), 0, Signs(Picked(y)));
    }
  }
}
