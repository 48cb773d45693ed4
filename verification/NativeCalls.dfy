/** A native fn's checks through the fns it calls (crates/solinv-static/src/native.rs, `canon`,
    `placed`, `through`, `atoms`, `holds`), and what a fn that returns Ok has checked. */
module NativeCalls {
  import opened Common
  import opened NativeSyntax
  import opened NativeRead
  import opened NativeSound

  /** `if cond { return Err }`, `let name = &slice[n]` and `f(args)?`. `target`: the fn called,
      when its name resolves. */
  datatype Stmt =
    | RejectIf(cond: Expr)
    | LetAt(name: string, slice: string, n: nat)
    | Try(target: Option<nat>, args: seq<Term>)

  datatype Fn = Fn(params: seq<string>, body: seq<Stmt>)

  datatype Program = Program(fns: seq<Fn>, rd: Reader)

  const TRUE: string := "true"

  // --------------------------------------------------------------- the code

  /** The names bound before statement `at`, the latest first. */
  function LetNames(body: seq<Stmt>, at: nat): seq<string>
    requires at <= |body|
  {
    if at == 0 then []
    else if body[at - 1].LetAt? then [body[at - 1].name] + LetNames(body, at - 1)
    else LetNames(body, at - 1)
  }

  function LetPlaces(body: seq<Stmt>, at: nat): (r: seq<Term>)
    requires at <= |body|
    ensures |r| == |LetNames(body, at)|
  {
    if at == 0 then []
    else if body[at - 1].LetAt? then [Dot(Name(body[at - 1].slice), Index(body[at - 1].n))] + LetPlaces(body, at - 1)
    else LetPlaces(body, at - 1)
  }

  /** The root of a path replaced, and that of a text that starts with one; the rest stays. */
  function SubstVar(params: seq<string>, args: seq<Term>, t: Term): Term
    requires |params| == |args|
  {
    match t
    case Name(x) => ArgFor(params, args, x)
    case Dot(b, s) => Dot(SubstVar(params, args, b), s)
    case Op(f, ts) => if Leads(f) && ts != [] then Op(f, [SubstVar(params, args, ts[0])] + ts[1..]) else t
    case _ => t
  }

  function SubstAgainst(params: seq<string>, args: seq<Term>, against: Option<Term>): Option<Term>
    requires |params| == |args|
  {
    match against
    case Some(t) => Some(SubstT(params, args, t))
    case None => None
  }

  /** An atom read at statement `at`: every name its place in a slice. */
  function Placed(body: seq<Stmt>, at: nat, a: Atom): Atom
    requires at <= |body|
  {
    var names, places := LetNames(body, at), LetPlaces(body, at);
    a.(var_ := SubstVar(names, places, a.var_), against := SubstAgainst(names, places, a.against))
  }

  /** The flags still needed once the parameters are given; None when one is given other than
      `true`. */
  function FlagsLeft(params: seq<string>, args: seq<Term>, when: seq<string>): Option<seq<string>>
    requires |params| == |args|
  {
    if when == [] then Some([])
    else
      var left := FlagsLeft(params, args, when[1..]);
      if left.None? then None
      else if when[0] !in params then Some([when[0]] + left.value)
      else if ArgFor(params, args, when[0]) == Name(TRUE) then left
      else None
  }

  /** A value parameter given an account's key or owner is a check of that account. */
  function Settled(a: Atom): Atom {
    if a.pending && IsSide(a.var_)
    then a.(kind := a.var_.seg.kind, var_ := a.var_.base, pending := false)
    else a
  }

  /** A callee's atom as the call at `at` makes it. */
  function Through(body: seq<Stmt>, at: nat, params: seq<string>, args: seq<Term>, a: Atom): Option<Atom>
    requires at <= |body| && |params| == |args|
  {
    match FlagsLeft(params, args, a.when)
    case None => None
    case Some(left) =>
      var out := a.(var_ := SubstVar(params, args, a.var_), against := SubstAgainst(params, args, a.against),
          when := left);
      Some(Placed(body, at, Settled(out)))
  }

  function ThroughAll(body: seq<Stmt>, at: nat, params: seq<string>, args: seq<Term>, atoms: seq<Atom>): (r: seq<Atom>)
    requires at <= |body| && |params| == |args|
    ensures forall b :: b in r ==> exists a :: a in atoms && Through(body, at, params, args, a) == Some(b)
  {
    if atoms == [] then []
    else
      var rest := ThroughAll(body, at, params, args, atoms[1..]);
      assert forall a :: a in atoms[1..] ==> a in atoms;
      match Through(body, at, params, args, atoms[0])
      case Some(b) => [b] + rest
      case None => rest
  }

  function PlacedAll(body: seq<Stmt>, at: nat, atoms: seq<Atom>): (r: seq<Atom>)
    requires at <= |body|
    ensures |r| == |atoms| && forall i :: 0 <= i < |atoms| ==> r[i] == Placed(body, at, atoms[i])
  {
    seq(|atoms|, i requires 0 <= i < |atoms| => Placed(body, at, atoms[i]))
  }

  /** The call at `at` of fn `i` is followed: its target is known, another fn, and takes that many
      arguments. */
  predicate Followed(prog: Program, i: nat, at: nat) {
    && i < |prog.fns| && at < |prog.fns[i].body|
    && prog.fns[i].body[at].Try? && prog.fns[i].body[at].target.Some?
    && var j := prog.fns[i].body[at].target.value;
       j < |prog.fns| && j != i && |prog.fns[i].body[at].args| == |prog.fns[j].params|
  }

  /** The fn the call at `at` calls. */
  function Target(prog: Program, i: nat, at: nat): (j: nat)
    requires Followed(prog, i, at)
    ensures j < |prog.fns| && |prog.fns[i].body[at].args| == |prog.fns[j].params|
  {
    prog.fns[i].body[at].target.value
  }

  /** A callee's atom as fn `i` makes it. */
  function Carry(prog: Program, i: nat, at: nat, a: Atom): Option<Atom>
    requires Followed(prog, i, at)
  {
    Through(prog.fns[i].body, at, prog.fns[Target(prog, i, at)].params, prog.fns[i].body[at].args, a)
  }

  /** What the call at `at` carries up, from `depth` calls down. */
  function CallAtoms(prog: Program, i: nat, at: nat, depth: nat): (r: seq<Atom>)
    requires Followed(prog, i, at)
    ensures forall b :: b in r ==>
              exists a :: a in Atoms(prog, Target(prog, i, at), depth) && Carry(prog, i, at, a) == Some(b)
    decreases depth, |prog.fns[Target(prog, i, at)].body| + 2
  {
    var j, body := Target(prog, i, at), prog.fns[i].body;
    var r := ThroughAll(body, at, prog.fns[j].params, body[at].args, Atoms(prog, j, depth));
    assert forall a :: Through(body, at, prog.fns[j].params, body[at].args, a) == Carry(prog, i, at, a);
    r
  }

  /** The atoms of fn `i`'s own conditions, from statement `at` on. */
  function Direct(prog: Program, i: nat, at: nat): seq<Atom>
    requires i < |prog.fns| && at <= |prog.fns[i].body|
    decreases |prog.fns[i].body| - at
  {
    var body := prog.fns[i].body;
    if at == |body| then []
    else
      (if body[at].RejectIf? then PlacedAll(body, at, AtomsIn(prog.rd, body[at].cond, 0)) else [])
      + Direct(prog, i, at + 1)
  }

  /** Every atom fn `i` checks, to `depth` calls down. */
  function Atoms(prog: Program, i: nat, depth: nat): seq<Atom>
    requires i < |prog.fns|
    decreases depth, |prog.fns[i].body| + 1
  {
    Direct(prog, i, 0) + if depth == 0 then [] else FromCalls(prog, i, 0, depth)
  }

  function FromCalls(prog: Program, i: nat, at: nat, depth: nat): seq<Atom>
    requires i < |prog.fns| && at <= |prog.fns[i].body| && depth > 0
    decreases depth, |prog.fns[i].body| - at
  {
    var body := prog.fns[i].body;
    if at == |body| then []
    else
      (if Followed(prog, i, at) then CallAtoms(prog, i, at, depth - 1) else []) + FromCalls(prog, i, at + 1, depth)
  }

  function Unconditional(atoms: seq<Atom>): (r: seq<Atom>)
    ensures forall a :: a in r <==> a in atoms && a.when == [] && !a.pending
  {
    if atoms == [] then []
    else (if atoms[0].when == [] && !atoms[0].pending then [atoms[0]] else []) + Unconditional(atoms[1..])
  }

  /** Atoms that hold unconditionally in fn `i`. */
  function Holds(prog: Program, i: nat): (r: seq<Atom>)
    requires i < |prog.fns|
    ensures forall a :: a in r <==> a in Atoms(prog, i, DEPTH) && a.when == [] && !a.pending
  {
    Unconditional(Atoms(prog, i, DEPTH))
  }

  lemma ThroughAllHas(body: seq<Stmt>, at: nat, params: seq<string>, args: seq<Term>, atoms: seq<Atom>, a: Atom,
      b: Atom)
    requires at <= |body| && |params| == |args|
    requires a in atoms && Through(body, at, params, args, a) == Some(b)
    ensures b in ThroughAll(body, at, params, args, atoms)
  {
    if atoms[0] != a {
      ThroughAllHas(body, at, params, args, atoms[1..], a, b);
    }
  }

  lemma {:induction false} CallHas(prog: Program, i: nat, at: nat, depth: nat, a: Atom, b: Atom)
    requires Followed(prog, i, at) && a in Atoms(prog, Target(prog, i, at), depth) && Carry(prog, i, at, a) == Some(b)
    ensures b in CallAtoms(prog, i, at, depth)
  {
    hide Atoms, Through;
    ThroughAllHas(prog.fns[i].body, at, prog.fns[Target(prog, i, at)].params, prog.fns[i].body[at].args,
      Atoms(prog, Target(prog, i, at), depth), a, b);
  }

  lemma {:induction false} CarriedUp(prog: Program, i: nat, at: nat, from: nat, depth: nat, a: Atom, b: Atom)
    requires Followed(prog, i, at) && a in Atoms(prog, Target(prog, i, at), depth) && Carry(prog, i, at, a) == Some(b)
    requires from <= at
    ensures b in FromCalls(prog, i, from, depth + 1)
    decreases at - from
  {
    hide Atoms, Carry, CallAtoms, Target;
    if from == at {
      CallHas(prog, i, at, depth, a, b);
    } else {
      CarriedUp(prog, i, at, from + 1, depth, a, b);
    }
  }

  // ------------------------------------------------------------ what it runs

  /** The names as statement `at` sees them. */
  function EnvAt(w: World, body: seq<Stmt>, at: nat, env: Env): Env
    requires at <= |body|
  {
    if at == 0 then env
    else
      var before := EnvAt(w, body, at - 1, env);
      match body[at - 1]
      case LetAt(name, slice, n) => (x => if x == name then w.field(before(slice), Index(n)) else before(x))
      case _ => before
  }

  function FrameRest(w: World, consts: set<string>, j: nat): Env {
    x => if x == PROGRAM_ID then w.thisId else if x in consts then w.consts(x) else w.locals(j, x)
  }

  /** What fn `j` sees when called with `vals`. */
  function Frame(w: World, prog: Program, consts: set<string>, j: nat, vals: seq<Obj>): Env
    requires j < |prog.fns| && |vals| == |prog.fns[j].params|
  {
    Bind(prog.fns[j].params, vals, FrameRest(w, consts, j))
  }

  /** What the fn called at `at` sees. */
  function CalleeEnv(w: World, prog: Program, consts: set<string>, i: nat, at: nat, env: Env): Env
    requires Followed(prog, i, at)
  {
    var body := prog.fns[i].body;
    Frame(w, prog, consts, Target(prog, i, at), EvalArgs(w, EnvAt(w, body, at, env), body[at].args))
  }

  /** Statement `at` of fn `i` lets the run go on, the calls it makes nesting at most `fuel` deep. */
  ghost predicate Passes(w: World, prog: Program, consts: set<string>, i: nat, env: Env, at: nat, fuel: nat)
    requires i < |prog.fns| && at < |prog.fns[i].body|
    decreases fuel, 0
  {
    var body := prog.fns[i].body;
    var here := EnvAt(w, body, at, env);
    && (body[at].RejectIf? ==> !Eval(w, here, body[at].cond))
    && (Followed(prog, i, at) ==>
          fuel > 0 && ReturnsOk(w, prog, consts, Target(prog, i, at), CalleeEnv(w, prog, consts, i, at, env), fuel - 1))
  }

  /** Fn `i`, its names bound by `env`, returns Ok. */
  ghost predicate ReturnsOk(w: World, prog: Program, consts: set<string>, i: nat, env: Env, fuel: nat)
    requires i < |prog.fns|
    decreases fuel, 1
  {
    forall at :: 0 <= at < |prog.fns[i].body| ==> Passes(w, prog, consts, i, env, at, fuel)
  }

  // --------------------------------------------------------- what is assumed

  /** Fn `i` reads as written: its conditions split right, its `let`s take slices that no `let`
      binds, no local name or flag is hidden by another, and a parameter called `program_id` is
      passed this program's id. */
  ghost predicate Tidy(prog: Program, consts: set<string>, i: nat)
    requires i < |prog.fns|
  {
    var f := prog.fns[i];
    && (forall p :: p in f.params ==> p !in consts)
    && (forall at :: 0 <= at < |f.body| ==> StmtTidy(prog, consts, i, at))
  }

  ghost predicate StmtTidy(prog: Program, consts: set<string>, i: nat, at: nat)
    requires i < |prog.fns| && at < |prog.fns[i].body|
  {
    var body := prog.fns[i].body;
    && (body[at].LetAt? ==>
          body[at].slice !in LetNames(body, at) && body[at].name !in consts && body[at].name != PROGRAM_ID)
    && (body[at].RejectIf? ==>
          && SplitsRight(prog.rd, body[at].cond, 0)
          && forall a, f :: a in AtomsIn(prog.rd, body[at].cond, 0) && f in a.when ==> f !in LetNames(body, at))
    && (Followed(prog, i, at) ==>
          forall n :: 0 <= n < |body[at].args| && prog.fns[Target(prog, i, at)].params[n] == PROGRAM_ID ==>
            body[at].args[n] == ThisId || body[at].args[n] == Name(PROGRAM_ID))
  }

  /** The name a text starts with, when it is one that is replaced. */
  ghost function Roots(t: Term): set<string> {
    match t
    case Name(x) => {x}
    case Dot(b, _) => Roots(b)
    case Op(f, ts) => if Leads(f) && ts != [] then Roots(ts[0]) else {}
    case _ => {}
  }

  /** The other names in a text. */
  ghost function Inside(t: Term): set<string> {
    match t
    case Name(_) => {}
    case Dot(b, _) => Inside(b)
    case Op(f, ts) => if Leads(f) && ts != [] then Inside(ts[0]) + NamesArgs(ts[1..]) else NamesArgs(ts)
    case _ => NamesT(t)
  }

  /** The names that mean the same to every fn. */
  ghost predicate Same(consts: set<string>, x: string) { x in consts || x == PROGRAM_ID }

  /** The names that mean the same to fn `j` and to its callers once arguments are substituted. */
  ghost predicate Shared(prog: Program, consts: set<string>, j: nat, x: string)
    requires j < |prog.fns|
  {
    x in prog.fns[j].params || Same(consts, x)
  }

  ghost predicate Portable(prog: Program, consts: set<string>, j: nat, a: Atom)
    requires j < |prog.fns|
  {
    && (forall x :: x in Roots(a.var_) ==> Shared(prog, consts, j, x))
    && (forall x :: x in Inside(a.var_) ==> Same(consts, x))
    && (a.against.Some? ==> forall x :: x in NamesT(a.against.value) ==> Shared(prog, consts, j, x))
    && (forall x :: x in a.when ==> Shared(prog, consts, j, x))
  }

  /** A fn that is called: its atoms and the arguments it passes on name only its parameters and
      constants. */
  ghost predicate CalleeTidy(prog: Program, consts: set<string>, j: nat)
    requires j < |prog.fns|
  {
    && (forall a :: a in Direct(prog, j, 0) ==> Portable(prog, consts, j, a))
    && (forall at: nat, n: nat, x ::
          Followed(prog, j, at) && 0 <= n < |prog.fns[j].body[at].args| && x in NamesT(prog.fns[j].body[at].args[n]) ==>
          PlaceShared(prog, consts, j, at, x))
  }

  ghost predicate PlaceShared(prog: Program, consts: set<string>, j: nat, at: nat, x: string)
    requires j < |prog.fns| && at <= |prog.fns[j].body|
  {
    var body := prog.fns[j].body;
    forall y :: y in NamesT(ArgFor(LetNames(body, at), LetPlaces(body, at), x)) ==> Shared(prog, consts, j, y)
  }

  ghost predicate ProgramTidy(prog: Program, consts: set<string>) {
    && TRUE in consts
    && Closed(prog.rd, consts)
    && (forall i :: 0 <= i < |prog.fns| ==> Tidy(prog, consts, i))
    && (forall i: nat, at: nat :: Followed(prog, i, at) ==> CalleeTidy(prog, consts, Target(prog, i, at)))
  }

  ghost predicate Called(prog: Program, i: nat) {
    exists k: nat, at: nat :: Followed(prog, k, at) && Target(prog, k, at) == i
  }

  /** Fn `j` checks an account that the text of `p` starts. */
  ghost predicate Heads(prog: Program, j: nat, p: string)
    requires j < |prog.fns|
  {
    exists depth: nat, a :: a in Atoms(prog, j, depth) && p in Roots(a.var_)
  }

  /** What argument `n` of the call at `at` names past its root is bound by no `let` before and, in a
      fn that is itself called, means the same to every fn. */
  ghost predicate ArgTidy(prog: Program, consts: set<string>, i: nat, at: nat, n: nat)
    requires Followed(prog, i, at) && n < |prog.fns[i].body[at].args|
  {
    forall x :: x in Inside(prog.fns[i].body[at].args[n]) ==>
      x !in LetNames(prog.fns[i].body, at) && (Called(prog, i) ==> Same(consts, x))
  }

  /** Every argument that the callee checks as an account is tidy: a path always is. */
  ghost predicate ArgsTidy(prog: Program, consts: set<string>) {
    forall i: nat, at: nat, n: nat {:trigger ArgTidy(prog, consts, i, at, n)} ::
      Followed(prog, i, at) && n < |prog.fns[i].body[at].args| ==>
      Heads(prog, Target(prog, i, at), prog.fns[Target(prog, i, at)].params[n]) ==> ArgTidy(prog, consts, i, at, n)
  }

  /** An atom carried by its text as it is meant. */
  ghost predicate Carried(prog: Program, consts: set<string>, a: Atom) { IsPath(a.var_) || ArgsTidy(prog, consts) }

  // ------------------------------------------------------------- the proof

  lemma ArgForOther(params: seq<string>, args: seq<Term>, x: string)
    requires |params| == |args| && x !in params
    ensures ArgFor(params, args, x) == Name(x)
  {
  }

  lemma ArgForParam(params: seq<string>, args: seq<Term>, x: string) returns (n: nat)
    requires |params| == |args| && x in params
    ensures n < |args| && params[n] == x && ArgFor(params, args, x) == args[n]
  {
    if params[0] == x {
      n := 0;
    } else {
      n := ArgForParam(params[1..], args[1..], x);
      n := n + 1;
    }
  }

  /** A name is, at `at`, what its place in the slices is on entry. */
  lemma PlacesMean(w: World, prog: Program, consts: set<string>, i: nat, at: nat, env: Env, x: string)
    requires i < |prog.fns| && at <= |prog.fns[i].body| && Tidy(prog, consts, i)
    ensures var body := prog.fns[i].body;
            EnvAt(w, body, at, env)(x) == EvalT(w, env, ArgFor(LetNames(body, at), LetPlaces(body, at), x))
  {
    if at > 0 {
      var body := prog.fns[i].body;
      PlacesMean(w, prog, consts, i, at - 1, env, x);
      assert StmtTidy(prog, consts, i, at - 1);
      if body[at - 1].LetAt? && body[at - 1].name == x {
        var slice := body[at - 1].slice;
        PlacesMean(w, prog, consts, i, at - 1, env, slice);
        ArgForOther(LetNames(body, at - 1), LetPlaces(body, at - 1), slice);
      }
    }
  }

  lemma ConstNotLet(prog: Program, consts: set<string>, i: nat, at: nat, x: string)
    requires i < |prog.fns| && at <= |prog.fns[i].body| && Tidy(prog, consts, i)
    requires x in consts || x == PROGRAM_ID
    ensures x !in LetNames(prog.fns[i].body, at)
  {
    if at > 0 {
      ConstNotLet(prog, consts, i, at - 1, x);
      assert StmtTidy(prog, consts, i, at - 1);
    }
  }

  lemma KnowsAt(w: World, prog: Program, consts: set<string>, i: nat, at: nat, env: Env)
    requires i < |prog.fns| && at <= |prog.fns[i].body| && Tidy(prog, consts, i) && Knows(w, consts, env)
    ensures Knows(w, consts, EnvAt(w, prog.fns[i].body, at, env))
  {
    forall x | x in consts || x == PROGRAM_ID
      ensures EnvAt(w, prog.fns[i].body, at, env)(x) == env(x)
    {
      PlacesMean(w, prog, consts, i, at, env, x);
      ConstNotLet(prog, consts, i, at, x);
      ArgForOther(LetNames(prog.fns[i].body, at), LetPlaces(prog.fns[i].body, at), x);
    }
  }

  lemma PathNames(t: Term)
    ensures Roots(t) <= NamesT(t) && Inside(t) <= NamesT(t)
    ensures IsPath(t) ==> Inside(t) == {} && Roots(t) == NamesT(t)
  {
    match t
    case Dot(b, _) => PathNames(b);
    case Op(f, ts) =>
      if Leads(f) && ts != [] {
        PathNames(ts[0]);
        assert NamesArgs(ts) == NamesT(ts[0]) + NamesArgs(ts[1..]);
      }
    case _ =>
  }

  lemma SubstVarPath(params: seq<string>, args: seq<Term>, t: Term)
    requires |params| == |args|
    ensures IsPath(SubstVar(params, args, t)) ==> IsPath(t)
  {
    match t
    case Dot(b, s) => SubstVarPath(params, args, b);
    case _ =>
  }

  /** Replacing the root keeps what a text means, when its other names mean the same inside and
      out. */
  lemma {:induction false} SubstVarMeans(w: World, outer: Env, inner: Env, params: seq<string>, args: seq<Term>,
      t: Term)
    requires |params| == |args| && Binds(w, outer, inner, params, args, Roots(t))
    requires forall x :: x in Inside(t) ==> inner(x) == outer(x)
    ensures EvalT(w, outer, SubstVar(params, args, t)) == EvalT(w, inner, t)
  {
    match t
    case Name(x) =>
    case Dot(b, s) => SubstVarMeans(w, outer, inner, params, args, b);
    case Op(f, ts) =>
      if Leads(f) && ts != [] {
        SubstVarMeans(w, outer, inner, params, args, ts[0]);
        var rs := [SubstVar(params, args, ts[0])] + ts[1..];
        forall i | 0 <= i < |ts| ensures EvalT(w, outer, rs[i]) == EvalT(w, inner, ts[i]) {
          if i > 0 {
            assert NamesT(ts[1..][i - 1]) <= NamesArgs(ts[1..]);
            SameNames(w, outer, inner, ts[i]);
          }
        }
        assert EvalArgs(w, outer, rs) == EvalArgs(w, inner, ts);
      } else {
        SameNames(w, outer, inner, t);
      }
    case _ => SameNames(w, outer, inner, t);
  }

  /** `y` comes from what replaces a root of `t`. */
  ghost predicate FromRoot(params: seq<string>, args: seq<Term>, t: Term, y: string, inside: bool)
    requires |params| == |args|
  {
    exists x :: x in Roots(t) && y in if inside then Inside(ArgFor(params, args, x)) else Roots(ArgFor(params, args, x))
  }

  lemma {:induction false} SubstVarNames(params: seq<string>, args: seq<Term>, t: Term)
    requires |params| == |args|
    ensures forall y :: y in Roots(SubstVar(params, args, t)) ==> FromRoot(params, args, t, y, false)
    ensures forall y :: y in Inside(SubstVar(params, args, t)) ==> y in Inside(t) || FromRoot(params, args, t, y, true)
  {
    match t
    case Name(x) => assert x in Roots(t);
    case Dot(b, s) => SubstVarNames(params, args, b); RootsOf(params, args, t, b);
    case Op(f, ts) =>
      if Leads(f) && ts != [] {
        SubstVarNames(params, args, ts[0]);
        RootsOf(params, args, t, ts[0]);
        var rs := [SubstVar(params, args, ts[0])] + ts[1..];
        assert SubstVar(params, args, t) == Op(f, rs) && rs[0] == SubstVar(params, args, ts[0]) && rs[1..] == ts[1..];
      }
    case _ =>
  }

  lemma RootsOf(params: seq<string>, args: seq<Term>, t: Term, b: Term)
    requires |params| == |args| && Roots(t) == Roots(b)
    ensures forall y, inside :: FromRoot(params, args, b, y, inside) ==> FromRoot(params, args, t, y, inside)
  {
  }

  /** Placing an atom keeps what it says. */
  lemma {:induction false} PlacedMeans(w: World, prog: Program, consts: set<string>, i: nat, at: nat, env: Env, a: Atom)
    requires i < |prog.fns| && at <= |prog.fns[i].body| && Tidy(prog, consts, i)
    requires forall x :: x in Inside(a.var_) || x in a.when ==> x !in LetNames(prog.fns[i].body, at)
    ensures Guarantees(w, env, Placed(prog.fns[i].body, at, a)) <==>
              Guarantees(w, EnvAt(w, prog.fns[i].body, at, env), a)
  {
    var body := prog.fns[i].body;
    var names, places, here := LetNames(body, at), LetPlaces(body, at), EnvAt(w, body, at, env);
    forall x ensures here(x) == EvalT(w, env, ArgFor(names, places, x)) {
      PlacesMean(w, prog, consts, i, at, env, x);
    }
    forall x | x !in names ensures here(x) == env(x) {
      ArgForOther(names, places, x);
    }
    SubstVarMeans(w, env, here, names, places, a.var_);
    if a.against.Some? {
      SubstMeansT(w, env, here, names, places, a.against.value);
    }
  }

  /** `callee` sees each shared name as the caller sees the argument passed for it. */
  ghost predicate Linked(w: World, prog: Program, consts: set<string>, j: nat, here: Env, callee: Env, args: seq<Term>)
    requires j < |prog.fns| && |args| == |prog.fns[j].params|
  {
    forall x :: Shared(prog, consts, j, x) ==> callee(x) == EvalT(w, here, ArgFor(prog.fns[j].params, args, x))
  }

  lemma FrameLinked(w: World, prog: Program, consts: set<string>, j: nat, here: Env, args: seq<Term>)
    requires j < |prog.fns| && |args| == |prog.fns[j].params| && Tidy(prog, consts, j) && Knows(w, consts, here)
    requires forall n :: 0 <= n < |args| && prog.fns[j].params[n] == PROGRAM_ID ==>
               args[n] == ThisId || args[n] == Name(PROGRAM_ID)
    ensures var callee := Frame(w, prog, consts, j, EvalArgs(w, here, args));
            Linked(w, prog, consts, j, here, callee, args) && Knows(w, consts, callee)
  {
    var params, vals := prog.fns[j].params, EvalArgs(w, here, args);
    var callee := Frame(w, prog, consts, j, vals);
    forall x | Shared(prog, consts, j, x)
      ensures callee(x) == EvalT(w, here, ArgFor(params, args, x))
    {
      BoundMeans(w, here, params, args, vals, x, FrameRest(w, consts, j)(x));
    }
    if PROGRAM_ID in params {
      var n := ArgForParam(params, args, PROGRAM_ID);
    } else {
      ArgForOther(params, args, PROGRAM_ID);
    }
    forall x | x in consts ensures callee(x) == w.consts(x) {
      ArgForOther(params, args, x);
    }
  }

  lemma FlagsFirst(env: Env, f: string, rest: seq<string>)
    ensures FlagsTrue(env, [f] + rest) <==> env(f) != 0 && FlagsTrue(env, rest)
  {
    assert forall x :: x in [f] + rest <==> x == f || x in rest;
  }

  lemma FlagsLeftMean(w: World, prog: Program, consts: set<string>, j: nat, here: Env, callee: Env, args: seq<Term>,
      when: seq<string>)
    requires j < |prog.fns| && |args| == |prog.fns[j].params|
    requires Linked(w, prog, consts, j, here, callee, args) && Knows(w, consts, here)
    requires TRUE in consts && w.consts(TRUE) != 0
    requires forall f :: f in when ==> Shared(prog, consts, j, f)
    requires FlagsLeft(prog.fns[j].params, args, when).Some?
    ensures FlagsTrue(here, FlagsLeft(prog.fns[j].params, args, when).value) <==> FlagsTrue(callee, when)
    ensures forall f :: f in FlagsLeft(prog.fns[j].params, args, when).value ==> f in when && f !in prog.fns[j].params
  {
    if when != [] {
      var params, left := prog.fns[j].params, FlagsLeft(prog.fns[j].params, args, when[1..]).value;
      assert when[0] in when;
      FlagsLeftMean(w, prog, consts, j, here, callee, args, when[1..]);
      if when[0] !in params {
        ArgForOther(params, args, when[0]);
        assert here(when[0]) == callee(when[0]);
        FlagsFirst(here, when[0], left);
      } else {
        assert callee(when[0]) != 0;
      }
      FlagsFirst(callee, when[0], when[1..]);
      assert when == [when[0]] + when[1..];
    }
  }

  /** No name past the root of an argument that starts the account of `a` is bound by a `let`
      before the call. */
  ghost predicate RootsTidy(prog: Program, i: nat, at: nat, a: Atom)
    requires Followed(prog, i, at)
  {
    var params, args := prog.fns[Target(prog, i, at)].params, prog.fns[i].body[at].args;
    forall x, y :: x in Roots(a.var_) && y in Inside(ArgFor(params, args, x)) ==> y !in LetNames(prog.fns[i].body, at)
  }

  /** What is checked inside is checked outside, of what is substituted. */
  lemma {:induction false} SubstAtomMeans(w: World, outer: Env, inner: Env, params: seq<string>, args: seq<Term>,
      a: Atom, left: seq<string>)
    requires |params| == |args| && Binds(w, outer, inner, params, args, Roots(a.var_))
    requires forall x :: x in Inside(a.var_) ==> inner(x) == outer(x)
    requires a.against.Some? ==> Binds(w, outer, inner, params, args, NamesT(a.against.value))
    requires IsFull(a)
    ensures AtomTrue(w, inner, a) <==> AtomTrue(w, outer, Settled(a.(var_ := SubstVar(params, args, a.var_),
                against := SubstAgainst(params, args, a.against), when := left)))
  {
    SubstVarMeans(w, outer, inner, params, args, a.var_);
    if a.against.Some? {
      SubstMeansT(w, outer, inner, params, args, a.against.value);
    }
  }

  /** What is named past the root of an account that is carried up, or by its flags, no `let` binds. */
  lemma {:induction false} CarriedNotLet(prog: Program, consts: set<string>, i: nat, at: nat, a: Atom, x: string)
    requires Followed(prog, i, at) && Tidy(prog, consts, i) && TRUE in consts
    requires Portable(prog, consts, Target(prog, i, at), a) && RootsTidy(prog, i, at, a)
    requires var params, args := prog.fns[Target(prog, i, at)].params, prog.fns[i].body[at].args;
             x in Inside(SubstVar(params, args, a.var_)) ||
             (FlagsLeft(params, args, a.when).Some? && x in FlagsLeft(params, args, a.when).value)
    ensures x !in LetNames(prog.fns[i].body, at)
  {
    var params, args := prog.fns[Target(prog, i, at)].params, prog.fns[i].body[at].args;
    SubstVarNames(params, args, a.var_);
    if x in Inside(SubstVar(params, args, a.var_)) {
      assert x in Inside(a.var_) || FromRoot(params, args, a.var_, x, true);
    } else {
      FlagsStay(params, args, a.when, x);
    }
    hide Inside, SubstVar, FlagsLeft;
    if Same(consts, x) { ConstNotLet(prog, consts, i, at, x); }
  }

  lemma {:induction false} FlagsStay(params: seq<string>, args: seq<Term>, when: seq<string>, x: string)
    requires |params| == |args| && FlagsLeft(params, args, when).Some? && x in FlagsLeft(params, args, when).value
    ensures x in when && x !in params
  {
    if when != [] && x in FlagsLeft(params, args, when[1..]).value {
      FlagsStay(params, args, when[1..], x);
    }
  }

  lemma SettledNames(a: Atom)
    ensures Inside(Settled(a).var_) == Inside(a.var_) && Settled(a).when == a.when
  {
  }

  /** What an atom says in a callee, it says in the caller as the call carries it. */
  lemma {:induction false} ThroughMeans(w: World, prog: Program, consts: set<string>, i: nat, at: nat, env: Env,
      a: Atom)
    requires Followed(prog, i, at) && Tidy(prog, consts, i) && Tidy(prog, consts, Target(prog, i, at))
    requires Knows(w, consts, env) && TRUE in consts && w.consts(TRUE) != 0
    requires Portable(prog, consts, Target(prog, i, at), a) && RootsTidy(prog, i, at, a)
    requires Carry(prog, i, at, a).Some? && IsFull(a)
    ensures Guarantees(w, env, Carry(prog, i, at, a).value) <==>
              Guarantees(w, CalleeEnv(w, prog, consts, i, at, env), a)
  {
    var body := prog.fns[i].body;
    var j, args, here := Target(prog, i, at), body[at].args, EnvAt(w, body, at, env);
    var params, callee := prog.fns[j].params, CalleeEnv(w, prog, consts, i, at, env);
    assert StmtTidy(prog, consts, i, at);
    KnowsAt(w, prog, consts, i, at, env);
    FrameLinked(w, prog, consts, j, here, args);
    FlagsLeftMean(w, prog, consts, j, here, callee, args, a.when);
    var left := FlagsLeft(params, args, a.when).value;
    var out := a.(var_ := SubstVar(params, args, a.var_), against := SubstAgainst(params, args, a.against),
        when := left);
    var settled := Settled(out);
    SubstAtomMeans(w, here, callee, params, args, a, left);
    SettledNames(out);
    hide AtomTrue, SubstVar, SubstAgainst, EnvAt, CalleeEnv, Settled, Inside, LetNames, FlagsLeft;
    forall x | x in Inside(settled.var_) || x in settled.when ensures x !in LetNames(body, at) {
      CarriedNotLet(prog, consts, i, at, a, x);
    }
    PlacedMeans(w, prog, consts, i, at, env, settled);
  }

  /** What is known of one statement of a run that returns Ok. */
  lemma StatementFits(w: World, prog: Program, consts: set<string>, i: nat, env: Env, at: nat, fuel: nat)
    requires i < |prog.fns| && at < |prog.fns[i].body|
    requires ProgramTidy(prog, consts) && ReturnsOk(w, prog, consts, i, env, fuel)
    ensures Tidy(prog, consts, i) && StmtTidy(prog, consts, i, at) && Passes(w, prog, consts, i, env, at, fuel)
  {
    hide StmtTidy, Passes, Closed, CalleeTidy;
    assert Tidy(prog, consts, i);
  }

  lemma {:induction false} DirectSound(w: World, prog: Program, consts: set<string>, i: nat, env: Env, at: nat,
      fuel: nat)
    requires i < |prog.fns| && at <= |prog.fns[i].body|
    requires Models(w, prog.rd) && ProgramTidy(prog, consts) && Knows(w, consts, env)
    requires ReturnsOk(w, prog, consts, i, env, fuel)
    ensures AllGuarantee(w, env, Direct(prog, i, at))
    decreases |prog.fns[i].body| - at
  {
    var body := prog.fns[i].body;
    if at < |body| {
      DirectSound(w, prog, consts, i, env, at + 1, fuel);
      StatementFits(w, prog, consts, i, env, at, fuel);
      if body[at].RejectIf? {
        var atoms, here := AtomsIn(prog.rd, body[at].cond, 0), EnvAt(w, body, at, env);
        KnowsAt(w, prog, consts, i, at, env);
        ConditionSound(w, prog.rd, consts, here, body[at].cond, 0);
        forall b | b in PlacedAll(body, at, atoms)
          ensures Guarantees(w, env, b)
        {
          var n :| 0 <= n < |atoms| && b == Placed(body, at, atoms[n]);
          hide Guarantees, Tidy, EnvAt, Knows;
          assert atoms[n] in atoms;
          PathNames(atoms[n].var_);
          PlacedMeans(w, prog, consts, i, at, env, atoms[n]);
        }
      }
    }
  }

  // ------------------------------------------ what a callee's atoms may name

  lemma NamesSubstT(params: seq<string>, args: seq<Term>, t: Term, y: string)
    requires |params| == |args| && y in NamesT(SubstT(params, args, t))
    ensures exists x :: x in NamesT(t) && y in NamesT(ArgFor(params, args, x))
    decreases t
  {
    match t
    case Name(x) => assert x in NamesT(t);
    case Dot(b, s) => NamesSubstT(params, args, b, y);
    case Memcmp(a, b, n) =>
      NamesSubstT(params, args, if y in NamesT(SubstT(params, args, a)) then a else b, y);
    case Op(f, ts) => NamesSubstArgs(params, args, ts, SubstArgs(params, args, ts), y);
    case Cond(e) => NamesSubst(params, args, e, y);
    case _ =>
  }

  lemma NamesSubstArgs(params: seq<string>, args: seq<Term>, ts: seq<Term>, rs: seq<Term>, y: string)
    requires |params| == |args| && |rs| == |ts|
    requires forall i :: 0 <= i < |ts| ==> rs[i] == SubstT(params, args, ts[i])
    requires y in NamesArgs(rs)
    ensures exists x :: x in NamesArgs(ts) && y in NamesT(ArgFor(params, args, x))
    decreases ts
  {
    if y in NamesT(rs[0]) {
      NamesSubstT(params, args, ts[0], y);
    } else {
      NamesSubstArgs(params, args, ts[1..], rs[1..], y);
    }
  }

  lemma NamesSubstU(params: seq<string>, args: seq<Term>, u: Unary, y: string)
    requires |params| == |args| && y in NamesU(SubstU(params, args, u))
    ensures exists x :: x in NamesU(u) && y in NamesT(ArgFor(params, args, x))
    decreases u
  {
    match u
    case Not(v) => NamesSubstU(params, args, v, y);
    case Val(t) => NamesSubstT(params, args, t, y);
    case Cmp(ne, a, b) =>
      NamesSubstT(params, args, if y in NamesT(SubstT(params, args, a)) then a else b, y);
    case OwnedBy(a, b) =>
      NamesSubstT(params, args, if y in NamesT(SubstT(params, args, a)) then a else b, y);
    case Call(f, ts) => NamesSubstArgs(params, args, ts, SubstArgs(params, args, ts), y);
    case Hint(e) => NamesSubst(params, args, e, y);
  }

  lemma NamesSubstC(params: seq<string>, args: seq<Term>, c: Conj, y: string)
    requires |params| == |args| && y in NamesC(SubstC(params, args, c))
    ensures exists x :: x in NamesC(c) && y in NamesT(ArgFor(params, args, x))
    decreases c
  {
    if y in NamesU(SubstU(params, args, c.u)) {
      NamesSubstU(params, args, c.u, y);
    } else {
      NamesSubstC(params, args, c.rest, y);
    }
  }

  lemma NamesSubst(params: seq<string>, args: seq<Term>, e: Expr, y: string)
    requires |params| == |args| && y in Names(Subst(params, args, e))
    ensures exists x :: x in Names(e) && y in NamesT(ArgFor(params, args, x))
    decreases e
  {
    if y in NamesC(SubstC(params, args, e.c)) {
      NamesSubstC(params, args, e.c, y);
    } else {
      NamesSubst(params, args, e.rest, y);
    }
  }

  /** A callee's shared name, passed on by fn `i` and placed, is shared between `i` and its
      callers. */
  lemma PassedOn(prog: Program, consts: set<string>, i: nat, at: nat, x: string, y: string)
    requires Followed(prog, i, at) && CalleeTidy(prog, consts, i) && Tidy(prog, consts, i)
    requires Shared(prog, consts, Target(prog, i, at), x)
    requires y in NamesT(ArgFor(prog.fns[Target(prog, i, at)].params, prog.fns[i].body[at].args, x))
    ensures PlaceShared(prog, consts, i, at, y)
  {
    var body := prog.fns[i].body;
    var params, args := prog.fns[Target(prog, i, at)].params, body[at].args;
    if x in params {
      var n := ArgForParam(params, args, x);
    } else {
      ArgForOther(params, args, x);
      ConstNotLet(prog, consts, i, at, y);
      ArgForOther(LetNames(body, at), LetPlaces(body, at), y);
    }
  }

  lemma PlaceInside(body: seq<Stmt>, at: nat, x: string)
    requires at <= |body|
    ensures Inside(ArgFor(LetNames(body, at), LetPlaces(body, at), x)) == {}
  {
  }

  ghost predicate PortableIfCarried(prog: Program, consts: set<string>, j: nat, a: Atom)
    requires j < |prog.fns|
  {
    Carried(prog, consts, a) ==> Portable(prog, consts, j, a)
  }

  /** The account of `a`, carried through a call of a fn that is itself called. */
  lemma {:induction false} VarPortable(prog: Program, consts: set<string>, i: nat, at: nat, a: Atom, depth: nat)
    requires Followed(prog, i, at) && CalleeTidy(prog, consts, i) && Tidy(prog, consts, i) && Called(prog, i)
    requires a in Atoms(prog, Target(prog, i, at), depth) && Portable(prog, consts, Target(prog, i, at), a)
    ensures var out := SubstVar(prog.fns[Target(prog, i, at)].params, prog.fns[i].body[at].args, a.var_);
            var b := SubstVar(LetNames(prog.fns[i].body, at), LetPlaces(prog.fns[i].body, at), out);
            && (forall z :: z in Roots(b) ==> Shared(prog, consts, i, z))
            && (IsPath(b) || ArgsTidy(prog, consts) ==> forall z :: z in Inside(b) ==> Same(consts, z))
  {
    var body, j := prog.fns[i].body, Target(prog, i, at);
    var params, args := prog.fns[j].params, body[at].args;
    var names, places := LetNames(body, at), LetPlaces(body, at);
    var out := SubstVar(params, args, a.var_);
    var b := SubstVar(names, places, out);
    SubstVarNames(params, args, a.var_);
    SubstVarNames(names, places, out);
    PathNames(b);
    assert forall x :: x in Roots(a.var_) ==> Shared(prog, consts, j, x);
    assert forall z :: z in Inside(a.var_) ==> Same(consts, z);
    hide SubstVar, CalleeTidy, Tidy, Portable, ArgsTidy, Shared, Same, Atoms, Followed;
    forall z | z in Roots(b) ensures Shared(prog, consts, i, z) {
      assert FromRoot(names, places, out, z, false);
      var y :| y in Roots(out) && z in Roots(ArgFor(names, places, y));
      assert FromRoot(params, args, a.var_, y, false);
      var x :| x in Roots(a.var_) && y in Roots(ArgFor(params, args, x));
      PathNames(ArgFor(params, args, x));
      PathNames(ArgFor(names, places, y));
      PassedOn(prog, consts, i, at, x, y);
    }
    if ArgsTidy(prog, consts) {
      forall z | z in Inside(b) ensures Same(consts, z) {
        if z !in Inside(out) {
          assert FromRoot(names, places, out, z, true);
          var y :| y in Roots(out) && z in Inside(ArgFor(names, places, y));
          PlaceInside(body, at, y);
        } else if z !in Inside(a.var_) {
          assert FromRoot(params, args, a.var_, z, true);
          var x :| x in Roots(a.var_) && z in Inside(ArgFor(params, args, x));
          ArgInside(prog, consts, i, at, a, depth, x, z);
        }
      }
    }
  }

  /** A name inside the argument that starts the account of `a`. */
  lemma {:induction false} ArgInside(prog: Program, consts: set<string>, i: nat, at: nat, a: Atom, depth: nat,
      x: string, z: string)
    requires Followed(prog, i, at) && ArgsTidy(prog, consts)
    requires a in Atoms(prog, Target(prog, i, at), depth) && x in Roots(a.var_)
    requires z in Inside(ArgFor(prog.fns[Target(prog, i, at)].params, prog.fns[i].body[at].args, x))
    ensures z !in LetNames(prog.fns[i].body, at) && (Called(prog, i) ==> Same(consts, z))
  {
    var j, args := Target(prog, i, at), prog.fns[i].body[at].args;
    if x in prog.fns[j].params {
      var n := ArgForParam(prog.fns[j].params, args, x);
      assert Heads(prog, j, x);
      assert ArgTidy(prog, consts, i, at, n);
    } else {
      ArgForOther(prog.fns[j].params, args, x);
    }
  }

  lemma {:induction false} AgainstPortable(prog: Program, consts: set<string>, i: nat, at: nat, t: Term)
    requires Followed(prog, i, at) && CalleeTidy(prog, consts, i) && Tidy(prog, consts, i)
    requires forall x :: x in NamesT(t) ==> Shared(prog, consts, Target(prog, i, at), x)
    ensures var out := SubstT(prog.fns[Target(prog, i, at)].params, prog.fns[i].body[at].args, t);
            forall z :: z in NamesT(SubstT(LetNames(prog.fns[i].body, at), LetPlaces(prog.fns[i].body, at), out)) ==>
              Shared(prog, consts, i, z)
  {
    var body := prog.fns[i].body;
    var params, args := prog.fns[Target(prog, i, at)].params, body[at].args;
    var names, places := LetNames(body, at), LetPlaces(body, at);
    var out := SubstT(params, args, t);
    hide Shared, CalleeTidy, Tidy, Followed;
    forall z | z in NamesT(SubstT(names, places, out)) ensures Shared(prog, consts, i, z) {
      NamesSubstT(names, places, out, z);
      var y :| y in NamesT(out) && z in NamesT(ArgFor(names, places, y));
      NamesSubstT(params, args, t, y);
      var x :| x in NamesT(t) && y in NamesT(ArgFor(params, args, x));
      PassedOn(prog, consts, i, at, x, y);
    }
  }

  lemma {:induction false} FlagsPortable(prog: Program, consts: set<string>, i: nat, at: nat, when: seq<string>)
    requires Followed(prog, i, at) && forall f :: f in when ==> Shared(prog, consts, Target(prog, i, at), f)
    requires FlagsLeft(prog.fns[Target(prog, i, at)].params, prog.fns[i].body[at].args, when).Some?
    ensures forall f :: f in FlagsLeft(prog.fns[Target(prog, i, at)].params, prog.fns[i].body[at].args, when).value ==>
              Shared(prog, consts, i, f)
  {
    FlagsLeftNames(prog.fns[Target(prog, i, at)].params, prog.fns[i].body[at].args, when);
  }

  lemma {:induction false} CarryPortable(prog: Program, consts: set<string>, i: nat, at: nat, a: Atom, depth: nat)
    requires Followed(prog, i, at) && CalleeTidy(prog, consts, i) && Tidy(prog, consts, i) && Called(prog, i)
    requires a in Atoms(prog, Target(prog, i, at), depth) && Carry(prog, i, at, a).Some?
    requires Portable(prog, consts, Target(prog, i, at), a) && Carried(prog, consts, Carry(prog, i, at, a).value)
    ensures Portable(prog, consts, i, Carry(prog, i, at, a).value)
  {
    VarPortable(prog, consts, i, at, a, depth);
    if a.against.Some? { AgainstPortable(prog, consts, i, at, a.against.value); }
    FlagsPortable(prog, consts, i, at, a.when);
    hide Shared, Same, CalleeTidy, Tidy, Called, Atoms, FlagsLeft, SubstVar, SubstT, ArgsTidy, Followed, LetNames,
        LetPlaces;
  }

  lemma {:induction false} ThroughPortable(prog: Program, consts: set<string>, i: nat, at: nat, a: Atom, depth: nat)
    requires Followed(prog, i, at) && CalleeTidy(prog, consts, i) && Tidy(prog, consts, i) && Called(prog, i)
    requires a in Atoms(prog, Target(prog, i, at), depth) && Carry(prog, i, at, a).Some?
    requires PortableIfCarried(prog, consts, Target(prog, i, at), a)
    ensures PortableIfCarried(prog, consts, i, Carry(prog, i, at, a).value)
  {
    hide ArgsTidy, CalleeTidy, Tidy, Called, Atoms, Portable, Carry, Followed, Carried;
    if Carried(prog, consts, Carry(prog, i, at, a).value) {
      CarriedTidy(prog, consts, i, at, a, depth);
      CarryPortable(prog, consts, i, at, a, depth);
    }
  }

  lemma ThroughPath(body: seq<Stmt>, at: nat, params: seq<string>, args: seq<Term>, a: Atom)
    requires at <= |body| && |params| == |args| && Through(body, at, params, args, a).Some?
    ensures IsPath(Through(body, at, params, args, a).value.var_) ==> IsPath(a.var_)
  {
    var out := a.(var_ := SubstVar(params, args, a.var_), against := SubstAgainst(params, args, a.against),
        when := FlagsLeft(params, args, a.when).value);
    SubstVarPath(LetNames(body, at), LetPlaces(body, at), Settled(out).var_);
    SubstVarPath(params, args, a.var_);
  }

  lemma FlagsLeftNames(params: seq<string>, args: seq<Term>, when: seq<string>)
    requires |params| == |args| && FlagsLeft(params, args, when).Some?
    ensures forall f :: f in FlagsLeft(params, args, when).value ==> f in when && f !in params
  {
    if when != [] {
      FlagsLeftNames(params, args, when[1..]);
    }
  }

  lemma DirectPortable(prog: Program, consts: set<string>, j: nat)
    requires j < |prog.fns| && ProgramTidy(prog, consts) && Called(prog, j)
    ensures CalleeTidy(prog, consts, j) && Tidy(prog, consts, j)
  {
    hide CalleeTidy, Tidy;
    var k: nat, at: nat :| Followed(prog, k, at) && Target(prog, k, at) == j;
  }

  /** What a called fn's atoms name, at any depth, its callers can name too. */
  lemma {:induction false} AtomsPortable(prog: Program, consts: set<string>, j: nat, depth: nat)
    requires j < |prog.fns| && ProgramTidy(prog, consts) && Called(prog, j)
    ensures forall a :: a in Atoms(prog, j, depth) && Carried(prog, consts, a) ==> Portable(prog, consts, j, a)
    decreases depth, |prog.fns[j].body| + 1
  {
    DirectPortable(prog, consts, j);
    if depth > 0 {
      FromCallsPortable(prog, consts, j, 0, depth);
    }
    hide Portable, Carried, ProgramTidy;
  }

  lemma {:induction false} CallPortable(prog: Program, consts: set<string>, j: nat, at: nat, depth: nat)
    requires Followed(prog, j, at) && ProgramTidy(prog, consts) && Called(prog, j)
    ensures forall b :: b in CallAtoms(prog, j, at, depth) ==> PortableIfCarried(prog, consts, j, b)
    decreases depth + 1, 0
  {
    hide ProgramTidy, CalleeTidy, Tidy, CallAtoms, Portable, Atoms, Carry;
    var k := Target(prog, j, at);
    DirectPortable(prog, consts, j);
    assert Called(prog, k);
    AtomsPortable(prog, consts, k, depth);
    forall b | b in CallAtoms(prog, j, at, depth) ensures PortableIfCarried(prog, consts, j, b) {
      var a :| a in Atoms(prog, k, depth) && Carry(prog, j, at, a) == Some(b);
      ThroughPortable(prog, consts, j, at, a, depth);
    }
  }

  lemma {:induction false} FromCallsPortable(prog: Program, consts: set<string>, j: nat, at: nat, depth: nat)
    requires j < |prog.fns| && at <= |prog.fns[j].body| && depth > 0
    requires ProgramTidy(prog, consts) && Called(prog, j)
    ensures forall a :: a in FromCalls(prog, j, at, depth) ==> PortableIfCarried(prog, consts, j, a)
    decreases depth, |prog.fns[j].body| - at
  {
    hide PortableIfCarried, CallAtoms, ProgramTidy, Called, Followed;
    if at < |prog.fns[j].body| {
      FromCallsPortable(prog, consts, j, at + 1, depth);
      if Followed(prog, j, at) {
        CallPortable(prog, consts, j, at, depth - 1);
      }
    }
  }

  // ------------------------------------------------------------ the theorem

  lemma {:induction false} DirectFull(prog: Program, i: nat, at: nat)
    requires i < |prog.fns| && at <= |prog.fns[i].body|
    ensures forall a :: a in Direct(prog, i, at) ==> IsFull(a)
    decreases |prog.fns[i].body| - at
  {
    var body := prog.fns[i].body;
    if at < |body| {
      DirectFull(prog, i, at + 1);
      if body[at].RejectIf? {
        forall a | a in PlacedAll(body, at, AtomsIn(prog.rd, body[at].cond, 0)) ensures IsFull(a) {
          var n :| 0 <= n < |PlacedAll(body, at, AtomsIn(prog.rd, body[at].cond, 0))| &&
            a == PlacedAll(body, at, AtomsIn(prog.rd, body[at].cond, 0))[n];
          assert AtomsIn(prog.rd, body[at].cond, 0)[n] in AtomsIn(prog.rd, body[at].cond, 0);
        }
      }
    }
  }

  lemma {:induction false} CallFull(prog: Program, i: nat, at: nat, depth: nat)
    requires Followed(prog, i, at)
    ensures forall b :: b in CallAtoms(prog, i, at, depth) ==> IsFull(b)
    decreases depth + 1, 0
  {
    hide Atoms, CallAtoms;
    AtomsFull(prog, Target(prog, i, at), depth);
    forall b | b in CallAtoms(prog, i, at, depth) ensures IsFull(b) {
      var a :| a in Atoms(prog, Target(prog, i, at), depth) && Carry(prog, i, at, a) == Some(b);
    }
  }

  lemma {:induction false} FromCallsFull(prog: Program, i: nat, at: nat, depth: nat)
    requires i < |prog.fns| && at <= |prog.fns[i].body| && depth > 0
    ensures forall a :: a in FromCalls(prog, i, at, depth) ==> IsFull(a)
    decreases depth, |prog.fns[i].body| - at
  {
    hide CallAtoms, Followed, IsFull;
    if at < |prog.fns[i].body| {
      FromCallsFull(prog, i, at + 1, depth);
      if Followed(prog, i, at) { CallFull(prog, i, at, depth - 1); }
    }
  }

  /** A value is always checked against another, however it is carried. */
  lemma {:induction false} AtomsFull(prog: Program, i: nat, depth: nat)
    requires i < |prog.fns|
    ensures forall a :: a in Atoms(prog, i, depth) ==> IsFull(a)
    decreases depth, |prog.fns[i].body| + 1
  {
    hide IsFull;
    DirectFull(prog, i, 0);
    if depth > 0 { FromCallsFull(prog, i, 0, depth); }
  }

  /** Every atom of fn `i` that is carried as it is meant, to any depth of calls, holds of what a run
      that returns Ok was given, if the atom's flags are true. */
  lemma {:induction false} AtomsSound(w: World, prog: Program, consts: set<string>, i: nat, env: Env, fuel: nat,
      depth: nat)
    requires i < |prog.fns| && Models(w, prog.rd) && ProgramTidy(prog, consts) && w.consts(TRUE) != 0
    requires Knows(w, consts, env) && ReturnsOk(w, prog, consts, i, env, fuel)
    ensures forall a :: a in Atoms(prog, i, depth) && Carried(prog, consts, a) ==> Guarantees(w, env, a)
    decreases depth, |prog.fns[i].body| + 1
  {
    DirectSound(w, prog, consts, i, env, 0, fuel);
    if depth > 0 {
      FromCallsSound(w, prog, consts, i, env, fuel, 0, depth);
    }
    hide Guarantees, Carried, Models, ProgramTidy, ReturnsOk;
  }

  lemma FnTidy(prog: Program, consts: set<string>, i: nat)
    requires i < |prog.fns| && ProgramTidy(prog, consts)
    ensures Tidy(prog, consts, i)
  {
    hide Tidy, CalleeTidy;
  }

  lemma {:induction false} CarriedTidy(prog: Program, consts: set<string>, i: nat, at: nat, a: Atom, depth: nat)
    requires Followed(prog, i, at) && a in Atoms(prog, Target(prog, i, at), depth)
    requires Carry(prog, i, at, a).Some? && Carried(prog, consts, Carry(prog, i, at, a).value)
    ensures Carried(prog, consts, a) && RootsTidy(prog, i, at, a)
  {
    var body := prog.fns[i].body;
    var params, args := prog.fns[Target(prog, i, at)].params, body[at].args;
    hide ArgsTidy, Atoms, Followed, LetNames;
    ThroughPath(body, at, params, args, a);
    forall x, y | x in Roots(a.var_) && y in Inside(ArgFor(params, args, x)) ensures y !in LetNames(body, at) {
      if ArgsTidy(prog, consts) {
        ArgInside(prog, consts, i, at, a, depth, x, y);
      } else {
        ThroughPathRoot(body, at, params, args, a, x);
      }
    }
  }

  /** An atom that stays a path was given a path. */
  lemma ThroughPathRoot(body: seq<Stmt>, at: nat, params: seq<string>, args: seq<Term>, a: Atom, x: string)
    requires at <= |body| && |params| == |args| && Through(body, at, params, args, a).Some? && x in Roots(a.var_)
    requires IsPath(Through(body, at, params, args, a).value.var_)
    ensures Inside(ArgFor(params, args, x)) == {}
  {
    var out := a.(var_ := SubstVar(params, args, a.var_), against := SubstAgainst(params, args, a.against),
        when := FlagsLeft(params, args, a.when).value);
    SubstVarPath(LetNames(body, at), LetPlaces(body, at), Settled(out).var_);
    SubstVarPath(params, args, a.var_);
    RootPath(params, args, a.var_, x);
    PathNames(ArgFor(params, args, x));
  }

  lemma RootPath(params: seq<string>, args: seq<Term>, t: Term, x: string)
    requires |params| == |args| && IsPath(SubstVar(params, args, t)) && x in Roots(t)
    ensures IsPath(ArgFor(params, args, x))
  {
    match t
    case Dot(b, _) => RootPath(params, args, b, x);
    case _ =>
  }

  lemma {:induction false} FromCallsSound(w: World, prog: Program, consts: set<string>, i: nat, env: Env, fuel: nat,
      at: nat, depth: nat)
    requires i < |prog.fns| && Models(w, prog.rd) && ProgramTidy(prog, consts) && w.consts(TRUE) != 0
    requires Knows(w, consts, env) && ReturnsOk(w, prog, consts, i, env, fuel)
    requires at <= |prog.fns[i].body| && depth > 0
    ensures forall a :: a in FromCalls(prog, i, at, depth) && Carried(prog, consts, a) ==> Guarantees(w, env, a)
    decreases depth, |prog.fns[i].body| - at
  {
    hide Guarantees, Carried, Models, ProgramTidy, ReturnsOk, Knows, CallAtoms;
    if at < |prog.fns[i].body| {
      FromCallsSound(w, prog, consts, i, env, fuel, at + 1, depth);
      if Followed(prog, i, at) {
        CallSound(w, prog, consts, i, env, fuel, at, depth - 1);
      }
    }
  }

  /** The callee of a call that passed returned Ok, and sees what it was passed. */
  lemma {:induction false} CalleeRuns(w: World, prog: Program, consts: set<string>, i: nat, env: Env, fuel: nat,
      at: nat)
    requires Followed(prog, i, at) && ProgramTidy(prog, consts)
    requires Knows(w, consts, env) && ReturnsOk(w, prog, consts, i, env, fuel)
    ensures var callee := CalleeEnv(w, prog, consts, i, at, env);
            fuel > 0 && ReturnsOk(w, prog, consts, Target(prog, i, at), callee, fuel - 1) && Knows(w, consts, callee)
  {
    var body := prog.fns[i].body;
    FnTidy(prog, consts, i);
    FnTidy(prog, consts, Target(prog, i, at));
    hide ProgramTidy;
    StatementFits(w, prog, consts, i, env, at, fuel);
    KnowsAt(w, prog, consts, i, at, env);
    hide Knows, Frame, EnvAt, ReturnsOk, Tidy;
    FrameLinked(w, prog, consts, Target(prog, i, at), EnvAt(w, body, at, env), body[at].args);
  }

  /** What a call that passed carries out of the callee holds of the caller. */
  lemma {:induction false} CallSound(w: World, prog: Program, consts: set<string>, i: nat, env: Env, fuel: nat, at: nat,
      depth: nat)
    requires Followed(prog, i, at) && Models(w, prog.rd) && ProgramTidy(prog, consts) && w.consts(TRUE) != 0
    requires Knows(w, consts, env) && ReturnsOk(w, prog, consts, i, env, fuel)
    ensures forall b :: b in CallAtoms(prog, i, at, depth) && Carried(prog, consts, b) ==> Guarantees(w, env, b)
    decreases depth + 1, 0
  {
    var j, callee := Target(prog, i, at), CalleeEnv(w, prog, consts, i, at, env);
    assert Called(prog, j);
    assert TRUE in consts;
    hide Models, ProgramTidy, ReturnsOk, Called, Knows, Carried, Guarantees, CalleeEnv, Atoms, CallAtoms, Tidy, Carry,
        Portable, RootsTidy;
    FnTidy(prog, consts, i);
    FnTidy(prog, consts, j);
    CalleeRuns(w, prog, consts, i, env, fuel, at);
    AtomsSound(w, prog, consts, j, callee, fuel - 1, depth);
    AtomsPortable(prog, consts, j, depth);
    AtomsFull(prog, j, depth);
    forall b | b in CallAtoms(prog, i, at, depth) && Carried(prog, consts, b) ensures Guarantees(w, env, b) {
      var a :| a in Atoms(prog, j, depth) && Carry(prog, i, at, a) == Some(b);
      CarriedTidy(prog, consts, i, at, a, depth);
      ThroughMeans(w, prog, consts, i, at, env, a);
    }
  }

  /** Interprocedural soundness: what `holds` says of a fn is true of every run of it that returns
      Ok, whatever an account was written as. */
  lemma HoldsSound(w: World, prog: Program, consts: set<string>, i: nat, env: Env, fuel: nat)
    requires i < |prog.fns| && Models(w, prog.rd) && ProgramTidy(prog, consts) && w.consts(TRUE) != 0
    requires ArgsTidy(prog, consts)
    requires Knows(w, consts, env) && ReturnsOk(w, prog, consts, i, env, fuel)
    ensures forall a :: a in Holds(prog, i) ==> AtomTrue(w, env, a)
  {
    AtomsSound(w, prog, consts, i, env, fuel, DEPTH);
    forall a | a in Holds(prog, i) ensures AtomTrue(w, env, a) {
      assert Carried(prog, consts, a) && Guarantees(w, env, a);
    }
  }

  /** Of accounts named by paths it is true whatever else is passed. */
  lemma PathsSound(w: World, prog: Program, consts: set<string>, i: nat, env: Env, fuel: nat)
    requires i < |prog.fns| && Models(w, prog.rd) && ProgramTidy(prog, consts) && w.consts(TRUE) != 0
    requires Knows(w, consts, env) && ReturnsOk(w, prog, consts, i, env, fuel)
    ensures forall a :: a in Holds(prog, i) && IsPath(a.var_) ==> AtomTrue(w, env, a)
  {
    AtomsSound(w, prog, consts, i, env, fuel, DEPTH);
    forall a | a in Holds(prog, i) && IsPath(a.var_) ensures AtomTrue(w, env, a) {
      assert Carried(prog, consts, a) && Guarantees(w, env, a);
    }
  }

  /** A change that keeps every atom of a fn (moved to a helper, inlined, rewritten) keeps every
      check the base version made: the head's runs that return Ok pass them all. */
  lemma NothingLost(w: World, base: Program, bi: nat, head: Program, hi: nat, consts: set<string>, env: Env, fuel: nat)
    requires bi < |base.fns| && hi < |head.fns|
    requires forall a :: a in Holds(base, bi) ==> a in Holds(head, hi)
    requires Models(w, head.rd) && ProgramTidy(head, consts) && ArgsTidy(head, consts) && w.consts(TRUE) != 0
    requires Knows(w, consts, env) && ReturnsOk(w, head, consts, hi, env, fuel)
    ensures forall a :: a in Holds(base, bi) ==> AtomTrue(w, env, a)
  {
    HoldsSound(w, head, consts, hi, env, fuel);
  }

  /** As far as accounts named by paths go, whatever head passes. */
  lemma PathsKept(w: World, base: Program, bi: nat, head: Program, hi: nat, consts: set<string>, env: Env, fuel: nat)
    requires bi < |base.fns| && hi < |head.fns|
    requires forall a :: a in Holds(base, bi) && IsPath(a.var_) ==> a in Holds(head, hi)
    requires Models(w, head.rd) && ProgramTidy(head, consts) && w.consts(TRUE) != 0
    requires Knows(w, consts, env) && ReturnsOk(w, head, consts, hi, env, fuel)
    ensures forall a :: a in Holds(base, bi) && IsPath(a.var_) ==> AtomTrue(w, env, a)
  {
    PathsSound(w, head, consts, hi, env, fuel);
  }
}
