/** The conditions of a native program, as the check reader sees them
    (crates/solinv-static/src/native.rs), and what they mean.

    A condition is text: operands joined by `||` and `&&`. The reader splits that text, it does
    not parse it, and some of its splits differ from what the text means. So a condition is kept
    here as the text's own shape: a list of `||` parts, each a list of `&&` operands. */
module NativeSyntax {
  datatype Kind = Signer | Writable | Executable | Owner | Key

  /** One step of a path: `.key()`, `.x`, `[3]`. A check is one step however it is spelled
      (`.key`, `.key()` and `.address()` are `Check(Key)`). */
  datatype Seg = Check(kind: Kind) | Field(name: string) | Index(n: nat)

  /** A value. Borrows, `.as_ref()` and the like are not kept. */
  datatype Term =
    | Name(x: string)
    | Dot(base: Term, seg: Seg)
    | ThisId                                   // crate::ID, id()
    | Zero                                     // the literal 0
    | Memcmp(a: Term, b: Term, n: nat)         // sol_memcmp(a, b, n)
    | Op(f: string, args: seq<Term>)           // any other expression; see Leads
    | Cond(e: Expr)                            // (e)

  datatype Unary =
    | Not(u: Unary)
    | Val(t: Term)                             // a flag, a field, or a parenthesised group
    | Cmp(ne: bool, a: Term, b: Term)          // a != b, a == b, a.eq(b), a.ne(b)
    | OwnedBy(v: Term, id: Term)               // v.is_owned_by(id)
    | Call(f: string, args: seq<Term>)
    | Hint(e: Expr)                            // likely(e), unlikely(e)

  datatype Conj = Unit(u: Unary) | And(u: Unary, rest: Conj)

  datatype Expr = Part(c: Conj) | Or(c: Conj, rest: Expr)

  /** The text of `f(args)` starts with its first operand: `xs.get(n)` is `.get` of `xs` and `n`. */
  predicate Leads(f: string) { f != "" && f[0] == '.' }

  // ---------------------------------------------------------------- meaning

  /** A run-time value, opaque; as a condition it is true unless 0. */
  type Obj = int

  type Env = string -> Obj

  /** What the rest of the program and the runtime decide. */
  datatype World = World(
    field: (Obj, Seg) -> Obj,
    op: (string, seq<Obj>) -> Obj,
    call: (string, seq<Obj>) -> bool,
    agree: (nat, Obj, Obj) -> bool,            // the first n bytes agree
    thisId: Obj,
    consts: string -> Obj,
    locals: (nat, string) -> Obj)              // a fn's locals, by fn

  function EvalT(w: World, env: Env, t: Term): Obj
    decreases t
  {
    match t
    case Name(x) => env(x)
    case Dot(b, s) => w.field(EvalT(w, env, b), s)
    case ThisId => w.thisId
    case Zero => 0
    case Memcmp(a, b, n) => if w.agree(n, EvalT(w, env, a), EvalT(w, env, b)) then 0 else 1
    case Op(f, args) => w.op(f, EvalArgs(w, env, args))
    case Cond(Part(Unit(Val(v)))) => EvalT(w, env, v)
    case Cond(e) => if Eval(w, env, e) then 1 else 0
  }

  function EvalArgs(w: World, env: Env, args: seq<Term>): (r: seq<Obj>)
    ensures |r| == |args|
    ensures forall i :: 0 <= i < |args| ==> r[i] == EvalT(w, env, args[i])
    decreases args
  {
    seq(|args|, i requires 0 <= i < |args| => EvalT(w, env, args[i]))
  }

  predicate EvalU(w: World, env: Env, u: Unary)
    decreases u
  {
    match u
    case Not(v) => !EvalU(w, env, v)
    case Val(t) => EvalT(w, env, t) != 0
    case Cmp(ne, a, b) => ne == (EvalT(w, env, a) != EvalT(w, env, b))
    case OwnedBy(v, id) => w.field(EvalT(w, env, v), Check(Owner)) == EvalT(w, env, id)
    case Call(f, args) => w.call(f, EvalArgs(w, env, args))
    case Hint(e) => Eval(w, env, e)
  }

  predicate EvalC(w: World, env: Env, c: Conj)
    decreases c
  {
    match c
    case Unit(u) => EvalU(w, env, u)
    case And(u, rest) => EvalU(w, env, u) && EvalC(w, env, rest)
  }

  predicate Eval(w: World, env: Env, e: Expr)
    decreases e
  {
    match e
    case Part(c) => EvalC(w, env, c)
    case Or(c, rest) => EvalC(w, env, c) || Eval(w, env, rest)
  }

  // ----------------------------------------------------------- substitution

  /** The argument passed for `x`, if it is a parameter. */
  function ArgFor(params: seq<string>, args: seq<Term>, x: string): Term
    requires |params| == |args|
  {
    if params == [] then Name(x)
    else if params[0] == x then args[0]
    else ArgFor(params[1..], args[1..], x)
  }

  function SubstT(params: seq<string>, args: seq<Term>, t: Term): Term
    requires |params| == |args|
    decreases t
  {
    match t
    case Name(x) => ArgFor(params, args, x)
    case Dot(b, s) => Dot(SubstT(params, args, b), s)
    case ThisId => ThisId
    case Zero => Zero
    case Memcmp(a, b, n) => Memcmp(SubstT(params, args, a), SubstT(params, args, b), n)
    case Op(f, ts) => Op(f, SubstArgs(params, args, ts))
    case Cond(e) => Cond(Subst(params, args, e))
  }

  function SubstArgs(params: seq<string>, args: seq<Term>, ts: seq<Term>): (r: seq<Term>)
    requires |params| == |args|
    ensures |r| == |ts|
    ensures forall i :: 0 <= i < |ts| ==> r[i] == SubstT(params, args, ts[i])
    decreases ts
  {
    seq(|ts|, i requires 0 <= i < |ts| => SubstT(params, args, ts[i]))
  }

  function SubstU(params: seq<string>, args: seq<Term>, u: Unary): Unary
    requires |params| == |args|
    decreases u
  {
    match u
    case Not(v) => Not(SubstU(params, args, v))
    case Val(t) => Val(SubstT(params, args, t))
    case Cmp(ne, a, b) => Cmp(ne, SubstT(params, args, a), SubstT(params, args, b))
    case OwnedBy(v, id) => OwnedBy(SubstT(params, args, v), SubstT(params, args, id))
    case Call(f, ts) => Call(f, SubstArgs(params, args, ts))
    case Hint(e) => Hint(Subst(params, args, e))
  }

  function SubstC(params: seq<string>, args: seq<Term>, c: Conj): Conj
    requires |params| == |args|
    decreases c
  {
    match c
    case Unit(u) => Unit(SubstU(params, args, u))
    case And(u, rest) => And(SubstU(params, args, u), SubstC(params, args, rest))
  }

  /** `e` with each parameter at the head of a path replaced by the argument. */
  function Subst(params: seq<string>, args: seq<Term>, e: Expr): Expr
    requires |params| == |args|
    decreases e
  {
    match e
    case Part(c) => Part(SubstC(params, args, c))
    case Or(c, rest) => Or(SubstC(params, args, c), Subst(params, args, rest))
  }

  ghost function NamesT(t: Term): set<string>
    decreases t
  {
    match t
    case Name(x) => {x}
    case Dot(b, s) => NamesT(b)
    case Memcmp(a, b, n) => NamesT(a) + NamesT(b)
    case Op(f, args) => NamesArgs(args)
    case Cond(e) => Names(e)
    case _ => {}
  }

  ghost function NamesArgs(args: seq<Term>): (r: set<string>)
    ensures forall i :: 0 <= i < |args| ==> NamesT(args[i]) <= r
    decreases args
  {
    if args == [] then {} else NamesT(args[0]) + NamesArgs(args[1..])
  }

  ghost function NamesU(u: Unary): set<string>
    decreases u
  {
    match u
    case Not(v) => NamesU(v)
    case Val(t) => NamesT(t)
    case Cmp(ne, a, b) => NamesT(a) + NamesT(b)
    case OwnedBy(v, id) => NamesT(v) + NamesT(id)
    case Call(f, args) => NamesArgs(args)
    case Hint(e) => Names(e)
  }

  ghost function NamesC(c: Conj): set<string>
    decreases c
  {
    match c
    case Unit(u) => NamesU(u)
    case And(u, rest) => NamesU(u) + NamesC(rest)
  }

  ghost function Names(e: Expr): set<string>
    decreases e
  {
    match e
    case Part(c) => NamesC(c)
    case Or(c, rest) => NamesC(c) + Names(rest)
  }

  /** `inner` sees each name of `names` as `outer` sees what is substituted for it. */
  ghost predicate Binds(w: World, outer: Env, inner: Env, params: seq<string>, args: seq<Term>, names: set<string>)
    requires |params| == |args|
  {
    forall x :: x in names ==> inner(x) == EvalT(w, outer, ArgFor(params, args, x))
  }

  lemma SubstMeansT(w: World, outer: Env, inner: Env, params: seq<string>, args: seq<Term>, t: Term)
    requires |params| == |args| && Binds(w, outer, inner, params, args, NamesT(t))
    ensures EvalT(w, outer, SubstT(params, args, t)) == EvalT(w, inner, t)
    decreases t
  {
    match t
    case Dot(b, s) => SubstMeansT(w, outer, inner, params, args, b);
    case Memcmp(a, b, n) =>
      SubstMeansT(w, outer, inner, params, args, a);
      SubstMeansT(w, outer, inner, params, args, b);
    case Op(f, ts) => SubstMeansArgs(w, outer, inner, params, args, ts);
    case Cond(e) =>
      SubstMeans(w, outer, inner, params, args, e);
      if e.Part? && e.c.Unit? {
        var u := e.c.u;
        assert Subst(params, args, e) == Part(SubstC(params, args, e.c)) == Part(Unit(SubstU(params, args, u)));
        if u.Val? {
          assert Names(e) == NamesC(e.c) == NamesU(u) == NamesT(u.t);
          SubstMeansT(w, outer, inner, params, args, u.t);
        }
      }
    case _ =>
  }

  lemma SubstMeansArgs(w: World, outer: Env, inner: Env, params: seq<string>, args: seq<Term>, ts: seq<Term>)
    requires |params| == |args| && Binds(w, outer, inner, params, args, NamesArgs(ts))
    ensures EvalArgs(w, outer, SubstArgs(params, args, ts)) == EvalArgs(w, inner, ts)
    decreases ts
  {
    forall i | 0 <= i < |ts|
      ensures EvalT(w, outer, SubstT(params, args, ts[i])) == EvalT(w, inner, ts[i])
    {
      SubstMeansT(w, outer, inner, params, args, ts[i]);
    }
  }

  lemma SubstMeansU(w: World, outer: Env, inner: Env, params: seq<string>, args: seq<Term>, u: Unary)
    requires |params| == |args| && Binds(w, outer, inner, params, args, NamesU(u))
    ensures EvalU(w, outer, SubstU(params, args, u)) == EvalU(w, inner, u)
    decreases u
  {
    match u
    case Not(v) => SubstMeansU(w, outer, inner, params, args, v);
    case Val(t) => SubstMeansT(w, outer, inner, params, args, t);
    case Cmp(ne, a, b) =>
      SubstMeansT(w, outer, inner, params, args, a);
      SubstMeansT(w, outer, inner, params, args, b);
    case OwnedBy(v, id) =>
      SubstMeansT(w, outer, inner, params, args, v);
      SubstMeansT(w, outer, inner, params, args, id);
    case Call(f, ts) => SubstMeansArgs(w, outer, inner, params, args, ts);
    case Hint(e) => SubstMeans(w, outer, inner, params, args, e);
  }

  lemma SubstMeansC(w: World, outer: Env, inner: Env, params: seq<string>, args: seq<Term>, c: Conj)
    requires |params| == |args| && Binds(w, outer, inner, params, args, NamesC(c))
    ensures EvalC(w, outer, SubstC(params, args, c)) == EvalC(w, inner, c)
    decreases c
  {
    SubstMeansU(w, outer, inner, params, args, c.u);
    if c.And? {
      SubstMeansC(w, outer, inner, params, args, c.rest);
    }
  }

  /** Inlining preserves meaning: evaluating the substituted text outside is evaluating the body
      with its parameters bound to the arguments' values. */
  lemma SubstMeans(w: World, outer: Env, inner: Env, params: seq<string>, args: seq<Term>, e: Expr)
    requires |params| == |args| && Binds(w, outer, inner, params, args, Names(e))
    ensures Eval(w, outer, Subst(params, args, e)) == Eval(w, inner, e)
    decreases e
  {
    SubstMeansC(w, outer, inner, params, args, e.c);
    if e.Or? {
      SubstMeans(w, outer, inner, params, args, e.rest);
    }
  }

  lemma SubstNothing(t: Term)
    ensures SubstT([], [], t) == t
    decreases t
  {
    match t
    case Dot(b, s) => SubstNothing(b);
    case Memcmp(a, b, n) => SubstNothing(a); SubstNothing(b);
    case Op(f, ts) =>
      forall i | 0 <= i < |ts| ensures SubstT([], [], ts[i]) == ts[i] { SubstNothing(ts[i]); }
      assert SubstArgs([], [], ts) == ts;
    case Cond(e) => SubstNothingE(e);
    case _ =>
  }

  lemma SubstNothingU(u: Unary)
    ensures SubstU([], [], u) == u
    decreases u
  {
    match u
    case Not(v) => SubstNothingU(v);
    case Val(t) => SubstNothing(t);
    case Cmp(ne, a, b) => SubstNothing(a); SubstNothing(b);
    case OwnedBy(a, b) => SubstNothing(a); SubstNothing(b);
    case Call(f, ts) =>
      forall i | 0 <= i < |ts| ensures SubstT([], [], ts[i]) == ts[i] { SubstNothing(ts[i]); }
      assert SubstArgs([], [], ts) == ts;
    case Hint(e) => SubstNothingE(e);
  }

  lemma SubstNothingC(c: Conj)
    ensures SubstC([], [], c) == c
    decreases c
  {
    SubstNothingU(c.u);
    if c.And? { SubstNothingC(c.rest); }
  }

  lemma SubstNothingE(e: Expr)
    ensures Subst([], [], e) == e
    decreases e
  {
    SubstNothingC(e.c);
    if e.Or? { SubstNothingE(e.rest); }
  }

  /** A value depends on the names in it only. */
  lemma SameNames(w: World, e1: Env, e2: Env, t: Term)
    requires forall x :: x in NamesT(t) ==> e1(x) == e2(x)
    ensures EvalT(w, e1, t) == EvalT(w, e2, t)
  {
    SubstNothing(t);
    SubstMeansT(w, e1, e2, [], [], t);
  }
}
