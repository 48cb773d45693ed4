/** Reading a rejecting condition as atoms: what `if cond { return Err }` checks about which
    account (crates/solinv-static/src/native.rs, `atoms_in`, `rejects`, `inline`, `compared`). */
module NativeRead {
  import opened Common
  import opened NativeSyntax

  /** One thing checked about one account. `pending`: `var` is a value, not an account.
      `when`: the names that must be true for the check to run. */
  datatype Atom = Atom(kind: Kind, var_: Term, against: Option<Term>, when: seq<string>, pending: bool)

  /** A fn whose body is one expression. */
  datatype Pred = Pred(params: seq<string>, body: Expr)

  /** What the reader sees of the texts and the AST does not keep. `before`: the order of two,
      which decides only which side of `a.key() != b.key()` is named as the account. `closes`: an
      operand's text ends in `)`, where its spelling decides (`a.is_signer()` does, `a.is_signer`
      does not). `alone`: of a text of several operands that opens with an equality and ends in
      `)`, that the pattern for one equality is read from it: the first is spelled as a method or a
      fn, no other `.eq(` or `.ne(` follows, and the parentheses opened after it hold no comma,
      `==`, `!=`, `<`, `>`, `&&` or `||` of their own. */
  datatype Texts = Texts(before: (Term, Term) -> bool, closes: Unary -> bool, alone: Expr -> bool)

  /** `preds`: one-expression fns by name. */
  datatype Reader = Reader(preds: map<string, Pred>, texts: Texts)

  /** How many calls deep a check is followed. */
  const DEPTH: nat := 4

  const PROGRAM_ID: string := "program_id"

  predicate WordChar(c: char) {
    'a' <= c <= 'z' || 'A' <= c <= 'Z' || '0' <= c <= '9' || c == '_'
  }

  /** `^[a-z_]\w*$` */
  predicate IsIdent(x: string) {
    x != "" && ('a' <= x[0] <= 'z' || x[0] == '_') && forall i :: 0 <= i < |x| ==> WordChar(x[i])
  }

  predicate EndsWith(s: string, suffix: string) {
    |suffix| <= |s| && s[|s| - |suffix|..] == suffix
  }

  /** A fn taken to compare its two arguments, by its name. */
  predicate IsEqName(f: string) {
    || f == "cmp_pubkeys"
    || ((forall i :: 0 <= i < |f| ==> 'a' <= f[i] <= 'z' || f[i] == '_') &&
        (EndsWith(f, "eq") || EndsWith(f, "_equal")))
  }

  predicate IsPath(t: Term) {
    t.Name? || (t.Dot? && IsPath(t.base))
  }

  // ------------------------------------------------------------- the splits

  function SizeT(t: Term): nat {
    if t.Cond? then 1 + Size(t.e) else 1
  }

  function SizeU(u: Unary): nat {
    match u
    case Not(v) => 1 + SizeU(v)
    case Val(t) => 1 + SizeT(t)
    case Hint(e) => 1 + Size(e)
    case _ => 1
  }

  function SizeC(c: Conj): nat {
    match c
    case Unit(u) => SizeU(u)
    case And(u, rest) => 1 + SizeU(u) + SizeC(rest)
  }

  function Size(e: Expr): nat {
    match e
    case Part(c) => SizeC(c)
    case Or(c, rest) => 1 + SizeC(c) + Size(rest)
  }

  function Lone(u: Unary): Expr { Part(Unit(u)) }

  predicate IsLone(e: Expr) { e.Part? && e.c.Unit? }

  /** Outer parentheses dropped. */
  function Unparen(e: Expr): (r: Expr)
    ensures Size(r) <= Size(e)
  {
    match e
    case Part(Unit(Val(Cond(g)))) =>
      assert Size(e) == SizeC(e.c) == SizeU(e.c.u) == 1 + SizeT(e.c.u.t) == 2 + Size(g);
      Unparen(g)
    case _ => e
  }

  /** Outer parentheses and branch hints dropped. */
  function Bare(e: Expr): (r: Expr)
    ensures Size(r) <= Size(e)
  {
    match e
    case Part(Unit(Val(Cond(g)))) =>
      assert Size(e) == SizeC(e.c) == SizeU(e.c.u) == 1 + SizeT(e.c.u.t) == 2 + Size(g);
      Bare(g)
    case Part(Unit(Hint(g))) => Bare(g)
    case _ => e
  }

  function BareT(t: Term): Term {
    match t
    case Cond(Part(Unit(Val(v)))) => BareT(v)
    case _ => t
  }

  /** The text split at each top-level `&&`, wherever the `||`s are. */
  function SplitAnd(e: Expr): (r: seq<Expr>)
    ensures |r| > 0
    ensures |r| == 1 ==> r[0] == e
    ensures forall p :: p in r ==> Size(p) <= Size(e)
    ensures |r| > 1 ==> forall p :: p in r ==> Size(p) < Size(e)
    decreases Size(e)
  {
    match e
    case Part(Unit(_)) => [e]
    case Part(And(u, c)) =>
      assert Size(e) == SizeC(e.c) && Size(Part(c)) == SizeC(c);
      [Lone(u)] + SplitAnd(Part(c))
    case Or(Unit(u), rest) => var r := SplitAnd(rest); [Or(Unit(u), r[0])] + r[1..]
    case Or(And(u, c), rest) => [Lone(u)] + SplitAnd(Or(c, rest))
  }

  /** The text starts with `!`. */
  predicate LeadsNot(e: Expr) { e.c.u.Not? }

  /** The text after that `!`. */
  function StripNot(e: Expr): (r: Expr)
    requires LeadsNot(e)
    ensures Size(r) < Size(e)
  {
    var c := match e.c case Unit(u) => Unit(u.u) case And(u, rest) => And(u.u, rest);
    assert SizeU(e.c.u) == 1 + SizeU(c.u) && SizeC(c) < SizeC(e.c);
    match e
    case Part(_) => assert Size(e) == SizeC(e.c); Part(c)
    case Or(_, rest) => Or(c, rest)
  }

  // ------------------------------------------------------------ the reading

  /** A call of a one-expression fn with its parameters replaced by the arguments. */
  function Inline(rd: Reader, e: Expr): Option<Expr> {
    match e
    case Part(Unit(Call(f, args))) =>
      if f in rd.preds && |args| == |rd.preds[f].params|
      then Some(Subst(rd.preds[f].params, args, rd.preds[f].body))
      else None
    case _ => None
  }

  /** This program's id under its one name. */
  function This(t: Term): Term { if t == ThisId then Name(PROGRAM_ID) else t }

  predicate IsSide(t: Term) {
    t.Dot? && IsPath(t.base) && (t.seg == Check(Key) || t.seg == Check(Owner))
  }

  /** A value is checked against another; what is not, is an account on a path. */
  predicate AllPaths(atoms: seq<Atom>) { forall a :: a in atoms ==> IsPath(a.var_) && IsFull(a) }

  predicate IsFull(a: Atom) { a.pending ==> a.against.Some? }

  function Plain(k: Kind, v: Term, against: Option<Term>): Atom { Atom(k, v, against, [], false) }

  function PendingOn(x: Term, y: Term): (r: seq<Atom>)
    ensures AllPaths(r)
  {
    if x.Name? && IsIdent(x.x) then [Atom(Key, x, Some(y), [], true)] else []
  }

  /** How many `sol_memcmp`s are nested in a value. */
  function Memcmps(t: Term): nat
    decreases t
  {
    match t
    case Cond(Part(Unit(Val(v)))) => Memcmps(v)
    case Memcmp(x, y, _) => 1 + Memcmps(x) + Memcmps(y)
    case _ => 0
  }

  lemma BareMemcmps(t: Term)
    ensures Memcmps(BareT(t)) == Memcmps(t)
  {
  }

  /** A rejected inequality: an account's key or owner on either side, or a bare name.
      `sol_memcmp(x, y, n)` against 0, on either side, is `x` against `y`. */
  function Compared(rd: Reader, a: Term, b: Term): (r: seq<Atom>)
    ensures AllPaths(r)
    decreases Memcmps(a) + Memcmps(b)
  {
    BareMemcmps(a);
    BareMemcmps(b);
    if BareT(a).Memcmp? && BareT(b).Zero? then Compared(rd, BareT(a).a, BareT(a).b)
    else if BareT(a).Zero? && BareT(b).Memcmp? then Compared(rd, BareT(b).a, BareT(b).b)
    else Sides(rd, This(BareT(a)), This(BareT(b)))
  }

  function Sides(rd: Reader, a: Term, b: Term): (r: seq<Atom>)
    ensures AllPaths(r)
  {
    if IsSide(a) && !IsSide(b) then [Plain(a.seg.kind, a.base, Some(b))]
    else if !IsSide(a) && IsSide(b) then [Plain(b.seg.kind, b.base, Some(a))]
    else if IsSide(a) && IsSide(b) then
      if rd.texts.before(a, b) then [Plain(a.seg.kind, a.base, Some(b))] else [Plain(b.seg.kind, b.base, Some(a))]
    else PendingOn(a, b) + PendingOn(b, a)
  }

  /** What one operand checks when it is false. */
  function FailsOn(rd: Reader, u: Unary): (r: seq<Atom>)
    ensures AllPaths(r)
  {
    match u
    case Val(Dot(v, Check(k))) =>
      if IsPath(v) && (k == Signer || k == Writable || k == Executable) then [Plain(k, v, None)] else []
    case OwnedBy(v, id) => if IsPath(v) then [Plain(Owner, v, Some(This(BareT(id))))] else []
    case Call(f, args) => if IsEqName(f) && |args| == 2 then Compared(rd, args[0], args[1]) else []
    case Cmp(false, a, b) => Compared(rd, a, b)
    case _ => []
  }

  /** What is left of a value and the operands after it, torn out between the first operand's
      opening parenthesis and the text's last: no value of the program. */
  function Torn(t: Term, e: Expr): Term { Op("torn", [t, Cond(e)]) }

  function LastC(c: Conj): Unary { match c case Unit(u) => u case And(_, rest) => LastC(rest) }

  function LastOf(e: Expr): Unary { match e case Part(c) => LastC(c) case Or(_, rest) => LastOf(rest) }

  /** The text of `u` ends in `)`. */
  predicate Closes(rd: Reader, u: Unary) {
    match u
    case OwnedBy(_, _) => true
    case Call(_, _) => true
    case Hint(_) => true
    case Not(v) => Closes(rd, v)
    case Val(Cond(_)) => true
    case Val(Memcmp(_, _, _)) => true
    case Val(Name(_)) => false
    case _ => rd.texts.closes(u)
  }

  /** From the parenthesis its first operand opens to its last character, the text of `e` matches a
      pattern meant for one operand. */
  predicate Tears(rd: Reader, e: Expr) { Closes(rd, LastOf(e)) && (e.c.u.OwnedBy? || rd.texts.alone(e)) }

  /** The first operand of `e`, taken as if its parentheses closed at the end of the text:
      `a.is_owned_by(x) || b.is_owned_by(y)` as `a` owned by `x) || b.is_owned_by(y`. `ne`: an
      inequality is looked for, not an equality. */
  function TornAtoms(rd: Reader, e: Expr, ne: bool): (r: seq<Atom>)
    ensures AllPaths(r)
  {
    if !Tears(rd, e) then []
    else match e.c.u
      case OwnedBy(v, id) => if IsPath(v) && !ne then [Plain(Owner, v, Some(Torn(id, e)))] else []
      case Cmp(unequal, a, b) => if unequal == ne then Sides(rd, This(BareT(a)), Torn(b, e)) else []
      case Call(f, args) =>
        if IsEqName(f) && |args| == 2 && !ne then Sides(rd, This(BareT(args[0])), Torn(args[1], e)) else []
      case _ => []
  }

  /** What `!(e)` checks: `e` bare. */
  function RejectsNot(rd: Reader, e: Expr, depth: nat): (r: seq<Atom>)
    requires depth <= DEPTH
    ensures AllPaths(r)
    decreases DEPTH - depth, 0, Size(e), 1, 0
  {
    if depth < DEPTH && Inline(rd, e).Some? then
      RejectsNot(rd, Bare(Inline(rd, e).value), depth + 1)
    else if |SplitAnd(e)| > 1 then
      RejectsEach(rd, SplitAnd(e), Size(e), depth)
    else if IsLone(e) then FailsOn(rd, e.c.u)
    else TornAtoms(rd, e, false)
  }

  /** `!(a && b)` rejects without either: each piece of the split on its own. */
  function RejectsEach(rd: Reader, pieces: seq<Expr>, bound: nat, depth: nat): (r: seq<Atom>)
    requires depth <= DEPTH
    requires forall p :: p in pieces ==> Size(p) < bound
    ensures AllPaths(r)
    decreases DEPTH - depth, 0, bound, 0, |pieces|
  {
    if pieces == [] then []
    else RejectsNot(rd, Bare(pieces[0]), depth) + RejectsEach(rd, pieces[1..], bound, depth)
  }

  /** What a condition that rejects when true checks. */
  function Rejects(rd: Reader, e: Expr, depth: nat): (r: seq<Atom>)
    requires depth <= DEPTH
    ensures AllPaths(r)
    decreases DEPTH - depth, 1, 0, 0, 0
  {
    var c := Bare(e);
    if LeadsNot(c) then RejectsNot(rd, Bare(StripNot(c)), depth)
    else if depth < DEPTH && Inline(rd, c).Some? then AtomsIn(rd, Inline(rd, c).value, depth + 1)
    else match c
      case Part(Unit(Cmp(true, a, b))) => Compared(rd, a, b)
      case _ => if IsLone(c) then [] else TornAtoms(rd, c, true)
  }

  /** The conjuncts that are bare names, when there are others. */
  function Flags(conj: seq<Expr>, several: bool): seq<string> {
    if conj == [] then []
    else (if several && IsFlag(Unparen(conj[0])) then [Unparen(conj[0]).c.u.t.x] else []) + Flags(conj[1..], several)
  }

  function Checks(conj: seq<Expr>, several: bool): seq<Expr> {
    if conj == [] then []
    else (if several && IsFlag(Unparen(conj[0])) then [] else [Unparen(conj[0])]) + Checks(conj[1..], several)
  }

  predicate IsFlag(e: Expr) {
    IsLone(e) && e.c.u.Val? && e.c.u.t.Name? && IsIdent(e.c.u.t.x)
  }

  function Needing(atoms: seq<Atom>, flags: seq<string>): (r: seq<Atom>)
    ensures |r| == |atoms|
    ensures forall i :: 0 <= i < |atoms| ==> r[i] == atoms[i].(when := atoms[i].when + flags)
  {
    seq(|atoms|, i requires 0 <= i < |atoms| => atoms[i].(when := atoms[i].when + flags))
  }

  /** One `||` part: it checks only when every other conjunct is a flag. */
  function PartAtoms(rd: Reader, part: Expr, depth: nat): (r: seq<Atom>)
    requires depth <= DEPTH
    ensures AllPaths(r)
    decreases DEPTH - depth, 2, 0, 0, 0
  {
    var conj := SplitAnd(part);
    var checks := Checks(conj, |conj| > 1);
    if |checks| == 1 then Needing(Rejects(rd, checks[0], depth), Flags(conj, |conj| > 1)) else []
  }

  function PartsAtoms(rd: Reader, e: Expr, depth: nat): (r: seq<Atom>)
    requires depth <= DEPTH
    ensures AllPaths(r)
    decreases DEPTH - depth, 3, e, 0, 0
  {
    PartAtoms(rd, Unparen(Part(e.c)), depth) + if e.Or? then PartsAtoms(rd, e.rest, depth) else []
  }

  /** The atoms of a rejecting condition. */
  function AtomsIn(rd: Reader, e: Expr, depth: nat): (r: seq<Atom>)
    requires depth <= DEPTH
    ensures AllPaths(r)
    decreases DEPTH - depth, 4, 0, 0, 0
  {
    PartsAtoms(rd, Unparen(e), depth)
  }

  /** A part's conjuncts, told apart. */
  method ReadConjuncts(conj: seq<Expr>) returns (when: seq<string>, checks: seq<Expr>)
    ensures when == Flags(conj, |conj| > 1) && checks == Checks(conj, |conj| > 1)
  {
    when, checks := [], [];
    for k := 0 to |conj|
      invariant Flags(conj, |conj| > 1) == when + Flags(conj[k..], |conj| > 1)
      invariant Checks(conj, |conj| > 1) == checks + Checks(conj[k..], |conj| > 1)
    {
      assert conj[k..][0] == conj[k] && conj[k..][1..] == conj[k + 1..];
      var c := Unparen(conj[k]);
      if |conj| > 1 && IsFlag(c) {
        when := when + [c.c.u.t.x];
      } else {
        checks := checks + [c];
      }
    }
  }

  method ReadPart(rd: Reader, part: Expr) returns (out: seq<Atom>)
    ensures out == PartAtoms(rd, part, 0)
  {
    var when, checks := ReadConjuncts(SplitAnd(part));
    if |checks| == 1 {
      out := Needing(Rejects(rd, checks[0], 0), when);
    } else {
      out := [];
    }
  }

  method ReadParts(rd: Reader, e: Expr) returns (out: seq<Atom>)
    ensures out == PartsAtoms(rd, e, 0)
  {
    out := [];
    var parts := e;
    while parts.Or?
      invariant PartsAtoms(rd, e, 0) == out + PartsAtoms(rd, parts, 0)
      decreases parts
    {
      var atoms := ReadPart(rd, Unparen(Part(parts.c)));
      assert PartsAtoms(rd, parts, 0) == atoms + PartsAtoms(rd, parts.rest, 0);
      assert out + PartsAtoms(rd, parts, 0) == (out + atoms) + PartsAtoms(rd, parts.rest, 0);
      out := out + atoms;
      parts := parts.rest;
    }
    var last := ReadPart(rd, Unparen(Part(parts.c)));
    assert PartsAtoms(rd, parts, 0) == last + [] == last;
    out := out + last;
  }

  /** `atoms_of`: the atoms of a rejecting condition, at no call's depth. */
  method AtomsOf(rd: Reader, cond: Expr) returns (out: seq<Atom>)
    ensures out == AtomsIn(rd, cond, 0)
  {
    out := ReadParts(rd, Unparen(cond));
  }
}
