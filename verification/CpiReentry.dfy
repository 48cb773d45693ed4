/** Re-entry (crates/solinv-core/src/invariants/cpi_reentrancy.rs, `detect_reentry`, and
    crates/solinv-core/src/trace.rs, `annotate`, `build_annotated_tree`): what the detector's stack
    finds in the events is what a search of the call tree finds. */
module CpiReentry {
  import opened Common
  import opened CpiLog
  import opened CpiTree

  datatype Reentry = Reentry(pid: Key, outer: nat, inner: nat)

  type Frames = seq<(Key, nat)>

  /** The depth of the outermost open frame of `pid`. */
  function FindOpen(stack: Frames, pid: Key): Option<nat> {
    if stack == [] then None
    else if stack[0].0 == pid then Some(stack[0].1)
    else FindOpen(stack[1..], pid)
  }

  /** What entering `pid` at `depth` closes, if it closes a cycle that is not allowed. */
  function Closes(stack: Frames, pid: Key, depth: nat, allow: seq<Key>): Option<Reentry> {
    if pid in allow then None
    else match FindOpen(stack, pid)
      case Some(outer) => Some(Reentry(pid, outer, depth))
      case None => None
  }

  /** The stack after some events, whatever was found on the way. */
  function StackAfter(events: seq<Event>): Frames {
    if events == [] then []
    else
      var s := StackAfter(events[..|events| - 1]);
      match events[|events| - 1]
      case Entered(pid, depth) => s + [(pid, depth)]
      case _ => if s == [] then s else s[..|s| - 1]
  }

  /** The first cycle the events close. */
  function Detect(events: seq<Event>, allow: seq<Key>): Option<Reentry> {
    if events == [] then None
    else
      var init := events[..|events| - 1];
      match Detect(init, allow)
      case Some(r) => Some(r)
      case None =>
        match events[|events| - 1]
        case Entered(pid, depth) => Closes(StackAfter(init), pid, depth, allow)
        case _ => None
  }

  lemma DetectPrefix(events: seq<Event>, k: nat, allow: seq<Key>)
    requires k <= |events| && Detect(events[..k], allow).Some?
    ensures Detect(events, allow) == Detect(events[..k], allow)
  {
    if k < |events| {
      assert events[..|events| - 1][..k] == events[..k];
      DetectPrefix(events[..|events| - 1], k, allow);
    } else {
      assert events[..k] == events;
    }
  }

  method DetectReentry(events: seq<Event>, allow: seq<Key>) returns (r: Option<Reentry>)
    ensures r == Detect(events, allow)
  {
    var stack: Frames := [];
    for i := 0 to |events|
      invariant stack == StackAfter(events[..i]) && Detect(events[..i], allow) == None
    {
      assert events[..i + 1][..i] == events[..i];
      match events[i] {
        case Entered(pid, depth) =>
          if pid !in allow {
            var outer := FindOpen(stack, pid);
            if outer.Some? {
              DetectPrefix(events, i + 1, allow);
              return Some(Reentry(pid, outer.value, depth));
            }
          }
          stack := stack + [(pid, depth)];
        case _ =>
          if stack != [] {
            stack := stack[..|stack| - 1];
          }
      }
    }
    assert events[..|events|] == events;
    r := None;
  }

  // -------------------------------------------------------- the tree search

  /** The first frame, in preorder, that has an ancestor of the same program. `path`: the
      ancestors of `nodes`. */
  function Search(nodes: seq<Node>, path: Frames, allow: seq<Key>): Option<Reentry> {
    if nodes == [] then None
    else
      var n := nodes[0];
      match Closes(path, n.program, n.depth, allow)
      case Some(r) => Some(r)
      case None =>
        match Search(n.children, path + [(n.program, n.depth)], allow)
        case Some(r) => Some(r)
        case None => Search(nodes[1..], path, allow)
  }

  function Either<T>(a: Option<T>, b: Option<T>): Option<T> { if a.Some? then a else b }

  lemma SearchAppend(a: seq<Node>, b: seq<Node>, path: Frames, allow: seq<Key>)
    ensures Search(a + b, path, allow) == Either(Search(a, path, allow), Search(b, path, allow))
  {
    if a != [] {
      assert (a + b)[1..] == a[1..] + b;
      SearchAppend(a[1..], b, path, allow);
    } else {
      assert a + b == b;
    }
  }

  /** The same search with some frames still open. */
  function SearchOpen(open: seq<Node>, path: Frames, allow: seq<Key>): Option<Reentry> {
    if open == [] then None
    else
      var n := open[0];
      var below := path + [(n.program, n.depth)];
      Either(Closes(path, n.program, n.depth, allow),
          Either(Search(n.children, below, allow), SearchOpen(open[1..], below, allow)))
  }

  function PathOf(open: seq<Node>): (r: Frames)
    ensures |r| == |open|
  {
    if open == [] then [] else [(open[0].program, open[0].depth)] + PathOf(open[1..])
  }

  lemma {:induction false} PathOfLast(open: seq<Node>)
    requires open != []
    ensures PathOf(open) == PathOf(open[..|open| - 1]) + [(open[|open| - 1].program, open[|open| - 1].depth)]
  {
    if |open| > 1 {
      PathOfLast(open[1..]);
      assert open[1..][..|open| - 2] == open[..|open| - 1][1..];
    } else {
      assert PathOf(open[1..]) == [];
    }
  }

  /** The innermost open frame is searched last. */
  lemma {:induction false} SearchOpenLast(open: seq<Node>, path: Frames, allow: seq<Key>)
    requires open != []
    ensures var n, init := open[|open| - 1], open[..|open| - 1];
            SearchOpen(open, path, allow) == Either(SearchOpen(init, path, allow),
                Search([n], path + PathOf(init), allow))
  {
    var n, init := open[|open| - 1], open[..|open| - 1];
    if |open| > 1 {
      var below := path + [(open[0].program, open[0].depth)];
      SearchOpenLast(open[1..], below, allow);
      assert open[1..][..|open| - 2] == init[1..];
      assert below + PathOf(init[1..]) == path + PathOf(init);
    } else {
      assert open == [n] && [n][1..] == [] && path + PathOf(init) == path;
    }
  }

  function SearchZip(z: Zip, allow: seq<Key>): Option<Reentry> {
    Either(Search(z.done, [], allow), SearchOpen(z.open, [], allow))
  }

  lemma SearchOne(n: Node, path: Frames, allow: seq<Key>)
    ensures Search([n], path, allow) ==
            Either(Closes(path, n.program, n.depth, allow), Search(n.children, path + [(n.program, n.depth)], allow))
  {
    assert [n][1..] == [];
  }

  /** A last child is searched after everything else in its parent. */
  lemma {:induction false} SearchLastChild(p: Node, n: Node, path: Frames, allow: seq<Key>)
    ensures Search([p.(children := p.children + [n])], path, allow) ==
            Either(Search([p], path, allow), Search([n], path + [(p.program, p.depth)], allow))
  {
    SearchOne(p, path, allow);
    SearchOne(p.(children := p.children + [n]), path, allow);
    SearchAppend(p.children, [n], path + [(p.program, p.depth)], allow);
  }

  /** Closing the innermost of two or more open frames. */
  lemma {:induction false} SearchCloseInner(outer: seq<Node>, p: Node, n: Node, allow: seq<Key>)
    ensures SearchOpen(outer + [p.(children := p.children + [n])], [], allow) ==
              SearchOpen(outer + [p] + [n], [], allow)
  {
    var rest, grown := outer + [p], p.(children := p.children + [n]);
    SearchOpenLast(rest + [n], [], allow);
    SearchOpenLast(rest, [], allow);
    SearchOpenLast(outer + [grown], [], allow);
    PathOfLast(rest);
    hide Search, SearchOpen, PathOf, Closes;
    assert (rest + [n])[..|rest|] == rest && rest[..|outer|] == outer && (outer + [grown])[..|outer|] == outer;
    assert [] + PathOf(rest) == PathOf(rest) && [] + PathOf(outer) == PathOf(outer);
    SearchLastChild(p, n, PathOf(outer), allow);
  }

  lemma {:induction false} SearchClose(z: Zip, allow: seq<Key>)
    requires z.open != []
    ensures SearchZip(Close(z), allow) == SearchZip(z, allow)
  {
    var n, rest := Top(z), z.open[..|z.open| - 1];
    assert z.open == rest + [n];
    if rest == [] {
      SearchOpenLast(z.open, [], allow);
      SearchAppend(z.done, [n], [], allow);
    } else {
      var outer, parent := rest[..|rest| - 1], rest[|rest| - 1];
      hide Search, SearchOpen, Closes;
      assert rest == outer + [parent];
      SearchCloseInner(outer, parent, n, allow);
    }
  }

  lemma SearchFinish(z: Zip, allow: seq<Key>)
    ensures Search(Finish(z), [], allow) == SearchZip(z, allow)
    decreases |z.open|
  {
    if z.open != [] {
      SearchClose(z, allow);
      SearchFinish(Close(z), allow);
    }
  }

  lemma {:induction false} SearchSetTop(z: Zip, n: Node, allow: seq<Key>)
    requires z.open != [] && n.program == Top(z).program && n.depth == Top(z).depth && n.children == Top(z).children
    ensures SearchZip(SetTop(z, n), allow) == SearchZip(z, allow) && PathOf(SetTop(z, n).open) == PathOf(z.open)
  {
    var rest := z.open[..|z.open| - 1];
    SearchOpenLast(z.open, [], allow);
    SearchOpenLast(rest + [n], [], allow);
    assert (rest + [n])[..|rest|] == rest;
    assert [n][1..] == [] && [Top(z)][1..] == [];
    PathOfLast(z.open);
    PathOfLast(rest + [n]);
  }

  lemma ClosePath(z: Zip)
    requires z.open != []
    ensures PathOf(Close(z).open) == PathOf(z.open)[..|z.open| - 1]
  {
    var rest := z.open[..|z.open| - 1];
    PathOfLast(z.open);
    if rest != [] {
      PathOfLast(rest);
      PathOfLast(Close(z).open);
      assert Close(z).open[..|rest| - 1] == rest[..|rest| - 1];
    }
  }

  /** The detector after `es` agrees with the tree built so far. */
  ghost predicate InStep(es: seq<Event>, z: Zip, allow: seq<Key>) {
    StackAfter(es) == PathOf(z.open) && Detect(es, allow) == SearchZip(z, allow)
  }

  lemma {:induction false} EnterInStep(es: seq<Event>, z: Zip, pid: Key, depth: nat, allow: seq<Key>)
    requires InStep(es, z, allow)
    ensures InStep(es + [Entered(pid, depth)], Step(z, Invoke(pid, depth)), allow)
  {
    var open := z.open + [Fresh(pid, depth)];
    assert (es + [Entered(pid, depth)])[..|es|] == es;
    SearchOpenLast(open, [], allow);
    PathOfLast(open);
    assert open[..|z.open|] == z.open;
    assert [Fresh(pid, depth)][1..] == [] && [] + PathOf(z.open) == PathOf(z.open);
  }

  lemma {:induction false} LeaveInStep(es: seq<Event>, e: Event, z: Zip, allow: seq<Key>)
    requires InStep(es, z, allow) && !e.Entered?
    ensures InStep(es + [e], if z.open != [] then Close(z) else z, allow)
  {
    assert (es + [e])[..|es|] == es;
    if z.open != [] {
      SearchClose(z, allow);
      ClosePath(z);
    }
  }

  lemma SetInStep(es: seq<Event>, z: Zip, n: Node, allow: seq<Key>)
    requires InStep(es, z, allow) && z.open != []
    requires n.program == Top(z).program && n.depth == Top(z).depth && n.children == Top(z).children
    ensures InStep(es, SetTop(z, n), allow)
  {
    SearchSetTop(z, n, allow);
  }

  lemma {:induction false} StepInStep(es: seq<Event>, z: Zip, l: Line, allow: seq<Key>)
    requires InStep(es, z, allow)
    ensures InStep(es + match EventOf(l) case Some(e) => [e] case None => [], Step(z, l), allow)
  {
    hide InStep, Close;
    assert es + [] == es;
    match l {
      case Invoke(pid, depth) => EnterInStep(es, z, pid, depth, allow);
      case Success(pid) => LeaveInStep(es, Succeeded(pid), z, allow);
      case Failed(pid) =>
        if z.open != [] {
          var f := Top(z).(failed := true);
          SetInStep(es, z, f, allow);
          LeaveInStep(es, Aborted(pid), SetTop(z, f), allow);
        } else {
          LeaveInStep(es, Aborted(pid), z, allow);
        }
      case Named(name) => if z.open != [] { SetInStep(es, z, Top(z).(instruction := Some(name)), allow); }
      case Consumed(pid, units) => if z.open != [] { SetInStep(es, z, Top(z).(units := Some(units)), allow); }
      case Skip =>
    }
  }

  /** The detector's stack is the open frames, and what it has found is what searching the tree so
      far finds. */
  lemma {:induction false} RunSearch(lines: seq<Line>, allow: seq<Key>)
    ensures InStep(EventsOf(lines), Run(lines), allow)
  {
    if lines != [] {
      var init, l := lines[..|lines| - 1], lines[|lines| - 1];
      RunSearch(init, allow);
      StepInStep(EventsOf(init), Run(init), l, allow);
      hide InStep, Step, EventOf;
    } else {
      assert InStep([], Zip([], []), allow);
    }
  }

  /** On every log, balanced or cut short, the detector reports the first frame of the tree, in
      preorder, that an ancestor of the same program encloses, with the outermost such ancestor's
      depth; and reports nothing when there is none. */
  lemma DetectIsSearch(lines: seq<Line>, allow: seq<Key>)
    ensures Detect(EventsOf(lines), allow) == Search(TreeOf(lines), [], allow)
  {
    RunSearch(lines, allow);
    SearchFinish(Run(lines), allow);
  }

  /** Some frame has a proper ancestor of the same program, or of one in `above`. */
  predicate Cyclic(nodes: seq<Node>, above: set<Key>) {
    nodes != [] && (nodes[0].program in above || Cyclic(nodes[0].children, above + {nodes[0].program}) ||
        Cyclic(nodes[1..], above))
  }

  function Programs(path: Frames): set<Key> {
    if path == [] then {} else {path[0].0} + Programs(path[1..])
  }

  lemma ProgramsAppend(path: Frames, f: (Key, nat))
    ensures Programs(path + [f]) == Programs(path) + {f.0}
  {
    if path != [] {
      assert (path + [f])[1..] == path[1..] + [f];
      ProgramsAppend(path[1..], f);
    } else {
      assert path + [f] == [f] && [f][1..] == [];
    }
  }

  lemma FindOpenPrograms(path: Frames, pid: Key)
    ensures FindOpen(path, pid).Some? <==> pid in Programs(path)
  {
  }

  lemma {:induction false} SearchCyclic(nodes: seq<Node>, path: Frames)
    ensures Search(nodes, path, []).Some? <==> Cyclic(nodes, Programs(path))
  {
    if nodes != [] {
      var n := nodes[0];
      FindOpenPrograms(path, n.program);
      ProgramsAppend(path, (n.program, n.depth));
      SearchCyclic(n.children, path + [(n.program, n.depth)]);
      SearchCyclic(nodes[1..], path);
    }
  }

  /** The detector, allowing nothing, fires exactly when the tree has a cycle. */
  lemma DetectIffCyclic(lines: seq<Line>)
    ensures Detect(EventsOf(lines), []).Some? <==> Cyclic(TreeOf(lines), {})
  {
    DetectIsSearch(lines, []);
    SearchCyclic(TreeOf(lines), []);
  }

  // ------------------------------------------------- what the report says

  /** A frame met in preorder, with its ancestors, the outermost first. */
  datatype Visit = Visit(program: Key, depth: nat, above: Frames)

  function Visits(nodes: seq<Node>, above: Frames): seq<Visit> {
    if nodes == [] then []
    else
      var n := nodes[0];
      [Visit(n.program, n.depth, above)]
      + Visits(n.children, above + [(n.program, n.depth)]) + Visits(nodes[1..], above)
  }

  /** The program of the frame is not allowed, and one of the ancestors runs it. */
  predicate Reenters(v: Visit, allow: seq<Key>) {
    v.program !in allow && exists j :: 0 <= j < |v.above| && v.above[j].0 == v.program
  }

  /** The first of the frames that re-enters. */
  predicate FirstReentry(vs: seq<Visit>, allow: seq<Key>, i: nat) {
    i < |vs| && Reenters(vs[i], allow) && forall k :: 0 <= k < i ==> !Reenters(vs[k], allow)
  }

  /** The ancestor at `j` is the outermost that runs the program. */
  predicate Outermost(v: Visit, j: nat) {
    j < |v.above| && v.above[j].0 == v.program && forall m :: 0 <= m < j ==> v.above[m].0 != v.program
  }

  /** `r` reports the frame `v`. */
  ghost predicate Tells(v: Visit, r: Reentry) {
    && r.pid == v.program && r.inner == v.depth
    && exists j: nat :: Outermost(v, j) && r.outer == v.above[j].1
  }

  ghost predicate Reports(vs: seq<Visit>, allow: seq<Key>, r: Reentry) {
    exists i: nat :: FirstReentry(vs, allow, i) && Tells(vs[i], r)
  }

  lemma {:induction false} FindsOutermost(v: Visit, outer: nat)
    ensures FindOpen(v.above, v.program) == Some(outer) <==>
            exists j: nat :: Outermost(v, j) && outer == v.above[j].1
    decreases |v.above|
  {
    if v.above != [] {
      var rest := v.(above := v.above[1..]);
      FindsOutermost(rest, outer);
      if v.above[0].0 == v.program {
        assert Outermost(v, 0);
      } else {
        forall j: nat | j < |rest.above| ensures Outermost(rest, j) <==> Outermost(v, j + 1) {
          assert forall m: int :: 0 <= m < j ==> rest.above[m] == v.above[m + 1];
          if Outermost(rest, j) {
            forall m | 0 <= m < j + 1 ensures v.above[m].0 != v.program {
              if m > 0 { assert rest.above[m - 1].0 != v.program; }
            }
          }
        }
        if FindOpen(v.above, v.program) == Some(outer) {
          var j: nat :| Outermost(rest, j) && outer == rest.above[j].1;
          assert Outermost(v, j + 1) && outer == v.above[j + 1].1;
        }
        if j: nat :| Outermost(v, j) && outer == v.above[j].1 {
          assert Outermost(rest, j - 1) && outer == rest.above[j - 1].1;
        }
      }
    }
  }

  lemma {:induction false} ClosesTells(v: Visit, allow: seq<Key>)
    ensures Closes(v.above, v.program, v.depth, allow).Some? <==> Reenters(v, allow)
    ensures Reenters(v, allow) ==> Tells(v, Closes(v.above, v.program, v.depth, allow).value)
  {
    FindOpenPrograms(v.above, v.program);
    ProgramsHave(v.above, v.program);
    var open := FindOpen(v.above, v.program);
    if open.Some? { FindsOutermost(v, open.value); }
  }

  lemma ProgramsHave(path: Frames, pid: Key)
    ensures pid in Programs(path) <==> exists j :: 0 <= j < |path| && path[j].0 == pid
  {
    if path != [] {
      ProgramsHave(path[1..], pid);
      if j :| 0 <= j < |path[1..]| && path[1..][j].0 == pid { assert path[j + 1].0 == pid; }
      if j :| 0 <= j < |path| && path[j].0 == pid && path[0].0 != pid { assert path[1..][j - 1].0 == pid; }
    }
  }

  ghost predicate Finds(found: Option<Reentry>, vs: seq<Visit>, allow: seq<Key>) {
    && (found.None? <==> forall i :: 0 <= i < |vs| ==> !Reenters(vs[i], allow))
    && (found.Some? ==> Reports(vs, allow, found.value))
  }

  /** What is found first in a list is what is found in its first part, else in the second. */
  lemma {:induction false} FindsEither(a: Option<Reentry>, b: Option<Reentry>, xs: seq<Visit>, ys: seq<Visit>,
      allow: seq<Key>)
    requires Finds(a, xs, allow) && (a.None? ==> Finds(b, ys, allow))
    ensures Finds(Either(a, b), xs + ys, allow)
  {
    hide Reenters, Tells;
    var all := xs + ys;
    if a.Some? {
      var i: nat :| FirstReentry(xs, allow, i) && Tells(xs[i], a.value);
      assert all[i] == xs[i] && FirstReentry(all, allow, i);
    } else {
      forall i | 0 <= i < |ys| ensures all[|xs| + i] == ys[i] {
      }
      if b.Some? {
        var i: nat :| FirstReentry(ys, allow, i) && Tells(ys[i], b.value);
        assert FirstReentry(all, allow, |xs| + i);
      } else {
        assert forall i :: 0 <= i < |all| ==> all[i] in xs || all[i] in ys;
      }
    }
  }

  lemma {:induction false} SearchFinds(nodes: seq<Node>, above: Frames, allow: seq<Key>)
    ensures Finds(Search(nodes, above, allow), Visits(nodes, above), allow)
  {
    if nodes != [] {
      var n := nodes[0];
      var v, below := Visit(n.program, n.depth, above), above + [(n.program, n.depth)];
      SearchFinds(n.children, below, allow);
      SearchFinds(nodes[1..], above, allow);
      ClosesTells(v, allow);
      var here, inside := Closes(above, n.program, n.depth, allow), Search(n.children, below, allow);
      assert Finds(here, [v], allow) by {
        if here.Some? { assert FirstReentry([v], allow, 0); }
      }
      hide Finds, Closes, Reenters;
      FindsEither(here, inside, [v], Visits(n.children, below), allow);
      FindsEither(Either(here, inside), Search(nodes[1..], above, allow), [v] + Visits(n.children, below),
        Visits(nodes[1..], above), allow);
    }
  }

  lemma {:induction false} OneReport(vs: seq<Visit>, allow: seq<Key>, r: Reentry, q: Reentry)
    requires Reports(vs, allow, r) && Reports(vs, allow, q)
    ensures r == q
  {
    var i: nat :| FirstReentry(vs, allow, i) && Tells(vs[i], r);
    var k: nat :| FirstReentry(vs, allow, k) && Tells(vs[k], q);
    assert i == k;
    var m: nat :| Outermost(vs[i], m) && r.outer == vs[i].above[m].1;
    var n: nat :| Outermost(vs[i], n) && q.outer == vs[i].above[n].1;
    assert m == n;
  }

  /** On every log and allowlist: what is reported is the first frame of the tree, in preorder, whose
      program is not allowed and runs in a frame around it, with the depths of the outermost such
      frame and of this one; nothing is reported exactly when there is no such frame. */
  lemma {:induction false} DetectExact(lines: seq<Line>, allow: seq<Key>, r: Reentry)
    ensures Detect(EventsOf(lines), allow) == Some(r) <==> Reports(Visits(TreeOf(lines), []), allow, r)
    ensures Detect(EventsOf(lines), allow) == None <==>
            forall i :: 0 <= i < |Visits(TreeOf(lines), [])| ==> !Reenters(Visits(TreeOf(lines), [])[i], allow)
  {
    var found, vs := Detect(EventsOf(lines), allow), Visits(TreeOf(lines), []);
    DetectIsSearch(lines, allow);
    SearchFinds(TreeOf(lines), [], allow);
    if Reports(vs, allow, r) {
      var i: nat :| FirstReentry(vs, allow, i) && Tells(vs[i], r);
      OneReport(vs, allow, r, found.value);
    }
  }

  /** The frames met are the tree's, in preorder. */
  lemma {:induction false} VisitsPreorder(nodes: seq<Node>, above: Frames)
    ensures |Visits(nodes, above)| == |Preorder(nodes)|
    ensures forall i :: 0 <= i < |Preorder(nodes)| ==>
              Preorder(nodes)[i] == (Visits(nodes, above)[i].program, Visits(nodes, above)[i].depth)
  {
    if nodes != [] {
      VisitsPreorder(nodes[0].children, above + [(nodes[0].program, nodes[0].depth)]);
      VisitsPreorder(nodes[1..], above);
    }
  }

  /** Allowing less never loses a detection. */
  lemma {:induction false} FewerAllowed(events: seq<Event>, allow: seq<Key>, fewer: seq<Key>)
    requires (forall k :: k in fewer ==> k in allow) && Detect(events, allow).Some?
    ensures Detect(events, fewer).Some?
  {
    if events != [] && Detect(events[..|events| - 1], allow).Some? {
      FewerAllowed(events[..|events| - 1], allow, fewer);
    }
  }

  // -------------------------------------------------------------- the mark

  function Erase(nodes: seq<Node>): (r: seq<Node>)
    ensures |r| == |nodes|
  {
    if nodes == [] then []
    else [nodes[0].(note := None, children := Erase(nodes[0].children))] + Erase(nodes[1..])
  }

  /** The frames that carry a note. */
  function Marked(nodes: seq<Node>): seq<(Key, nat)> {
    if nodes == [] then []
    else
      (if nodes[0].note.Some? then [(nodes[0].program, nodes[0].depth)] else [])
      + Marked(nodes[0].children) + Marked(nodes[1..])
  }

  function Notes(nodes: seq<Node>): seq<string> {
    if nodes == [] then []
    else
      (if nodes[0].note.Some? then [nodes[0].note.value] else []) + Notes(nodes[0].children) + Notes(nodes[1..])
  }

  /** `annotate`: the first frame of `pid` at `depth` without a note gets one. */
  function Annotate(nodes: seq<Node>, pid: Key, depth: nat, note: string): (r: (seq<Node>, bool))
    ensures |r.0| == |nodes|
  {
    if nodes == [] then ([], false)
    else
      var n := nodes[0];
      if n.program == pid && n.depth == depth && n.note.None? then ([n.(note := Some(note))] + nodes[1..], true)
      else
        var (kids, found) := Annotate(n.children, pid, depth, note);
        if found then ([n.(children := kids)] + nodes[1..], true)
        else
          var (rest, later) := Annotate(nodes[1..], pid, depth, note);
          ([n] + rest, later)
  }

  /** What annotating a forest without notes does. */
  ghost predicate MarksOnce(nodes: seq<Node>, pid: Key, depth: nat, r: seq<Node>, found: bool) {
    && (found <==> (pid, depth) in Preorder(nodes))
    && Marked(r) == (if found then [(pid, depth)] else [])
    && (!found ==> r == nodes)
    && Erase(r) == Erase(nodes)
  }

  lemma MarkFirst(n: Node, rest: seq<Node>, note: string)
    requires Marked([n] + rest) == []
    ensures MarksOnce([n] + rest, n.program, n.depth, [n.(note := Some(note))] + rest, true)
  {
    var nodes, r := [n] + rest, [n.(note := Some(note))] + rest;
    assert nodes[1..] == rest && r[1..] == rest;
    assert Preorder(nodes)[0] == (n.program, n.depth);
  }

  lemma MarkInside(n: Node, rest: seq<Node>, pid: Key, depth: nat, kids: seq<Node>)
    requires Marked([n] + rest) == [] && MarksOnce(n.children, pid, depth, kids, true)
    ensures MarksOnce([n] + rest, pid, depth, [n.(children := kids)] + rest, true)
  {
    var nodes, r := [n] + rest, [n.(children := kids)] + rest;
    assert nodes[1..] == rest && r[1..] == rest;
  }

  lemma MarkLater(n: Node, rest: seq<Node>, pid: Key, depth: nat, later: seq<Node>, found: bool)
    requires Marked([n] + rest) == [] && (n.program, n.depth) != (pid, depth)
    requires (pid, depth) !in Preorder(n.children) && MarksOnce(rest, pid, depth, later, found)
    ensures MarksOnce([n] + rest, pid, depth, [n] + later, found)
  {
    var nodes, r := [n] + rest, [n] + later;
    assert nodes[1..] == rest && r[1..] == later;
  }

  lemma MarkedParts(nodes: seq<Node>)
    requires nodes != [] && Marked(nodes) == []
    ensures nodes[0].note.None? && Marked(nodes[0].children) == [] && Marked(nodes[1..]) == []
  {
  }

  /** Annotating a forest without notes marks one frame when it has one of that program and depth,
      and changes nothing else. */
  lemma {:induction false} AnnotateMarks(nodes: seq<Node>, pid: Key, depth: nat, note: string)
    requires Marked(nodes) == []
    ensures var (r, found) := Annotate(nodes, pid, depth, note); MarksOnce(nodes, pid, depth, r, found)
  {
    if nodes != [] {
      var n, rest := nodes[0], nodes[1..];
      MarkedParts(nodes);
      assert nodes == [n] + rest;
      hide MarksOnce, Marked, Preorder, Erase;
      if n.program == pid && n.depth == depth {
        MarkFirst(n, rest, note);
      } else {
        AnnotateMarks(n.children, pid, depth, note);
        var (kids, found) := Annotate(n.children, pid, depth, note);
        if found {
          MarkInside(n, rest, pid, depth, kids);
        } else {
          AnnotateMarks(rest, pid, depth, note);
          var (later, there) := Annotate(rest, pid, depth, note);
          MarkNone(n.children, pid, depth, kids);
          MarkLater(n, rest, pid, depth, later, there);
        }
      }
    } else {
      assert Preorder(nodes) == [] && Marked(nodes) == [];
    }
  }

  lemma MarkNone(nodes: seq<Node>, pid: Key, depth: nat, r: seq<Node>)
    requires MarksOnce(nodes, pid, depth, r, false)
    ensures (pid, depth) !in Preorder(nodes)
  {
  }

  predicate Unmarked(nodes: seq<Node>) { Marked(nodes) == [] }

  lemma UnmarkedAppend(a: seq<Node>, b: seq<Node>)
    ensures Unmarked(a + b) <==> Unmarked(a) && Unmarked(b)
  {
    if a != [] {
      assert (a + b)[1..] == a[1..] + b;
      UnmarkedAppend(a[1..], b);
    } else {
      assert a + b == b;
    }
  }

  predicate ZipUnmarked(z: Zip) { Unmarked(z.done) && Unmarked(z.open) }

  lemma {:induction false} CloseUnmarked(z: Zip)
    requires z.open != [] && ZipUnmarked(z)
    ensures ZipUnmarked(Close(z))
  {
    var n, rest := Top(z), z.open[..|z.open| - 1];
    assert z.open == rest + [n];
    UnmarkedAppend(rest, [n]);
    if rest == [] {
      UnmarkedAppend(z.done, [n]);
    } else {
      var parent, outer := rest[|rest| - 1], rest[..|rest| - 1];
      var grown := parent.(children := parent.children + [n]);
      assert rest == outer + [parent];
      UnmarkedAppend(outer, [parent]);
      UnmarkedAppend(parent.children, [n]);
      assert Unmarked([grown]) by { assert [grown][1..] == [] && [parent][1..] == []; }
      UnmarkedAppend(outer, [grown]);
    }
  }

  lemma FinishUnmarked(z: Zip)
    requires ZipUnmarked(z)
    ensures Unmarked(Finish(z))
    decreases |z.open|
  {
    if z.open != [] {
      CloseUnmarked(z);
      FinishUnmarked(Close(z));
    }
  }

  lemma {:induction false} SetTopUnmarked(z: Zip, n: Node)
    requires z.open != [] && ZipUnmarked(z) && n.note.None? && n.children == Top(z).children
    ensures ZipUnmarked(SetTop(z, n))
  {
    var rest := z.open[..|z.open| - 1];
    assert z.open == rest + [Top(z)];
    UnmarkedAppend(rest, [Top(z)]);
    assert Unmarked([n]) by { assert [n][1..] == [] && [Top(z)][1..] == []; }
    UnmarkedAppend(rest, [n]);
  }

  lemma TopUnmarked(z: Zip)
    requires z.open != [] && ZipUnmarked(z)
    ensures Top(z).note.None?
  {
    var rest := z.open[..|z.open| - 1];
    assert z.open == rest + [Top(z)];
    UnmarkedAppend(rest, [Top(z)]);
  }

  lemma {:induction false} RunUnmarked(lines: seq<Line>)
    ensures ZipUnmarked(Run(lines))
  {
    if lines != [] {
      var l := lines[|lines| - 1];
      RunUnmarked(lines[..|lines| - 1]);
      var z := Run(lines[..|lines| - 1]);
      if z.open != [] { TopUnmarked(z); }
      match l {
        case Invoke(pid, depth) =>
          assert Unmarked([Fresh(pid, depth)]) by { assert [Fresh(pid, depth)][1..] == []; }
          UnmarkedAppend(z.open, [Fresh(pid, depth)]);
        case Success(_) => if z.open != [] { CloseUnmarked(z); }
        case Failed(_) =>
          if z.open != [] {
            SetTopUnmarked(z, Top(z).(failed := true));
            CloseUnmarked(SetTop(z, Top(z).(failed := true)));
          }
        case Named(name) => if z.open != [] { SetTopUnmarked(z, Top(z).(instruction := Some(name))); }
        case Consumed(pid, units) => if z.open != [] { SetTopUnmarked(z, Top(z).(units := Some(units))); }
        case Skip =>
      }
    }
  }

  /** The frame the detector reports was opened. */
  lemma {:induction false} DetectedInvoked(lines: seq<Line>, allow: seq<Key>)
    requires Detect(EventsOf(lines), allow).Some?
    ensures var r := Detect(EventsOf(lines), allow).value; (r.pid, r.inner) in Invoked(lines)
  {
    var init, l := lines[..|lines| - 1], lines[|lines| - 1];
    var es := EventsOf(init);
    if EventOf(l).Some? {
      assert (es + [EventOf(l).value])[..|es|] == es;
    } else {
      assert es + [] == es;
    }
    if Detect(es, allow).Some? {
      DetectedInvoked(init, allow);
    }
  }

  function BuildAnnotatedTree(lines: seq<Line>, note: Reentry -> string): seq<Node> {
    match Detect(EventsOf(lines), [])
    case Some(r) => Annotate(TreeOf(lines), r.pid, r.inner, note(r)).0
    case None => TreeOf(lines)
  }

  /** The annotated tree marks one frame, of the reported program at the reported depth, when the
      detector fires, and none otherwise; the mark changes nothing else. */
  lemma AnnotatedOnce(lines: seq<Line>, note: Reentry -> string)
    ensures var tree := BuildAnnotatedTree(lines, note);
            && Erase(tree) == Erase(TreeOf(lines))
            && Marked(tree) == match Detect(EventsOf(lines), []) case Some(r) => [(r.pid, r.inner)] case None => []
  {
    RunUnmarked(lines);
    FinishUnmarked(Run(lines));
    if Detect(EventsOf(lines), []).Some? {
      var r := Detect(EventsOf(lines), []).value;
      DetectedInvoked(lines, []);
      TreePreorder(lines);
      AnnotateMarks(TreeOf(lines), r.pid, r.inner, note(r));
    }
  }

  lemma {:induction false} NotesMarked(nodes: seq<Node>)
    ensures |Notes(nodes)| == |Marked(nodes)|
  {
    if nodes != [] {
      NotesMarked(nodes[0].children);
      NotesMarked(nodes[1..]);
    }
  }

  /** The one note of a forest annotated is the text given. */
  lemma {:induction false} AnnotateNotes(nodes: seq<Node>, pid: Key, depth: nat, note: string)
    requires Notes(nodes) == []
    ensures var (r, found) := Annotate(nodes, pid, depth, note); Notes(r) == if found then [note] else []
  {
    if nodes != [] {
      var n := nodes[0];
      assert Notes(n.children) == [] && Notes(nodes[1..]) == [] && n.note.None?;
      if n.program == pid && n.depth == depth {
        assert ([n.(note := Some(note))] + nodes[1..])[1..] == nodes[1..];
      } else {
        AnnotateNotes(n.children, pid, depth, note);
        AnnotateNotes(nodes[1..], pid, depth, note);
        var (kids, found) := Annotate(n.children, pid, depth, note);
        var (rest, later) := Annotate(nodes[1..], pid, depth, note);
        assert ([n.(children := kids)] + nodes[1..])[1..] == nodes[1..] && ([n] + rest)[1..] == rest;
      }
    }
  }

  /** What the annotated tree says is what was reported. */
  lemma {:induction false} AnnotatedSays(lines: seq<Line>, note: Reentry -> string)
    ensures Notes(BuildAnnotatedTree(lines, note)) ==
              match Detect(EventsOf(lines), []) case Some(r) => [note(r)] case None => []
  {
    RunUnmarked(lines);
    FinishUnmarked(Run(lines));
    NotesMarked(TreeOf(lines));
    if Detect(EventsOf(lines), []).Some? {
      var r := Detect(EventsOf(lines), []).value;
      DetectedInvoked(lines, []);
      TreePreorder(lines);
      AnnotateMarks(TreeOf(lines), r.pid, r.inner, note(r));
      AnnotateNotes(TreeOf(lines), r.pid, r.inner, note(r));
    }
  }
}
