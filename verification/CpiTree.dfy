/** The CPI call tree (crates/solinv-core/src/trace.rs): built by one loop over an arena of frames
    and a stack of indices, and shown to be the plain tree of nested frames. */
module CpiTree {
  import opened Common
  import opened CpiLog

  datatype Node = Node(
    program: Key, depth: nat, instruction: Option<string>, units: Option<nat>, failed: bool,
    note: Option<string>, children: seq<Node>)

  // ------------------------------------------------- the plain way to say it

  /** Finished top-level frames, and the open ones, outermost first, each with its finished
      children. */
  datatype Zip = Zip(done: seq<Node>, open: seq<Node>)

  function Top(z: Zip): Node
    requires z.open != []
  {
    z.open[|z.open| - 1]
  }

  function SetTop(z: Zip, n: Node): Zip
    requires z.open != []
  {
    Zip(z.done, z.open[..|z.open| - 1] + [n])
  }

  /** The innermost open frame ends: it is a child of the one around it. */
  function Close(z: Zip): Zip
    requires z.open != []
  {
    var n, rest := Top(z), z.open[..|z.open| - 1];
    if rest == [] then Zip(z.done + [n], [])
    else
      var parent := rest[|rest| - 1];
      Zip(z.done, rest[..|rest| - 1] + [parent.(children := parent.children + [n])])
  }

  function Fresh(pid: Key, depth: nat): Node { Node(pid, depth, None, None, false, None, []) }

  function Step(z: Zip, l: Line): Zip {
    match l
    case Skip => z
    case Named(name) =>
      if z.open != [] && Top(z).instruction.None? then SetTop(z, Top(z).(instruction := Some(name))) else z
    case Invoke(pid, depth) => Zip(z.done, z.open + [Fresh(pid, depth)])
    case Success(_) => if z.open != [] then Close(z) else z
    case Failed(_) => if z.open != [] then Close(SetTop(z, Top(z).(failed := true))) else z
    case Consumed(pid, units) =>
      if z.open != [] && Top(z).program == pid then SetTop(z, Top(z).(units := Some(units))) else z
  }

  function Run(lines: seq<Line>): Zip {
    if lines == [] then Zip([], []) else Step(Run(lines[..|lines| - 1]), lines[|lines| - 1])
  }

  /** Frames still open when the log ends (it was cut short) end there. */
  function Finish(z: Zip): seq<Node>
    decreases |z.open|
  {
    if z.open == [] then z.done else Finish(Close(z))
  }

  function TreeOf(lines: seq<Line>): seq<Node> { Finish(Run(lines)) }

  // ------------------------------------------------------------- the arena

  /** A frame under construction. */
  datatype Raw = Raw(program: Key, depth: nat, instruction: Option<string>, units: Option<nat>, failed: bool,
      children: seq<nat>)

  /** The subtrees of `kids` are the indices from `lo` up to `hi`, in preorder, each once: a
      frame's index is followed by its first child's subtree, then the next's. */
  predicate Ranged(arena: seq<Raw>, kids: seq<nat>, lo: nat, hi: nat)
    decreases hi - lo, |kids|
  {
    if kids == [] then lo == hi
    else
      && kids[0] == lo < |arena|
      && var mid := if |kids| > 1 then kids[1] else hi;
         lo < mid <= hi && Ranged(arena, arena[lo].children, lo + 1, mid) && Ranged(arena, kids[1..], mid, hi)
  }

  function ToNodes(arena: seq<Raw>, kids: seq<nat>, lo: nat, hi: nat): (r: seq<Node>)
    requires Ranged(arena, kids, lo, hi)
    ensures |r| == |kids|
    decreases hi - lo, |kids|
  {
    if kids == [] then []
    else
      var mid := if |kids| > 1 then kids[1] else hi;
      [NodeOf(arena[lo], ToNodes(arena, arena[lo].children, lo + 1, mid))] + ToNodes(arena, kids[1..], mid, hi)
  }

  function NodeOf(r: Raw, children: seq<Node>): Node {
    Node(r.program, r.depth, r.instruction, r.units, r.failed, None, children)
  }

  /** Only indices in the range matter. */
  lemma {:induction false} RangedStable(arena: seq<Raw>, other: seq<Raw>, kids: seq<nat>, lo: nat, hi: nat)
    requires Ranged(arena, kids, lo, hi)
    requires |arena| <= |other| && forall i :: lo <= i < hi && i < |arena| ==> arena[i] == other[i]
    ensures Ranged(other, kids, lo, hi) && ToNodes(other, kids, lo, hi) == ToNodes(arena, kids, lo, hi)
    decreases hi - lo, |kids|
  {
    if kids != [] {
      var mid := if |kids| > 1 then kids[1] else hi;
      assert lo < mid <= hi && arena[lo] == other[lo];
      RangedStable(arena, other, arena[lo].children, lo + 1, mid);
      RangedStable(arena, other, kids[1..], mid, hi);
    }
  }

  lemma {:induction false} RangedBounds(arena: seq<Raw>, kids: seq<nat>, lo: nat, hi: nat)
    requires Ranged(arena, kids, lo, hi)
    ensures lo <= hi && (kids != [] ==> hi <= |arena|)
    ensures forall i :: 0 <= i < |kids| ==> lo <= kids[i] < hi
    decreases hi - lo, |kids|
  {
    if kids != [] {
      var mid := if |kids| > 1 then kids[1] else hi;
      RangedBounds(arena, arena[lo].children, lo + 1, mid);
      RangedBounds(arena, kids[1..], mid, hi);
    }
  }

  lemma {:induction false} RangedAppend(arena: seq<Raw>, kids: seq<nat>, lo: nat, c: nat, hi: nat)
    requires Ranged(arena, kids, lo, c) && c < |arena| && c < hi && Ranged(arena, arena[c].children, c + 1, hi)
    ensures Ranged(arena, kids + [c], lo, hi)
    ensures ToNodes(arena, kids + [c], lo, hi) ==
            ToNodes(arena, kids, lo, c) + [NodeOf(arena[c], ToNodes(arena, arena[c].children, c + 1, hi))]
    decreases |kids|
  {
    if kids == [] {
      assert (kids + [c])[1..] == [];
    } else {
      hide NodeOf;
      var mid := if |kids| > 1 then kids[1] else c;
      RangedAppend(arena, kids[1..], mid, c, hi);
      RangedBounds(arena, kids[1..], mid, c);
      assert (kids + [c])[1..] == kids[1..] + [c];
    }
  }

  // ------------------------------------------- the arena stands for the zip

  /** The finished children of the frame at stack position `k`: all but the one still open. */
  function Finished(arena: seq<Raw>, stack: seq<nat>, k: nat): seq<nat>
    requires k < |stack| && stack[k] < |arena|
  {
    var kids := arena[stack[k]].children;
    if k + 1 < |stack| && kids != [] then kids[..|kids| - 1] else kids
  }

  function Bound(arena: seq<Raw>, stack: seq<nat>, k: nat): nat
    requires k < |stack|
  {
    if k + 1 < |stack| then stack[k + 1] else |arena|
  }

  predicate FrameOk(arena: seq<Raw>, stack: seq<nat>, open: seq<Node>, k: nat)
    requires k < |stack| == |open|
  {
    && stack[k] < |arena| && stack[k] < Bound(arena, stack, k)
    && Ranged(arena, Finished(arena, stack, k), stack[k] + 1, Bound(arena, stack, k))
    && open[k] == NodeOf(arena[stack[k]], ToNodes(arena, Finished(arena, stack, k), stack[k] + 1,
        Bound(arena, stack, k)))
    && (k + 1 < |stack| ==> arena[stack[k]].children == Finished(arena, stack, k) + [stack[k + 1]])
  }

  predicate RootsOk(arena: seq<Raw>, roots: seq<nat>, stack: seq<nat>, done: seq<Node>) {
    var finished := if stack != [] && roots != [] then roots[..|roots| - 1] else roots;
    var hi := if stack != [] then stack[0] else |arena|;
    && Ranged(arena, finished, 0, hi)
    && done == ToNodes(arena, finished, 0, hi)
    && (stack != [] ==> roots == finished + [stack[0]])
  }

  predicate StandsFor(arena: seq<Raw>, roots: seq<nat>, stack: seq<nat>, z: Zip) {
    && |stack| == |z.open|
    && RootsOk(arena, roots, stack, z.done)
    && forall k :: 0 <= k < |stack| ==> FrameOk(arena, stack, z.open, k)
  }

  lemma {:induction false} StackAscends(arena: seq<Raw>, stack: seq<nat>, open: seq<Node>, j: nat, k: nat)
    requires |stack| == |open| && forall i :: 0 <= i < |stack| ==> FrameOk(arena, stack, open, i)
    requires j <= k < |stack|
    ensures stack[j] <= stack[k]
    decreases k - j
  {
    if j < k {
      assert FrameOk(arena, stack, open, j);
      StackAscends(arena, stack, open, j + 1, k);
    }
  }

  /** A frame that is not the innermost does not see a change at or above the innermost. */
  lemma {:induction false} FrameStable(arena: seq<Raw>, other: seq<Raw>, stack: seq<nat>, open: seq<Node>, k: nat,
      top: nat)
    requires k + 1 < |stack| == |open| && FrameOk(arena, stack, open, k)
    requires stack[k + 1] <= top < |arena| <= |other| && forall i :: 0 <= i < top ==> arena[i] == other[i]
    ensures FrameOk(other, stack, open, k)
  {
    RangedStable(arena, other, Finished(arena, stack, k), stack[k] + 1, stack[k + 1]);
  }

  lemma {:induction false} RootsStable(arena: seq<Raw>, other: seq<Raw>, roots: seq<nat>, stack: seq<nat>,
      done: seq<Node>, top: nat)
    requires stack != [] && RootsOk(arena, roots, stack, done)
    requires stack[0] <= top < |arena| <= |other| && forall i :: 0 <= i < top ==> arena[i] == other[i]
    ensures RootsOk(other, roots, stack, done)
  {
    RangedStable(arena, other, roots[..|roots| - 1], 0, stack[0]);
  }

  /** The arena with one more frame, listed under the one around it. */
  function Pushed(arena: seq<Raw>, stack: seq<nat>, r: Raw): seq<Raw>
    requires stack != [] ==> stack[|stack| - 1] < |arena|
  {
    if stack == [] then arena + [r]
    else
      var top := stack[|stack| - 1];
      (arena + [r])[top := arena[top].(children := arena[top].children + [|arena|])]
  }

  /** A frame is opened: pushed on the arena and on the stack. */
  lemma {:induction false} PushStands(arena: seq<Raw>, roots: seq<nat>, stack: seq<nat>, z: Zip, pid: Key, depth: nat)
    requires StandsFor(arena, roots, stack, z)
    requires stack != [] ==> stack[|stack| - 1] < |arena|
    ensures StandsFor(Pushed(arena, stack, Raw(pid, depth, None, None, false, [])),
                      if stack == [] then roots + [|arena|] else roots, stack + [|arena|], Step(z, Invoke(pid, depth)))
  {
    var idx := |arena|;
    var r := Raw(pid, depth, None, None, false, []);
    var other, open := Pushed(arena, stack, r), z.open + [Fresh(pid, depth)];
    PushRoots(arena, roots, stack, z, r);
    PushedFrame(other, stack + [idx], open, r);
    hide FrameOk, Ranged, ToNodes, RootsOk, Pushed;
    forall k | 0 <= k < |stack| ensures FrameOk(other, stack + [idx], open, k) {
      PushFrame(arena, stack, z.open, r, k);
    }
  }

  lemma {:induction false} PushRoots(arena: seq<Raw>, roots: seq<nat>, stack: seq<nat>, z: Zip, r: Raw)
    requires StandsFor(arena, roots, stack, z) && r.children == []
    requires stack != [] ==> stack[|stack| - 1] < |arena|
    ensures RootsOk(Pushed(arena, stack, r), if stack == [] then roots + [|arena|] else roots, stack + [|arena|],
              z.done)
    ensures var other := Pushed(arena, stack, r); |other| == |arena| + 1 && other[|arena|] == r
  {
    var other, idx := Pushed(arena, stack, r), |arena|;
    hide ToNodes, Ranged;
    if stack == [] {
      RangedStable(arena, other, roots, 0, idx);
      assert (roots + [idx])[..|roots|] == roots;
    } else {
      StackAscends(arena, stack, z.open, 0, |stack| - 1);
      RootsStable(arena, other, roots, stack, z.done, stack[|stack| - 1]);
      assert (stack + [idx])[0] == stack[0];
    }
  }

  /** The frame just pushed has no children. */
  lemma PushedFrame(arena: seq<Raw>, stack: seq<nat>, open: seq<Node>, r: Raw)
    requires stack != [] && |open| == |stack| && r.children == [] && open[|open| - 1] == NodeOf(r, [])
    requires arena != [] && stack[|stack| - 1] == |arena| - 1 && arena[|arena| - 1] == r
    ensures FrameOk(arena, stack, open, |stack| - 1)
  {
  }

  lemma PushedArena(arena: seq<Raw>, stack: seq<nat>, r: Raw)
    requires stack != [] && stack[|stack| - 1] < |arena|
    ensures var other, top := Pushed(arena, stack, r), stack[|stack| - 1];
            && |other| == |arena| + 1 && other[|arena|] == r
            && other[top] == arena[top].(children := arena[top].children + [|arena|])
            && forall i :: 0 <= i < |arena| && i != top ==> other[i] == arena[i]
  {
  }

  lemma {:induction false} PushFrame(arena: seq<Raw>, stack: seq<nat>, open: seq<Node>, r: Raw, k: nat)
    requires k < |stack| == |open| && forall i :: 0 <= i < |stack| ==> FrameOk(arena, stack, open, i)
    requires stack[|stack| - 1] < |arena|
    ensures FrameOk(Pushed(arena, stack, r), stack + [|arena|], open + [NodeOf(r, [])], k)
  {
    PushedArena(arena, stack, r);
    hide Ranged, ToNodes, Pushed;
    var other, last := Pushed(arena, stack, r), |stack| - 1;
    assert FrameOk(arena, stack, open, k);
    if k < last {
      StackAscends(arena, stack, open, k + 1, last);
      FrameStable(arena, other, stack, open, k, stack[last]);
      FrameUnder(other, stack, open, k, |arena|, NodeOf(r, []));
    } else {
      RangedStable(arena, other, arena[stack[k]].children, stack[k] + 1, |arena|);
      FrameOver(arena, other, stack, open, NodeOf(r, []));
    }
  }

  /** The frame around the one pushed lists it, and has no other new child. */
  lemma {:induction false} FrameOver(arena: seq<Raw>, other: seq<Raw>, stack: seq<nat>, open: seq<Node>, n: Node)
    requires stack != [] && |open| == |stack| && FrameOk(arena, stack, open, |stack| - 1) && |other| == |arena| + 1
    requires var top := stack[|stack| - 1];
             && other[top] == arena[top].(children := arena[top].children + [|arena|])
             && Ranged(other, arena[top].children, top + 1, |arena|)
             && ToNodes(other, arena[top].children, top + 1, |arena|) ==
                 ToNodes(arena, arena[top].children, top + 1, |arena|)
    ensures FrameOk(other, stack + [|arena|], open + [n], |stack| - 1)
  {
    hide Ranged, ToNodes;
    var k := |stack| - 1;
    assert Finished(other, stack + [|arena|], k) == arena[stack[k]].children;
  }

  /** A frame under another does not see what is pushed. */
  lemma {:induction false} FrameUnder(arena: seq<Raw>, stack: seq<nat>, open: seq<Node>, k: nat, idx: nat, n: Node)
    requires k + 1 < |stack| == |open| && FrameOk(arena, stack, open, k)
    ensures FrameOk(arena, stack + [idx], open + [n], k)
  {
    hide Ranged, ToNodes, NodeOf;
    assert Finished(arena, stack + [idx], k) == Finished(arena, stack, k);
  }

  /** The open frame's own fields change. */
  lemma {:induction false} SetStands(arena: seq<Raw>, roots: seq<nat>, stack: seq<nat>, z: Zip, r: Raw)
    requires StandsFor(arena, roots, stack, z) && stack != [] && stack[|stack| - 1] < |arena|
    requires r.children == arena[stack[|stack| - 1]].children
    ensures var top := stack[|stack| - 1];
            StandsFor(arena[top := r], roots, stack, SetTop(z, NodeOf(r, Top(z).children)))
  {
    var last := |stack| - 1;
    var top := stack[last];
    var other := arena[top := r];
    var z2 := SetTop(z, NodeOf(r, Top(z).children));
    StackAscends(arena, stack, z.open, 0, last);
    RootsStable(arena, other, roots, stack, z.done, top);
    hide Ranged, ToNodes, RootsOk;
    forall k | 0 <= k < |stack| ensures FrameOk(other, stack, z2.open, k) {
      assert FrameOk(arena, stack, z.open, k);
      if k < last {
        StackAscends(arena, stack, z.open, k + 1, last);
        FrameStable(arena, other, stack, z.open, k, top);
        assert z2.open[k] == z.open[k];
      } else {
        assert Finished(arena, stack, k) == r.children;
        RangedStable(arena, other, r.children, top + 1, |arena|);
      }
    }
  }

  /** The innermost frame leaves the stack. */
  lemma {:induction false} PopStands(arena: seq<Raw>, roots: seq<nat>, stack: seq<nat>, z: Zip)
    requires StandsFor(arena, roots, stack, z) && stack != []
    ensures StandsFor(arena, roots, stack[..|stack| - 1], Close(z))
  {
    var last := |stack| - 1;
    assert FrameOk(arena, stack, z.open, last);
    if last == 0 {
      RangedAppend(arena, roots[..|roots| - 1], 0, stack[0], |arena|);
    } else {
      forall k | 0 <= k < last ensures FrameOk(arena, stack[..last], Close(z).open, k) {
        PopFrame(arena, roots, stack, z, k);
      }
      assert stack[..last][0] == stack[0];
    }
  }

  lemma {:induction false} PopFrame(arena: seq<Raw>, roots: seq<nat>, stack: seq<nat>, z: Zip, k: nat)
    requires StandsFor(arena, roots, stack, z) && k + 1 < |stack|
    ensures FrameOk(arena, stack[..|stack| - 1], Close(z).open, k)
  {
    var rest := stack[..|stack| - 1];
    assert FrameOk(arena, stack, z.open, k);
    if k + 2 == |stack| {
      PopParent(arena, stack, z, k);
    } else {
      assert rest[k] == stack[k] && rest[k + 1] == stack[k + 1] && Close(z).open[k] == z.open[k];
      assert Finished(arena, rest, k) == Finished(arena, stack, k) && Bound(arena, rest, k) == Bound(arena, stack, k);
    }
  }

  lemma CloseInner(z: Zip, k: nat)
    requires |z.open| == k + 2
    ensures |Close(z).open| == k + 1
    ensures Close(z).open[k] == z.open[k].(children := z.open[k].children + [z.open[k + 1]])
  {
  }

  lemma {:induction false} PopParent(arena: seq<Raw>, stack: seq<nat>, z: Zip, k: nat)
    requires |stack| == |z.open| == k + 2 && FrameOk(arena, stack, z.open, k) && FrameOk(arena, stack, z.open, k + 1)
    ensures FrameOk(arena, stack[..k + 1], Close(z).open, k)
  {
    var p, c := stack[k], stack[k + 1];
    CloseInner(z, k);
    hide Close, Ranged, ToNodes;
    assert Finished(arena, stack, k + 1) == arena[c].children;
    RangedAppend(arena, Finished(arena, stack, k), p + 1, c, |arena|);
    assert Finished(arena, stack[..k + 1], k) == arena[p].children == Finished(arena, stack, k) + [c];
  }

  /** With every frame closed, the roots' subtrees are the whole arena in preorder. */
  lemma FinishStands(arena: seq<Raw>, roots: seq<nat>, stack: seq<nat>, z: Zip)
    requires StandsFor(arena, roots, stack, z)
    ensures Ranged(arena, roots, 0, |arena|) && ToNodes(arena, roots, 0, |arena|) == Finish(z)
    decreases |stack|
  {
    if stack != [] {
      PopStands(arena, roots, stack, z);
      FinishStands(arena, roots, stack[..|stack| - 1], Close(z));
    }
  }

  /** `build_tree`: the arena's tree is the plain tree of the log, and its indices are its preorder. */
  method BuildTree(parse: KeyParser, logs: seq<string>) returns (tree: seq<Node>, arena: seq<Raw>, roots: seq<nat>)
    ensures tree == TreeOf(ReadLines(parse, logs))
    ensures Ranged(arena, roots, 0, |arena|) && tree == ToNodes(arena, roots, 0, |arena|)
  {
    arena, roots := [], [];
    var stack: seq<nat> := [];
    ghost var lines := ReadLines(parse, logs);
    for i := 0 to |logs|
      invariant StandsFor(arena, roots, stack, Run(lines[..i]))
    {
      ghost var z := Run(lines[..i]);
      assert lines[..i + 1][..i] == lines[..i];
      arena, roots, stack := TreeStep(arena, roots, stack, ReadLine(parse, logs[i]), z);
    }
    assert lines[..|logs|] == lines;
    FinishStands(arena, roots, stack, Run(lines));
    tree := ToNodes(arena, roots, 0, |arena|);
  }

  /** The innermost open frame is the arena's frame on top of the stack. */
  lemma TopStands(arena: seq<Raw>, roots: seq<nat>, stack: seq<nat>, z: Zip)
    requires StandsFor(arena, roots, stack, z)
    ensures stack == [] <==> z.open == []
    ensures stack != [] ==> stack[|stack| - 1] < |arena| && Top(z) == NodeOf(arena[stack[|stack| - 1]], Top(z).children)
  {
    hide Ranged, ToNodes, RootsOk;
    if stack != [] { assert FrameOk(arena, stack, z.open, |stack| - 1); }
  }

  /** The frame on top with other fields of its own. */
  lemma FieldStands(arena: seq<Raw>, roots: seq<nat>, stack: seq<nat>, z: Zip, r: Raw, n: Node)
    requires StandsFor(arena, roots, stack, z) && stack != [] && stack[|stack| - 1] < |arena|
    requires r.children == arena[stack[|stack| - 1]].children && n == NodeOf(r, Top(z).children)
    ensures StandsFor(arena[stack[|stack| - 1] := r], roots, stack, SetTop(z, n))
  {
    hide *;
    SetStands(arena, roots, stack, z, r);
  }

  /** What the line does to the frame on top, when it does anything. */
  function Marks(line: Line, top: Raw): Option<Raw> {
    match line
    case Named(name) => if top.instruction.None? then Some(top.(instruction := Some(name))) else None
    case Consumed(pid, units) => if top.program == pid then Some(top.(units := Some(units))) else None
    case _ => None
  }

  lemma MarkStands(arena: seq<Raw>, roots: seq<nat>, stack: seq<nat>, z: Zip, line: Line)
    requires StandsFor(arena, roots, stack, z) && (line.Named? || line.Consumed?)
    ensures stack == [] ==> Step(z, line) == z
    ensures stack != [] ==>
              && stack[|stack| - 1] < |arena|
              && match Marks(line, arena[stack[|stack| - 1]])
                 case Some(r) => StandsFor(arena[stack[|stack| - 1] := r], roots, stack, Step(z, line))
                 case None => Step(z, line) == z
  {
    TopStands(arena, roots, stack, z);
    hide StandsFor;
    if stack != [] {
      var r := Marks(line, arena[stack[|stack| - 1]]);
      if r.Some? { FieldStands(arena, roots, stack, z, r.value, NodeOf(r.value, Top(z).children)); }
    }
  }

  lemma EndStands(arena: seq<Raw>, roots: seq<nat>, stack: seq<nat>, z: Zip, line: Line)
    requires StandsFor(arena, roots, stack, z) && (line.Success? || line.Failed?)
    ensures stack == [] ==> Step(z, line) == z
    ensures stack != [] ==>
              var top := stack[|stack| - 1];
              && top < |arena|
              && var ended := if line.Failed? then arena[top := arena[top].(failed := true)] else arena;
                 StandsFor(ended, roots, stack[..|stack| - 1], Step(z, line))
  {
    TopStands(arena, roots, stack, z);
    hide StandsFor, Close;
    if stack != [] {
      if line.Failed? {
        var top := stack[|stack| - 1];
        var r, n := arena[top].(failed := true), Top(z).(failed := true);
        FieldStands(arena, roots, stack, z, r, n);
        PopStands(arena[top := r], roots, stack, SetTop(z, n));
      } else {
        PopStands(arena, roots, stack, z);
      }
    }
  }

  /** One line. */
  method TreeStep(a: seq<Raw>, r: seq<nat>, s: seq<nat>, line: Line, ghost z: Zip)
    returns (arena: seq<Raw>, roots: seq<nat>, stack: seq<nat>)
    requires StandsFor(a, r, s, z)
    ensures StandsFor(arena, roots, stack, Step(z, line))
  {
    hide StandsFor, Close;
    arena, roots, stack := a, r, s;
    TopStands(arena, roots, stack, z);
    var top := if stack == [] then 0 else stack[|stack| - 1];
    match line {
      case Named(name) =>
        MarkStands(arena, roots, stack, z, line);
        if stack != [] && arena[top].instruction.None? {
          arena := arena[top := arena[top].(instruction := Some(name))];
        }
      case Invoke(pid, depth) =>
        PushStands(arena, roots, stack, z, pid, depth);
        var idx := |arena|;
        arena := arena + [Raw(pid, depth, None, None, false, [])];
        if stack != [] {
          arena := arena[top := arena[top].(children := arena[top].children + [idx])];
        } else {
          roots := roots + [idx];
        }
        stack := stack + [idx];
      case Success(_) =>
        EndStands(arena, roots, stack, z, line);
        if stack != [] {
          stack := stack[..|stack| - 1];
        }
      case Failed(_) =>
        EndStands(arena, roots, stack, z, line);
        if stack != [] {
          arena := arena[top := arena[top].(failed := true)];
          stack := stack[..|stack| - 1];
        }
      case Consumed(pid, units) =>
        MarkStands(arena, roots, stack, z, line);
        if stack != [] && arena[top].program == pid {
          arena := arena[top := arena[top].(units := Some(units))];
        }
      case Skip =>
    }
  }

  // --------------------------------------------------------- what it counts

  function Count(nodes: seq<Node>): nat {
    if nodes == [] then 0 else 1 + Count(nodes[0].children) + Count(nodes[1..])
  }

  /** The frames in preorder. */
  function Preorder(nodes: seq<Node>): seq<(Key, nat)> {
    if nodes == [] then []
    else [(nodes[0].program, nodes[0].depth)] + Preorder(nodes[0].children) + Preorder(nodes[1..])
  }

  /** The frames a log opens, in order. */
  function Invoked(lines: seq<Line>): seq<(Key, nat)> {
    if lines == [] then []
    else Invoked(lines[..|lines| - 1]) + match lines[|lines| - 1] case Invoke(pid, depth) => [(pid, depth)] case _ => []
  }

  lemma {:induction false} PreorderAppend(a: seq<Node>, b: seq<Node>)
    ensures Preorder(a + b) == Preorder(a) + Preorder(b)
  {
    if a != [] {
      assert (a + b)[1..] == a[1..] + b;
      PreorderAppend(a[1..], b);
    } else {
      assert a + b == b;
    }
  }

  lemma CountPreorder(nodes: seq<Node>)
    ensures Count(nodes) == |Preorder(nodes)|
  {
    if nodes != [] {
      CountPreorder(nodes[0].children);
      CountPreorder(nodes[1..]);
    }
  }

  function OpenPreorder(open: seq<Node>): seq<(Key, nat)> {
    if open == [] then []
    else [(open[0].program, open[0].depth)] + Preorder(open[0].children) + OpenPreorder(open[1..])
  }

  lemma {:induction false} OpenPreorderLast(open: seq<Node>)
    requires open != []
    ensures var n := open[|open| - 1];
            OpenPreorder(open) == OpenPreorder(open[..|open| - 1]) + ([(n.program, n.depth)] + Preorder(n.children))
  {
    var n, init := open[|open| - 1], open[..|open| - 1];
    var last := [(n.program, n.depth)] + Preorder(n.children);
    if |open| > 1 {
      OpenPreorderLast(open[1..]);
      assert open[1..][..|open| - 2] == init[1..] && open[1..][|open| - 2] == n;
      var head := [(open[0].program, open[0].depth)] + Preorder(open[0].children);
      assert OpenPreorder(open) == head + (OpenPreorder(init[1..]) + last);
      assert OpenPreorder(init) == head + OpenPreorder(init[1..]);
    } else {
      assert OpenPreorder(open[1..]) == [] && OpenPreorder(init) == [];
      assert OpenPreorder(open) == last + [];
    }
  }

  lemma PreorderOne(n: Node)
    ensures Preorder([n]) == [(n.program, n.depth)] + Preorder(n.children)
  {
    assert [n][1..] == [] && Preorder([]) == [];
  }

  /** A frame that ends inside another is listed after that one's other children. */
  lemma {:induction false} InnerPreorder(open: seq<Node>, p: Node, n: Node)
    ensures OpenPreorder(open + [p] + [n]) == OpenPreorder(open + [p.(children := p.children + [n])])
  {
    var q := p.(children := p.children + [n]);
    PreorderOne(n);
    PreorderAppend(p.children, [n]);
    LastPreorder(open + [p], n);
    LastPreorder(open, p);
    LastPreorder(open, q);
    hide Preorder, OpenPreorder;
  }

  lemma LastPreorder(open: seq<Node>, n: Node)
    ensures OpenPreorder(open + [n]) == OpenPreorder(open) + ([(n.program, n.depth)] + Preorder(n.children))
  {
    OpenPreorderLast(open + [n]);
    assert (open + [n])[..|open|] == open;
  }

  lemma {:induction false} ClosePreorder(z: Zip)
    requires z.open != []
    ensures Preorder(Close(z).done) + OpenPreorder(Close(z).open) == Preorder(z.done) + OpenPreorder(z.open)
  {
    var n, rest := Top(z), z.open[..|z.open| - 1];
    assert z.open == rest + [n];
    if rest == [] {
      PreorderOne(n);
      LastPreorder([], n);
      PreorderAppend(z.done, [n]);
      hide Preorder;
      assert OpenPreorder([]) == [] && [] + [n] == [n];
    } else {
      var outer, parent := rest[..|rest| - 1], rest[|rest| - 1];
      assert rest == outer + [parent];
      InnerPreorder(outer, parent, n);
    }
  }

  lemma FinishPreorder(z: Zip)
    ensures Preorder(Finish(z)) == Preorder(z.done) + OpenPreorder(z.open)
    decreases |z.open|
  {
    if z.open != [] {
      ClosePreorder(z);
      FinishPreorder(Close(z));
    }
  }

  lemma {:induction false} SetTopPreorder(z: Zip, n: Node)
    requires z.open != [] && n.program == Top(z).program && n.depth == Top(z).depth && n.children == Top(z).children
    ensures OpenPreorder(SetTop(z, n).open) == OpenPreorder(z.open)
  {
    OpenPreorderLast(z.open);
    OpenPreorderLast(SetTop(z, n).open);
    assert SetTop(z, n).open[..|z.open| - 1] == z.open[..|z.open| - 1];
  }

  lemma {:induction false} RunPreorder(lines: seq<Line>)
    ensures Preorder(Run(lines).done) + OpenPreorder(Run(lines).open) == Invoked(lines)
  {
    if lines != [] {
      var init, l := lines[..|lines| - 1], lines[|lines| - 1];
      RunPreorder(init);
      var z := Run(init);
      match l {
        case Invoke(pid, depth) =>
          OpenPreorderLast(Step(z, l).open);
          assert Step(z, l).open[..|z.open|] == z.open;
          assert Preorder([]) == [];
        case Success(_) => if z.open != [] { ClosePreorder(z); }
        case Failed(_) =>
          if z.open != [] {
            SetTopPreorder(z, Top(z).(failed := true));
            ClosePreorder(SetTop(z, Top(z).(failed := true)));
          }
        case Named(name) => if z.open != [] { SetTopPreorder(z, Top(z).(instruction := Some(name))); }
        case Consumed(pid, units) => if z.open != [] { SetTopPreorder(z, Top(z).(units := Some(units))); }
        case Skip =>
      }
    }
  }

  /** Balanced or cut short, a log's tree has one frame for each invoke line, in preorder. */
  lemma TreePreorder(lines: seq<Line>)
    ensures Preorder(TreeOf(lines)) == Invoked(lines) && Count(TreeOf(lines)) == |Invoked(lines)|
  {
    RunPreorder(lines);
    FinishPreorder(Run(lines));
    CountPreorder(TreeOf(lines));
  }
}
