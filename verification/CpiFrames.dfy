/** What one frame of the call tree records of the lines logged inside it
    (crates/solinv-core/src/trace.rs, `build_tree`): the first name given to it, the last units it
    says it consumed, the frames it called, and how it ended. */
module CpiFrames {
  import opened Common
  import opened CpiLog
  import opened CpiTree
  import opened CpiPrint

  /** Inside a frame: a line of its own, or a whole call it made. */
  datatype Item = Says(l: Line) | Calls(child: Node)

  /** Only a name, units or a line that says neither is a frame's own. */
  predicate IsItem(item: Item) {
    match item
    case Says(l) => l.Named? || l.Consumed? || l.Skip?
    case Calls(child) => Plain([child])
  }

  function ItemLines(items: seq<Item>): seq<Line> {
    if items == [] then []
    else
      ItemLines(items[..|items| - 1])
      + match items[|items| - 1] case Says(l) => [l] case Calls(child) => LinesOf([child])
  }

  function Called(items: seq<Item>): seq<Node> {
    if items == [] then []
    else
      Called(items[..|items| - 1])
      + match items[|items| - 1] case Says(_) => [] case Calls(child) => [child]
  }

  predicate IsName(item: Item) { item.Says? && item.l.Named? }

  predicate IsUnits(item: Item, pid: Key) { item.Says? && item.l.Consumed? && item.l.pid == pid }

  /** The first name among the items, if there is one. */
  ghost predicate NamedFirst(items: seq<Item>, name: Option<string>) {
    match name
    case None => forall i :: 0 <= i < |items| ==> !IsName(items[i])
    case Some(x) =>
      exists i :: 0 <= i < |items| && items[i] == Says(Named(x)) && forall j :: 0 <= j < i ==> !IsName(items[j])
  }

  /** The last units of the frame's own program, if there are any. */
  ghost predicate ConsumedLast(items: seq<Item>, pid: Key, units: Option<nat>) {
    match units
    case None => forall i :: 0 <= i < |items| ==> !IsUnits(items[i], pid)
    case Some(u) =>
      exists i :: 0 <= i < |items| && items[i] == Says(Consumed(pid, u)) &&
        forall j :: i < j < |items| ==> !IsUnits(items[j], pid)
  }

  /** `n` is what a frame of `pid` at `depth` has recorded of `items`. */
  ghost predicate Records(n: Node, pid: Key, depth: nat, items: seq<Item>) {
    && n.program == pid && n.depth == depth && n.note.None? && n.children == Called(items)
    && NamedFirst(items, n.instruction) && ConsumedLast(items, pid, n.units)
  }

  lemma {:induction false} NameMore(items: seq<Item>, item: Item, name: Option<string>)
    requires NamedFirst(items, name)
    ensures NamedFirst(items + [item], if name.None? && IsName(item) then Some(item.l.name) else name)
  {
    var all := items + [item];
    if name.Some? {
      var i :| 0 <= i < |items| && items[i] == Says(Named(name.value)) && forall j :: 0 <= j < i ==> !IsName(items[j]);
      assert all[i] == items[i];
    } else if IsName(item) {
      assert all[|items|] == Says(Named(item.l.name));
    }
  }

  lemma {:induction false} UnitsMore(items: seq<Item>, item: Item, pid: Key, units: Option<nat>)
    requires ConsumedLast(items, pid, units)
    ensures ConsumedLast(items + [item], pid, if IsUnits(item, pid) then Some(item.l.units) else units)
  {
    var all := items + [item];
    if IsUnits(item, pid) {
      assert all[|items|] == Says(Consumed(pid, item.l.units));
    } else if units.Some? {
      var i :| 0 <= i < |items| && items[i] == Says(Consumed(pid, units.value)) &&
        forall j :: i < j < |items| ==> !IsUnits(items[j], pid);
      assert all[i] == items[i];
    }
  }

  /** What the frame `n`, still open, has after one more item. */
  function After(n: Node, item: Item): Node {
    match item
    case Calls(child) => n.(children := n.children + [child])
    case Says(Named(x)) => if n.instruction.None? then n.(instruction := Some(x)) else n
    case Says(Consumed(pid, u)) => if pid == n.program then n.(units := Some(u)) else n
    case Says(_) => n
  }

  lemma {:induction false} ItemStep(z: Zip, n: Node, item: Item)
    requires IsItem(item)
    ensures StepAll(Opened(z, n), match item case Says(l) => [l] case Calls(child) => LinesOf([child])) ==
            Opened(z, After(n, item))
  {
    var o := Opened(z, n);
    assert o.open[..|z.open|] == z.open;
    match item
    case Says(l) => StepOne(o, l);
    case Calls(child) => LinesAdd(o, [child]);
  }

  lemma {:induction false} RecordsMore(n: Node, pid: Key, depth: nat, items: seq<Item>, item: Item)
    requires Records(n, pid, depth, items) && IsItem(item)
    ensures Records(After(n, item), pid, depth, items + [item])
  {
    NameMore(items, item, n.instruction);
    UnitsMore(items, item, pid, n.units);
    assert (items + [item])[..|items|] == items;
    hide NamedFirst, ConsumedLast;
    assert n.children + [] == n.children;
  }

  lemma {:induction false} ItemsRecorded(z: Zip, pid: Key, depth: nat, items: seq<Item>) returns (n: Node)
    requires forall i :: 0 <= i < |items| ==> IsItem(items[i])
    ensures StepAll(Opened(z, Fresh(pid, depth)), ItemLines(items)) == Opened(z, n)
    ensures Records(n, pid, depth, items) && !n.failed
  {
    if items == [] {
      n := Fresh(pid, depth);
    } else {
      var init, item := items[..|items| - 1], items[|items| - 1];
      var m := ItemsRecorded(z, pid, depth, init);
      StepAllAppend(Opened(z, Fresh(pid, depth)), ItemLines(init),
        match item case Says(l) => [l] case Calls(child) => LinesOf([child]));
      ItemStep(z, m, item);
      RecordsMore(m, pid, depth, init, item);
      hide Records, StepAll, LinesOf;
      assert init + [item] == items;
      n := After(m, item);
    }
  }

  /** The lines of a whole call, logged anywhere, add one frame: it has the first name among the lines
      of its own and no later one, the last units its own program says, whatever other programs say,
      the calls made in order, and is failed exactly when its outcome is. */
  lemma {:induction false} FrameRecords(z: Zip, pid: Key, depth: nat, items: seq<Item>, outcome: Line)
    requires forall i :: 0 <= i < |items| ==> IsItem(items[i])
    requires outcome.Success? || outcome.Failed?
    ensures exists n :: StepAll(z, [Invoke(pid, depth)] + ItemLines(items) + [outcome]) == Add(z, [n]) &&
                        Records(n, pid, depth, items) && n.failed == outcome.Failed?
  {
    var o := Opened(z, Fresh(pid, depth));
    StepAllAppend(z, [Invoke(pid, depth)] + ItemLines(items), [outcome]);
    StepAllAppend(z, [Invoke(pid, depth)], ItemLines(items));
    StepOne(z, Invoke(pid, depth));
    var n := ItemsRecorded(z, pid, depth, items);
    StepOne(Opened(z, n), outcome);
    CloseOpened(z, n);
    var m := if outcome.Failed? then n.(failed := true) else n;
    CloseOpened(z, m);
    assert SetTop(Opened(z, n), m) == Opened(z, m) by { assert Opened(z, n).open[..|z.open|] == z.open; }
    assert Records(m, pid, depth, items);
  }

  lemma CloseOpened(z: Zip, n: Node)
    ensures Close(Opened(z, n)) == Add(z, [n])
  {
    assert Opened(z, n).open[..|z.open|] == z.open;
  }
}
