/** Printing a forest of frames as the runtime logs it, and reading it back. */
module CpiPrint {
  import opened Common
  import opened Decimals
  import opened CpiLog
  import opened Trimming
  import opened CpiTree

  /** The lines of one frame: invoke, instruction name, children, units consumed, outcome. */
  function LinesOf(nodes: seq<Node>): seq<Line> {
    if nodes == [] then []
    else
      var n := nodes[0];
      [Invoke(n.program, n.depth)]
      + (if n.instruction.Some? then [Named(n.instruction.value)] else [])
      + LinesOf(n.children)
      + (if n.units.Some? then [Consumed(n.program, n.units.value)] else [])
      + [if n.failed then Failed(n.program) else Success(n.program)]
      + LinesOf(nodes[1..])
  }

  predicate Plain(nodes: seq<Node>) {
    nodes != [] ==> nodes[0].note.None? && Plain(nodes[0].children) && Plain(nodes[1..])
  }

  function StepAll(z: Zip, lines: seq<Line>): Zip
    decreases |lines|
  {
    if lines == [] then z else StepAll(Step(z, lines[0]), lines[1..])
  }

  lemma StepAllAppend(z: Zip, a: seq<Line>, b: seq<Line>)
    ensures StepAll(z, a + b) == StepAll(StepAll(z, a), b)
    decreases |a|
  {
    if a != [] {
      assert (a + b)[1..] == a[1..] + b;
      StepAllAppend(Step(z, a[0]), a[1..], b);
    } else {
      assert a + b == b;
    }
  }

  lemma StepOne(z: Zip, l: Line)
    ensures StepAll(z, [l]) == Step(z, l)
  {
    assert [l][1..] == [];
  }

  lemma {:induction false} RunStepAll(lines: seq<Line>)
    ensures Run(lines) == StepAll(Zip([], []), lines)
  {
    if lines != [] {
      var init, l := lines[..|lines| - 1], lines[|lines| - 1];
      RunStepAll(init);
      assert lines == init + [l];
      StepAllAppend(Zip([], []), init, [l]);
      StepOne(Run(init), l);
    }
  }

  /** Finished frames under the innermost open one, or at the top level. */
  function Add(z: Zip, nodes: seq<Node>): Zip {
    if z.open == [] then Zip(z.done + nodes, []) else SetTop(z, Top(z).(children := Top(z).children + nodes))
  }

  lemma AddAdd(z: Zip, a: seq<Node>, b: seq<Node>)
    ensures Add(Add(z, a), b) == Add(z, a + b)
  {
    if z.open != [] {
      assert Top(z).children + a + b == Top(z).children + (a + b);
    } else {
      assert z.done + a + b == z.done + (a + b);
    }
  }

  /** Reading the printed lines adds the printed frames, whatever is open. */
  lemma {:induction false} LinesAdd(z: Zip, nodes: seq<Node>)
    requires Plain(nodes)
    ensures StepAll(z, LinesOf(nodes)) == Add(z, nodes)
    decreases nodes, 0
  {
    if nodes == [] {
      if z.open != [] {
        assert Top(z).children + [] == Top(z).children;
        assert z.open[..|z.open| - 1] + [Top(z)] == z.open;
      } else {
        assert z.done + [] == z.done;
      }
    } else {
      var n := nodes[0];
      var name := if n.instruction.Some? then [Named(n.instruction.value)] else [];
      var units := if n.units.Some? then [Consumed(n.program, n.units.value)] else [];
      var outcome := if n.failed then Failed(n.program) else Success(n.program);
      var first := [Invoke(n.program, n.depth)] + name + LinesOf(n.children) + units + [outcome];
      assert LinesOf(nodes) == first + LinesOf(nodes[1..]);
      StepAllAppend(z, first, LinesOf(nodes[1..]));
      FrameAdds(z, n, name, units, outcome);
      LinesAdd(Add(z, [n]), nodes[1..]);
      AddAdd(z, [n], nodes[1..]);
      assert [n] + nodes[1..] == nodes;
    }
  }

  /** `z` with the frame `n` open inside. */
  function Opened(z: Zip, n: Node): Zip { Zip(z.done, z.open + [n]) }

  lemma NameStep(z: Zip, n: Node, name: seq<Line>)
    requires name == if n.instruction.Some? then [Named(n.instruction.value)] else []
    ensures var f := Fresh(n.program, n.depth);
            StepAll(Opened(z, f), name) == Opened(z, f.(instruction := n.instruction))
  {
    if n.instruction.Some? { StepOne(Opened(z, Fresh(n.program, n.depth)), name[0]); }
  }

  lemma UnitsStep(z: Zip, n: Node, units: seq<Line>)
    requires units == if n.units.Some? then [Consumed(n.program, n.units.value)] else []
    ensures StepAll(Opened(z, n.(units := None, failed := false)), units) == Opened(z, n.(failed := false))
  {
    if n.units.Some? { StepOne(Opened(z, n.(units := None, failed := false)), units[0]); }
  }

  lemma OutcomeStep(z: Zip, n: Node, outcome: Line)
    requires outcome == if n.failed then Failed(n.program) else Success(n.program)
    ensures Step(Opened(z, n.(failed := false)), outcome) == Add(z, [n])
  {
    assert SetTop(Opened(z, n.(failed := false)), n) == Opened(z, n);
    assert Opened(z, n).open[..|z.open|] == z.open;
    assert Close(Opened(z, n)) == Add(z, [n]);
  }

  lemma {:induction false} FrameAdds(z: Zip, n: Node, name: seq<Line>, units: seq<Line>, outcome: Line)
    requires n.note.None? && Plain(n.children)
    requires name == if n.instruction.Some? then [Named(n.instruction.value)] else []
    requires units == if n.units.Some? then [Consumed(n.program, n.units.value)] else []
    requires outcome == if n.failed then Failed(n.program) else Success(n.program)
    ensures StepAll(z, [Invoke(n.program, n.depth)] + name + LinesOf(n.children) + units + [outcome]) == Add(z, [n])
    decreases n.children, 1
  {
    var enter, kids := [Invoke(n.program, n.depth)], LinesOf(n.children);
    var named := Fresh(n.program, n.depth).(instruction := n.instruction);
    StepAllAppend(z, enter + name + kids + units, [outcome]);
    StepAllAppend(z, enter + name + kids, units);
    StepAllAppend(z, enter + name, kids);
    StepAllAppend(z, enter, name);
    StepOne(z, enter[0]);
    NameStep(z, n, name);
    LinesAdd(Opened(z, named), n.children);
    assert named.children + n.children == n.children;
    assert Add(Opened(z, named), n.children) == Opened(z, n.(units := None, failed := false));
    UnitsStep(z, n, units);
    StepOne(Opened(z, n.(failed := false)), outcome);
    OutcomeStep(z, n, outcome);
  }

  /** The plain tree of a printed forest is the forest. */
  lemma TreeOfLines(nodes: seq<Node>)
    requires Plain(nodes)
    ensures TreeOf(LinesOf(nodes)) == nodes
  {
    RunStepAll(LinesOf(nodes));
    LinesAdd(Zip([], []), nodes);
    assert [] + nodes == nodes;
  }

  // ------------------------------------------------------------------- text

  /** How program ids are written and read. */
  ghost predicate WritesKeys(parse: KeyParser, show: Key -> string) {
    && parse("log:") == None
    && forall k: Key :: parse(show(k)) == Some(k) && ' ' !in show(k)
  }

  function TextOf(show: Key -> string, reason: string, l: Line): string {
    match l
    case Invoke(pid, depth) => "Program " + (show(pid) + " " + ("invoke [" + (Show(depth) + "]")))
    case Named(name) => "Program " + ("log: " + ("Instruction: " + name))
    case Consumed(pid, units) => "Program " + (show(pid) + " " +
        ("consumed " + (Show(units) + " of 200000 compute units")))
    case Success(pid) => "Program " + (show(pid) + " " + "success")
    case Failed(pid) => "Program " + (show(pid) + " " + ("failed: " + reason))
    case Skip => ""
  }

  /** What a log line can say: 32-bit depths, 64-bit units, and a name that is some text with no
      white space around it. */
  predicate Sayable(l: Line) {
    match l
    case Invoke(_, depth) => depth < TWO32
    case Named(name) => name != "" && !IsWhite(name[0]) && !IsWhite(name[|name| - 1])
    case Consumed(_, units) => units < TWO64
    case Skip => false
    case _ => true
  }

  lemma TrimEndKeeps(a: string, b: string)
    requires a != "" && !IsWhite(a[|a| - 1])
    ensures a <= TrimEnd(a + b) && (b == "" ==> TrimEnd(a + b) == a)
  {
    if b != "" {
      if IsWhite((a + b)[|a + b| - 1]) {
        assert (a + b)[..|a + b| - 1] == a + b[..|b| - 1];
        TrimEndKeeps(a, b[..|b| - 1]);
      }
    } else {
      assert a + b == a;
    }
  }

  lemma TrimKeeps(a: string, b: string)
    requires a != "" && !IsWhite(a[0]) && !IsWhite(a[|a| - 1])
    ensures a <= Trim(a + b) && Trim(a) == a
  {
    TrimEndKeeps(a, b);
    TrimEndKeeps(a, "");
    assert a + "" == a;
  }

  /** A program line after its id. */
  lemma ProgramLine(parse: KeyParser, show: Key -> string, pid: Key, tail: string)
    requires WritesKeys(parse, show) && tail != ""
    ensures var rest := show(pid) + " " + tail;
            SplitOnce(rest, ' ') == Some((show(pid), tail)) && StripPrefix(rest, "log: ") == None
  {
    var rest := show(pid) + " " + tail;
    SplitOnceAt(show(pid), tail, ' ');
    assert show(pid) + [' '] + tail == rest;
    if "log: " <= rest {
      LogSplits(rest);
    }
  }

  lemma Strip(prefix: string, rest: string)
    ensures StripPrefix(prefix + rest, prefix) == Some(rest)
  {
  }

  lemma InvokeReads(depth: nat)
    requires depth < TWO32
    ensures InvokeDepth("invoke [" + (Show(depth) + "]")) == Some(depth)
  {
    Strip("invoke [", Show(depth) + "]");
    assert (Show(depth) + "]")[..|Show(depth)|] == Show(depth);
    WrittenShow(depth);
  }

  lemma {:induction false} DigitsWord(s: string, rest: string)
    requires (forall i :: 0 <= i < |s| ==> IsDigit(s[i])) && rest != "" && IsWhite(rest[0])
    ensures UpToWhite(s + rest) == s
  {
    if s != "" {
      assert IsDigit(s[0]) && (s + rest)[1..] == s[1..] + rest;
      DigitsWord(s[1..], rest);
    } else {
      assert s + rest == rest;
    }
  }

  lemma ConsumedReads(units: nat)
    requires units < TWO64
    ensures var tail := "consumed " + (Show(units) + " of 200000 compute units");
            ConsumedUnits(tail) == Some(units) && InvokeDepth(tail) == None && tail != "success" && !("failed" <= tail)
  {
    var rest := " of 200000 compute units";
    Strip("consumed ", Show(units) + rest);
    assert IsDigit(Show(units)[0]) && (Show(units) + rest)[0] == Show(units)[0];
    DigitsWord(Show(units), rest);
    WrittenShow(units);
    var tail := "consumed " + (Show(units) + rest);
    assert tail[0] == 'c' && "success"[0] == 's' && "failed"[0] == 'f' && "invoke ["[0] == 'i';
  }

  /** What a program line says after its id. */
  function TailLine(pid: Key, tail: string): Line {
    if InvokeDepth(tail).Some? then Invoke(pid, InvokeDepth(tail).value)
    else if tail == "success" then Success(pid)
    else if "failed" <= tail then Failed(pid)
    else if ConsumedUnits(tail).Some? then Consumed(pid, ConsumedUnits(tail).value)
    else Skip
  }

  /** A program line whose text after the id is `tail`, up to white space at the end. */
  lemma {:induction false} TailReads(parse: KeyParser, show: Key -> string, pid: Key, tail: string, line: string)
    requires WritesKeys(parse, show) && tail != ""
    requires Trim(line) == "Program " + (show(pid) + " " + tail)
    ensures ReadLine(parse, line) == TailLine(pid, tail)
  {
    var rest := show(pid) + " " + tail;
    Strip("Program ", rest);
    ProgramLine(parse, show, pid, tail);
    assert ReadProgramLine(parse, rest) == TailLine(pid, tail);
  }

  lemma {:induction false} WholeTailReads(parse: KeyParser, show: Key -> string, pid: Key, tail: string)
    requires WritesKeys(parse, show) && tail != "" && !IsWhite(tail[|tail| - 1])
    ensures ReadLine(parse, "Program " + (show(pid) + " " + tail)) == TailLine(pid, tail)
  {
    var line := "Program " + (show(pid) + " " + tail);
    TrimKeeps(line, "");
    TailReads(parse, show, pid, tail, line);
  }

  lemma {:induction false} NameReads(parse: KeyParser, name: string)
    requires Sayable(Named(name))
    ensures ReadLine(parse, "Program " + ("log: " + ("Instruction: " + name))) == Named(name)
  {
    var msg := "Instruction: " + name;
    var rest := "log: " + msg;
    TrimKeeps("Program " + rest, "");
    TrimKeeps(name, "");
    Strip("Program ", rest);
    Strip("log: ", msg);
    Strip("Instruction: ", name);
  }

  /** A printed line is read as what it says. */
  lemma {:induction false} TextReads(parse: KeyParser, show: Key -> string, reason: string, l: Line)
    requires WritesKeys(parse, show) && Sayable(l)
    ensures ReadLine(parse, TextOf(show, reason, l)) == l
  {
    match l
    case Named(name) => NameReads(parse, name);
    case Invoke(pid, depth) =>
      WholeTailReads(parse, show, pid, "invoke [" + (Show(depth) + "]"));
      InvokeReads(depth);
    case Consumed(pid, units) =>
      WholeTailReads(parse, show, pid, "consumed " + (Show(units) + " of 200000 compute units"));
      ConsumedReads(units);
    case Success(pid) =>
      WholeTailReads(parse, show, pid, "success");
      assert "success"[0] == 's' && "invoke ["[0] == 'i';
    case Failed(pid) => FailedReads(parse, show, reason, pid);
  }

  lemma {:induction false} FailedReads(parse: KeyParser, show: Key -> string, reason: string, pid: Key)
    requires WritesKeys(parse, show)
    ensures ReadLine(parse, TextOf(show, reason, Failed(pid))) == Failed(pid)
  {
    var text := TextOf(show, reason, Failed(pid));
    var head := "Program " + (show(pid) + " " + "failed");
    assert text == head + (": " + reason);
    TrimKeeps(head, ": " + reason);
    var tail := "failed" + Trim(text)[|head|..];
    assert Trim(text) == "Program " + (show(pid) + " " + tail);
    TailReads(parse, show, pid, tail, text);
    assert tail[0] == 'f' && "success"[0] == 's' && "invoke ["[0] == 'i';
    assert "failed" <= tail;
  }

  predicate SayableAll(nodes: seq<Node>) {
    nodes != [] ==>
      && nodes[0].depth < TWO32 && (nodes[0].units.Some? ==> nodes[0].units.value < TWO64)
      && (nodes[0].instruction.Some? ==> Sayable(Named(nodes[0].instruction.value)))
      && SayableAll(nodes[0].children) && SayableAll(nodes[1..])
  }

  lemma {:induction false} SayableLines(nodes: seq<Node>)
    requires SayableAll(nodes)
    ensures forall l :: l in LinesOf(nodes) ==> Sayable(l)
  {
    if nodes != [] {
      SayableLines(nodes[0].children);
      SayableLines(nodes[1..]);
    }
  }

  /** The log of a forest. */
  function Print(show: Key -> string, reason: string, nodes: seq<Node>): (r: seq<string>)
    ensures |r| == |LinesOf(nodes)|
    ensures forall i :: 0 <= i < |r| ==> r[i] == TextOf(show, reason, LinesOf(nodes)[i])
  {
    var lines := LinesOf(nodes);
    seq(|lines|, i requires 0 <= i < |lines| => TextOf(show, reason, lines[i]))
  }

  /** Building the tree of a printed forest gives the forest back. */
  lemma PrintRoundTrip(parse: KeyParser, show: Key -> string, reason: string, nodes: seq<Node>)
    requires WritesKeys(parse, show) && Plain(nodes) && SayableAll(nodes)
    ensures TreeOf(ReadLines(parse, Print(show, reason, nodes))) == nodes
  {
    var lines := LinesOf(nodes);
    SayableLines(nodes);
    forall i | 0 <= i < |lines| ensures ReadLine(parse, TextOf(show, reason, lines[i])) == lines[i] {
      assert lines[i] in lines;
      TextReads(parse, show, reason, lines[i]);
    }
    assert ReadLines(parse, Print(show, reason, nodes)) == lines;
    TreeOfLines(nodes);
  }
}
