/** The runtime's log lines, as the call-tree builder (crates/solinv-core/src/trace.rs) and the
    re-entry detector (crates/solinv-core/src/invariants/cpi_reentrancy.rs) each read them. */
module CpiLog {
  import opened Common
  import opened Decimals
  import opened Trimming

  /** A program id, 32 bytes. How it is written is a parameter: `parse` reads one. */
  type Key = k: int | 0 <= k < 0x1_00000000_00000000_00000000_00000000_00000000_00000000_00000000_00000000

  type KeyParser = string -> Option<Key>

  /** What the tree builder makes of one line. */
  datatype Line =
    | Skip
    | Named(name: string)
    | Invoke(pid: Key, depth: nat)
    | Success(pid: Key)
    | Failed(pid: Key)
    | Consumed(pid: Key, units: nat)

  /** What the detector makes of one line. */
  datatype Event = Entered(pid: Key, depth: nat) | Succeeded(pid: Key) | Aborted(pid: Key)

  // ------------------------------------------------------------------- text

  function StripPrefix(s: string, prefix: string): Option<string> {
    if prefix <= s then Some(s[|prefix|..]) else None
  }

  /** The text before and after the first `c`. */
  function SplitOnce(s: string, c: char): Option<(string, string)> {
    if s == "" then None
    else if s[0] == c then Some(("", s[1..]))
    else match SplitOnce(s[1..], c)
      case Some((a, b)) => Some(([s[0]] + a, b))
      case None => None
  }

  /** The first word of a text, by white space. */
  function FirstWord(s: string): string {
    UpToWhite(TrimStart(s))
  }

  function UpToWhite(s: string): string {
    if s == "" || IsWhite(s[0]) then "" else [s[0]] + UpToWhite(s[1..])
  }

  /** `parse::<u32>()` and `parse::<u64>()`. */
  function ParseBounded(s: string, bound: nat): Option<nat> {
    match Written(s, false)
    case Some(v) => if v < bound then Some(v) else None
    case None => None
  }

  const TWO32: nat := 0x1_0000_0000
  const TWO64: nat := 0x1_0000_0000_0000_0000

  // ---------------------------------------------------------- the two readers

  /** `invoke [N]` */
  function InvokeDepth(tail: string): Option<nat> {
    match StripPrefix(tail, "invoke [")
    case None => None
    case Some(s) => if s != "" && s[|s| - 1] == ']' then ParseBounded(s[..|s| - 1], TWO32) else None
  }

  /** `consumed N of M compute units` */
  function ConsumedUnits(tail: string): Option<nat> {
    match StripPrefix(tail, "consumed ")
    case None => None
    case Some(s) => if FirstWord(s) == "" then None else ParseBounded(FirstWord(s), TWO64)
  }

  function ReadLine(parse: KeyParser, line: string): Line {
    match StripPrefix(Trim(line), "Program ")
    case None => Skip
    case Some(rest) =>
      match StripPrefix(rest, "log: ")
      case Some(msg) =>
        (match StripPrefix(msg, "Instruction: ")
         case Some(name) => Named(Trim(name))
         case None => Skip)
      case None => ReadProgramLine(parse, rest)
  }

  function ReadProgramLine(parse: KeyParser, rest: string): Line {
    match SplitOnce(rest, ' ')
    case None => Skip
    case Some((id, tail)) =>
      match parse(id)
      case None => Skip
      case Some(pid) =>
        if InvokeDepth(tail).Some? then Invoke(pid, InvokeDepth(tail).value)
        else if tail == "success" then Success(pid)
        else if "failed" <= tail then Failed(pid)
        else if ConsumedUnits(tail).Some? then Consumed(pid, ConsumedUnits(tail).value)
        else Skip
  }

  function ReadEvent(parse: KeyParser, line: string): Option<Event> {
    match StripPrefix(Trim(line), "Program ")
    case None => None
    case Some(rest) =>
      match SplitOnce(rest, ' ')
      case None => None
      case Some((id, tail)) =>
        match parse(id)
        case None => None
        case Some(pid) =>
          match StripPrefix(tail, "invoke [")
          case Some(s) =>
            if s != "" && s[|s| - 1] == ']' && ParseBounded(s[..|s| - 1], TWO32).Some?
            then Some(Entered(pid, ParseBounded(s[..|s| - 1], TWO32).value)) else None
          case None =>
            if tail == "success" then Some(Succeeded(pid))
            else if "failed" <= tail then Some(Aborted(pid))
            else None
  }

  /** The detector's part of what the builder reads. */
  function EventOf(l: Line): Option<Event> {
    match l
    case Invoke(pid, depth) => Some(Entered(pid, depth))
    case Success(pid) => Some(Succeeded(pid))
    case Failed(pid) => Some(Aborted(pid))
    case _ => None
  }

  /** The two readers agree on every line, whatever its text: all that is asked of the id parser
      is that `log:` is not an id. */
  lemma ReadersAgree(parse: KeyParser, line: string)
    requires parse("log:") == None
    ensures ReadEvent(parse, line) == EventOf(ReadLine(parse, line))
  {
    var t := Trim(line);
    if "Program " <= t {
      var rest := t[8..];
      if "log: " <= rest {
        LogSplits(rest);
      } else if SplitOnce(rest, ' ').Some? {
        var tail := SplitOnce(rest, ' ').value.1;
        if "invoke [" <= tail {
          assert tail[0] == 'i';
          assert "success"[0] == 's' && "failed"[0] == 'f' && "consumed "[0] == 'c';
        }
      }
    }
  }

  lemma LogSplits(rest: string)
    requires "log: " <= rest
    ensures SplitOnce(rest, ' ') == Some(("log:", rest[5..]))
  {
    SplitOnceAt("log:", rest[5..], ' ');
    assert rest == "log:" + [' '] + rest[5..];
  }

  lemma SplitOnceAt(a: string, b: string, c: char)
    requires c !in a
    ensures SplitOnce(a + [c] + b, c) == Some((a, b))
  {
    if a != "" {
      SplitOnceAt(a[1..], b, c);
      assert (a + [c] + b)[1..] == a[1..] + [c] + b;
      assert a == [a[0]] + a[1..];
    } else {
      assert (a + [c] + b)[1..] == b;
    }
  }

  /** The lines of a log, read. */
  function ReadLines(parse: KeyParser, logs: seq<string>): (r: seq<Line>)
    ensures |r| == |logs| && forall i :: 0 <= i < |logs| ==> r[i] == ReadLine(parse, logs[i])
  {
    seq(|logs|, i requires 0 <= i < |logs| => ReadLine(parse, logs[i]))
  }

  function EventsOf(lines: seq<Line>): seq<Event> {
    if lines == [] then []
    else EventsOf(lines[..|lines| - 1]) + match EventOf(lines[|lines| - 1]) case Some(e) => [e] case None => []
  }

  /** The events of a log are the events of the lines the tree builder reads. */
  method ParseCpiEvents(parse: KeyParser, logs: seq<string>) returns (out: seq<Event>)
    requires parse("log:") == None
    ensures out == EventsOf(ReadLines(parse, logs))
  {
    out := [];
    ghost var lines := ReadLines(parse, logs);
    for i := 0 to |logs|
      invariant out == EventsOf(lines[..i])
    {
      ReadersAgree(parse, logs[i]);
      assert lines[..i + 1][..i] == lines[..i];
      var e := ReadEvent(parse, logs[i]);
      if e.Some? {
        out := out + [e.value];
      }
    }
    assert lines[..|logs|] == lines;
  }
}
