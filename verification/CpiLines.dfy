/** What the readers of a CPI log take each line to say, by the text of the line alone. */
module CpiLines {
  import opened Common
  import opened Decimals
  import opened Trimming
  import opened CpiLog

  /** Trimmed, the line is `Program <id> <tail>`, and the id is that of `pid`. */
  predicate Says(parse: KeyParser, line: string, id: string, pid: Key, tail: string) {
    ' ' !in id && parse(id) == Some(pid) && Trim(line) == "Program " + id + " " + tail
  }

  /** `text` starts, after any white space, with the word `word`. */
  predicate StartsWith(text: string, space: string, word: string, more: string) {
    && text == space + word + more
    && Blank(space) && (forall c :: c in word ==> !IsWhite(c))
    && (more == "" || IsWhite(more[0]))
  }

  lemma {:induction false} SplitBack(s: string, c: char)
    ensures match SplitOnce(s, c)
            case Some((a, b)) => c !in a && s == a + [c] + b
            case None => c !in s
  {
    if s != "" && s[0] != c { SplitBack(s[1..], c); }
  }

  lemma SplitsOnce(rest: string, id: string, tail: string)
    ensures SplitOnce(rest, ' ') == Some((id, tail)) <==> ' ' !in id && rest == id + [' '] + tail
  {
    SplitBack(rest, ' ');
    if ' ' !in id && rest == id + [' '] + tail { SplitOnceAt(id, tail, ' '); }
  }

  lemma Prefixed(t: string, rest: string)
    ensures t == "Program " + rest <==> "Program " <= t && t[8..] == rest
  {
  }

  lemma SaysSplits(parse: KeyParser, line: string, id: string, pid: Key, tail: string)
    requires parse("log:") == None
    ensures Says(parse, line, id, pid, tail) <==>
              && StripPrefix(Trim(line), "Program ").Some?
              && SplitOnce(Trim(line)[8..], ' ') == Some((id, tail)) && parse(id) == Some(pid)
              && !("log: " <= Trim(line)[8..])
  {
    hide Trim, SplitOnce;
    var t, rest := Trim(line), id + [' '] + tail;
    assert "Program " + id + " " + tail == "Program " + rest;
    Prefixed(t, rest);
    if "Program " <= t {
      SplitsOnce(t[8..], id, tail);
      if "log: " <= t[8..] { LogSplits(t[8..]); }
    }
  }

  /** What a line says of a program is read off what follows the id. */
  function OfTail(pid: Key, tail: string): Line {
    if InvokeDepth(tail).Some? then Invoke(pid, InvokeDepth(tail).value)
    else if tail == "success" then Success(pid)
    else if "failed" <= tail then Failed(pid)
    else if ConsumedUnits(tail).Some? then Consumed(pid, ConsumedUnits(tail).value)
    else Skip
  }

  ghost predicate SaysSome(parse: KeyParser, line: string, pid: Key, l: Line) {
    exists id, tail :: Says(parse, line, id, pid, tail) && OfTail(pid, tail) == l
  }

  lemma {:induction false} ReadTail(parse: KeyParser, line: string, pid: Key, l: Line)
    requires parse("log:") == None
    requires l.Invoke? || l.Success? || l.Failed? || l.Consumed?
    requires l.pid == pid
    ensures ReadLine(parse, line) == l <==> SaysSome(parse, line, pid, l)
  {
    hide Trim, InvokeDepth, ConsumedUnits;
    var t := Trim(line);
    if ReadLine(parse, line) == l {
      var (id, tail) := SplitOnce(t[8..], ' ').value;
      SaysSplits(parse, line, id, pid, tail);
      assert Says(parse, line, id, pid, tail);
    }
    if SaysSome(parse, line, pid, l) {
      var id, tail :| Says(parse, line, id, pid, tail) && OfTail(pid, tail) == l;
      SaysSplits(parse, line, id, pid, tail);
    }
  }

  /** `invoke [<depth>]`, the depth a `u32`. */
  ghost predicate Opens(tail: string, depth: nat) {
    exists digits :: tail == "invoke [" + digits + "]" && Written(digits, false) == Some(depth) && depth < 4294967296
  }

  lemma OpensDepth(tail: string, depth: nat)
    ensures InvokeDepth(tail) == Some(depth) <==> Opens(tail, depth)
  {
    hide Written;
    if InvokeDepth(tail) == Some(depth) {
      var digits := tail[8..][..|tail| - 9];
      assert tail == "invoke [" + digits + "]";
    }
    if Opens(tail, depth) {
      var digits :| tail == "invoke [" + digits + "]" && Written(digits, false) == Some(depth) && depth < 4294967296;
      assert "invoke [" <= tail && tail[8..] == digits + "]";
      assert tail[8..][..|tail| - 9] == digits;
    }
  }

  /** A line opens a frame iff it says `invoke` and a depth. */
  lemma InvokeExact(parse: KeyParser, line: string, pid: Key, depth: nat)
    requires parse("log:") == None
    ensures ReadLine(parse, line) == Invoke(pid, depth) <==>
              exists id, tail :: Says(parse, line, id, pid, tail) && Opens(tail, depth)
  {
    ReadTail(parse, line, pid, Invoke(pid, depth));
    hide Says, InvokeDepth, ReadLine, ConsumedUnits, Opens;
    forall tail ensures OfTail(pid, tail) == Invoke(pid, depth) <==> Opens(tail, depth) {
      OpensDepth(tail, depth);
    }
  }

  lemma NotOpens(tail: string)
    requires tail != "" && tail[0] != 'i'
    ensures InvokeDepth(tail) == None
  {
    assert "invoke ["[0] == 'i';
  }

  /** A line closes a frame as done iff it says `success` and nothing more. */
  lemma SuccessExact(parse: KeyParser, line: string, pid: Key)
    requires parse("log:") == None
    ensures ReadLine(parse, line) == Success(pid) <==> exists id :: Says(parse, line, id, pid, "success")
  {
    ReadTail(parse, line, pid, Success(pid));
    NotOpens("success");
    hide Says, InvokeDepth, ReadLine, ConsumedUnits;
    assert OfTail(pid, "success") == Success(pid);
    forall tail ensures OfTail(pid, tail) == Success(pid) ==> tail == "success" {}
  }

  ghost predicate Fails(tail: string) { exists why :: tail == "failed" + why }

  lemma FailsOnly(pid: Key, tail: string)
    ensures OfTail(pid, tail) == Failed(pid) <==> Fails(tail)
  {
    hide InvokeDepth, ConsumedUnits;
    if "failed" <= tail {
      assert tail == "failed" + tail[6..];
      assert tail[0] == 'f' && "success"[0] == 's';
      NotOpens(tail);
    }
  }

  /** A line closes a frame as failed iff what it says starts with `failed`. */
  lemma FailedExact(parse: KeyParser, line: string, pid: Key)
    requires parse("log:") == None
    ensures ReadLine(parse, line) == Failed(pid) <==>
              exists id, tail :: Says(parse, line, id, pid, tail) && Fails(tail)
  {
    ReadTail(parse, line, pid, Failed(pid));
    hide Says, InvokeDepth, ReadLine, ConsumedUnits, Fails;
    forall tail ensures OfTail(pid, tail) == Failed(pid) <==> Fails(tail) {
      FailsOnly(pid, tail);
    }
  }

  lemma {:induction false} WordStarts(s: string, word: string)
    ensures UpToWhite(s) == word <==>
              word <= s && (forall c :: c in word ==> !IsWhite(c)) && (s == word || IsWhite(s[|word|]))
  {
    if s != "" && !IsWhite(s[0]) {
      if word != "" {
        WordStarts(s[1..], word[1..]);
        assert word == [word[0]] + word[1..];
        assert s == [s[0]] + s[1..];
      }
    }
  }

  lemma {:induction false} TrimmedStart(s: string)
    ensures exists space :: s == space + TrimStart(s) && Blank(space)
  {
    hide IsWhite;
    if s != "" && IsWhite(s[0]) {
      TrimmedStart(s[1..]);
      var space :| s[1..] == space + TrimStart(s[1..]) && Blank(space);
      assert s == ([s[0]] + space) + TrimStart(s);
    } else {
      assert s == "" + TrimStart(s);
    }
  }

  ghost predicate First(text: string, word: string) {
    exists space, more :: StartsWith(text, space, word, more)
  }

  lemma FirstWordFirst(text: string, word: string)
    requires FirstWord(text) == word
    ensures First(text, word)
  {
    var s := TrimStart(text);
    WordStarts(s, word);
    TrimmedStart(text);
    hide TrimStart, UpToWhite;
    var space :| text == space + s && Blank(space);
    assert s == word + s[|word|..];
    assert text == space + word + s[|word|..];
    assert StartsWith(text, space, word, s[|word|..]);
  }

  lemma FirstWordExact(text: string, word: string)
    requires word != ""
    ensures FirstWord(text) == word <==> First(text, word)
  {
    if FirstWord(text) == word { FirstWordFirst(text, word); }
    hide TrimStart, UpToWhite;
    if First(text, word) {
      var space, more :| StartsWith(text, space, word, more);
      assert text == space + (word + more);
      assert word[0] in word && (word + more)[0] == word[0];
      StartTrimmed(space, word + more);
      WordStarts(word + more, word);
    }
  }

  lemma WrittenSome(s: string)
    requires Written(s, false).Some?
    ensures s != ""
  {
  }

  /** `consumed` and, first, a number, a `u64`. */
  ghost predicate Spends(tail: string, units: nat) {
    exists text, digits :: tail == "consumed " + text && First(text, digits) &&
                           Written(digits, false) == Some(units) && units < 18446744073709551616
  }

  lemma SpendsUnits(tail: string, units: nat)
    ensures ConsumedUnits(tail) == Some(units) <==> Spends(tail, units)
  {
    hide Written, FirstWord, First;
    if ConsumedUnits(tail) == Some(units) {
      var text := tail[9..];
      assert tail == "consumed " + text;
      FirstWordExact(text, FirstWord(text));
    }
    if Spends(tail, units) {
      var text, digits :| tail == "consumed " + text && First(text, digits) &&
        Written(digits, false) == Some(units) && units < 18446744073709551616;
      WrittenSome(digits);
      FirstWordExact(text, digits);
      assert "consumed " <= tail && tail[9..] == text;
    }
  }

  lemma SpendsOnly(pid: Key, tail: string, units: nat)
    ensures OfTail(pid, tail) == Consumed(pid, units) <==> Spends(tail, units)
  {
    SpendsUnits(tail, units);
    if Spends(tail, units) {
      hide Written, FirstWord, First;
      assert tail[0] == 'c' && "failed"[0] == 'f' && "success"[0] == 's';
      NotOpens(tail);
    }
  }

  /** A line gives a frame's units iff it says `consumed` and a number. */
  lemma ConsumedExact(parse: KeyParser, line: string, pid: Key, units: nat)
    requires parse("log:") == None
    ensures ReadLine(parse, line) == Consumed(pid, units) <==>
              exists id, tail :: Says(parse, line, id, pid, tail) && Spends(tail, units)
  {
    ReadTail(parse, line, pid, Consumed(pid, units));
    hide Says, InvokeDepth, ReadLine, ConsumedUnits, Spends;
    forall tail ensures OfTail(pid, tail) == Consumed(pid, units) <==> Spends(tail, units) {
      SpendsOnly(pid, tail, units);
    }
  }

  /** A line names the instruction iff it logs `Instruction:` and a name. */
  lemma NamedExact(parse: KeyParser, line: string, name: string)
    ensures ReadLine(parse, line) == Named(name) <==>
              exists text :: Trim(line) == "Program log: Instruction: " + text && Trim(text) == name
  {
    hide Trim, ReadProgramLine;
    var t := Trim(line);
    if text :| t == "Program log: Instruction: " + text && Trim(text) == name {
      Labelled(t, text);
    }
    if ReadLine(parse, line) == Named(name) {
      ProgramNamesNothing(parse, t[8..]);
      Labelled(t, t[8..][5..][13..]);
    }
  }

  lemma Labelled(t: string, text: string)
    ensures t == "Program log: Instruction: " + text <==>
              "Program " <= t && "log: " <= t[8..] && "Instruction: " <= t[8..][5..] && t[8..][5..][13..] == text
  {
    var whole := "Program log: Instruction: ";
    assert whole == "Program " + ("log: " + "Instruction: ");
    if t == whole + text {
      assert t[..8] == "Program " && t[8..] == "log: " + ("Instruction: " + text);
    }
  }

  lemma ProgramNamesNothing(parse: KeyParser, rest: string)
    ensures !ReadProgramLine(parse, rest).Named?
  {
  }
}
