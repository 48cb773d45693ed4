/** Planting one bug per site, and patching it into the file it was cut from
    (crates/solinv-mutate/src/mutant.rs). The regular expression engine is a parameter. */
module Mutants {
  import opened Common
  import opened Decimals
  import opened Digests

  datatype Span = Span(start: nat, end: nat)

  predicate InText(found: seq<Span>, size: nat) {
    forall k :: 0 <= k < |found| ==> found[k].start <= found[k].end <= size
  }

  datatype Operator = Operator(id: string, pattern: string, replacement: Text, killer: string, critical: bool)

  datatype Source = Source(path: string, contents: Text)

  /** Whether a pattern compiles, its matches in a text, and a matched text with its first match
      rewritten. */
  datatype Regexes = Regexes(
    compiles: string -> bool,
    spans: (string, Text) -> seq<Span>,
    rewrite: (string, Text, Text) -> Text)
  {
    /** Matches lie inside the text they were found in. */
    ghost predicate Sound() {
      forall p: string, t: Text :: InText(spans(p, t), |t|)
    }
  }

  /** The engine the crate uses. */
  type Engine = e: Regexes | e.Sound() witness Regexes(_ => false, (_, _) => [], (_, t, _) => t)

  datatype Mutant = Mutant(
    id: string, operator: string, killer: string, critical: bool, file: string, line: nat,
    start: nat, end: nat, original: Text, mutated: Text, digest: string)

  const NEWLINE: byte := 10

  function Newlines(t: Text): nat {
    if t == [] then 0 else Newlines(t[..|t| - 1]) + if t[|t| - 1] == NEWLINE then 1 else 0
  }

  /** The line count of the text above, at least 1. */
  function LineOf(above: Text): nat {
    var lines := Newlines(above) + if above != [] && above[|above| - 1] != NEWLINE then 1 else 0;
    if lines == 0 then 1 else lines
  }

  function Id(op: string, path: string, line: nat, occurrence: nat): string {
    op + "@" + path + ":" + Show(line) + "#" + Show(occurrence)
  }

  /** The mutant of the `k`th match. */
  ghost function Cut(en: Engine, src: Source, digest: string, op: Operator, k: nat): Mutant
    requires k < |en.spans(op.pattern, src.contents)|
  {
    var found := en.spans(op.pattern, src.contents);
    assert InText(found, |src.contents|);
    var sp := found[k];
    var original := src.contents[sp.start..sp.end];
    var line := LineOf(src.contents[..sp.start]);
    Mutant(Id(op.id, src.path, line, k), op.id, op.killer, op.critical, src.path, line, sp.start, sp.end, original,
      en.rewrite(op.pattern, original, op.replacement), digest)
  }

  /** None when the rewrite changes nothing. */
  ghost function One(en: Engine, src: Source, digest: string, op: Operator, k: nat): seq<Mutant>
    requires k < |en.spans(op.pattern, src.contents)|
  {
    var m := Cut(en, src, digest, op, k);
    if m.mutated == m.original then [] else [m]
  }

  function Join<T>(parts: seq<seq<T>>): seq<T> {
    if parts == [] then [] else Join(parts[..|parts| - 1]) + parts[|parts| - 1]
  }

  ghost function OperatorParts(en: Engine, src: Source, digest: string, op: Operator): seq<seq<Mutant>> {
    var count := |en.spans(op.pattern, src.contents)|;
    seq(count, k requires 0 <= k < count => One(en, src, digest, op, k))
  }

  ghost function FileParts(en: Engine, src: Source, digest: string, ops: seq<Operator>): seq<seq<Mutant>> {
    seq(|ops|, j requires 0 <= j < |ops| => Join(OperatorParts(en, src, digest, ops[j])))
  }

  ghost function PlanParts(en: Engine, sources: seq<Source>, ops: seq<Operator>): seq<seq<Mutant>> {
    seq(|sources|, i requires 0 <= i < |sources| => Join(FileParts(en, sources[i], DigestOf(sources[i].contents), ops)))
  }

  /** Source by source, operator by operator, match by match. */
  ghost function Plan(en: Engine, sources: seq<Source>, ops: seq<Operator>): seq<Mutant> {
    Join(PlanParts(en, sources, ops))
  }

  lemma JoinStep<T>(parts: seq<seq<T>>, i: nat)
    requires i < |parts|
    ensures Join(parts[..i + 1]) == Join(parts[..i]) + parts[i]
  {
    assert parts[..i + 1][..i] == parts[..i];
  }

  lemma JoinMore<T>(parts: seq<seq<T>>, more: seq<T>)
    ensures Join(parts + [more]) == Join(parts) + more
  {
    assert (parts + [more])[..|parts|] == parts;
  }

  method GenerateOne(en: Engine, src: Source, op: Operator, digest: string) returns (out: seq<Mutant>)
    ensures out == Join(OperatorParts(en, src, digest, op))
  {
    out := [];
    var found := en.spans(op.pattern, src.contents);
    assert InText(found, |src.contents|);
    ghost var parts := OperatorParts(en, src, digest, op);
    for k := 0 to |found|
      invariant out == Join(parts[..k])
    {
      JoinStep(parts, k);
      var m := found[k];
      var original := src.contents[m.start..m.end];
      var mutated := en.rewrite(op.pattern, original, op.replacement);
      if mutated == original {
        continue;
      }
      var line := LineOf(src.contents[..m.start]);
      out := out + [Mutant(Id(op.id, src.path, line, k), op.id, op.killer, op.critical, src.path, line, m.start, m.end,
        original, mutated, digest)];
    }
    assert parts[..|found|] == parts;
  }

  predicate AllCompile(en: Engine, ops: seq<Operator>) {
    forall n :: 0 <= n < |ops| ==> en.compiles(ops[n].pattern)
  }

  method GenerateFile(en: Engine, src: Source, ops: seq<Operator>, digest: string) returns (r: Option<seq<Mutant>>)
    ensures r == if AllCompile(en, ops) then Some(Join(FileParts(en, src, digest, ops))) else None
  {
    hide OperatorParts;
    var out: seq<Mutant> := [];
    ghost var parts: seq<seq<Mutant>> := [];
    for j := 0 to |ops|
      invariant out == Join(parts) && |parts| == j
      invariant forall n :: 0 <= n < j ==>
                  en.compiles(ops[n].pattern) && parts[n] == Join(OperatorParts(en, src, digest, ops[n]))
    {
      if !en.compiles(ops[j].pattern) {
        return None;
      }
      var more := GenerateOne(en, src, ops[j], digest);
      JoinMore(parts, more);
      out, parts := out + more, parts + [more];
    }
    assert parts == FileParts(en, src, digest, ops);
    r := Some(out);
  }

  /** Every mutant of every source, or an error for a pattern that does not compile. */
  method GenerateWith(en: Engine, sources: seq<Source>, ops: seq<Operator>) returns (r: Option<seq<Mutant>>)
    ensures r == if sources == [] || AllCompile(en, ops) then Some(Plan(en, sources, ops)) else None
  {
    var out: seq<Mutant> := [];
    ghost var parts := PlanParts(en, sources, ops);
    for i := 0 to |sources|
      invariant out == Join(parts[..i])
      invariant i > 0 ==> AllCompile(en, ops)
    {
      JoinStep(parts, i);
      var digest := Digest(sources[i].contents);
      var more := GenerateFile(en, sources[i], ops, digest);
      if more.None? {
        return None;
      }
      out := out + more.value;
    }
    assert parts[..|sources|] == parts;
    r := Some(out);
  }

  datatype Applied = Ok(contents: Text) | Stale | Outside

  function Patched(contents: Text, m: Mutant): Applied {
    if DigestOf(contents) != m.digest then Stale
    else if m.end > |contents| || m.start > m.end then Outside
    else Ok(contents[..m.start] + m.mutated + contents[m.end..])
  }

  /** A file the mutant was not cut from is refused; of another, its span is replaced and nothing
      else. */
  method Apply(contents: Text, m: Mutant) returns (r: Applied)
    ensures r == Patched(contents, m)
    ensures r == Stale <==> DigestOf(contents) != m.digest
    ensures r.Ok? <==> DigestOf(contents) == m.digest && m.start <= m.end <= |contents|
    ensures r.Ok? ==> var t, after := r.contents, m.start + |m.mutated|;
                      && |t| - |m.mutated| == |contents| - (m.end - m.start)
                      && t[..m.start] == contents[..m.start] && t[m.start..after] == m.mutated
                      && t[after..] == contents[m.end..]
  {
    var actual := Digest(contents);
    if actual != m.digest {
      return Stale;
    }
    if m.end > |contents| || m.start > m.end {
      return Outside;
    }
    var out: Text := [];
    out := out + contents[..m.start];
    out := out + m.mutated;
    out := out + contents[m.end..];
    r := Ok(out);
  }

  /** `m` is the mutant of some match of some operator in `src`, and changes it. */
  ghost predicate CutFrom(en: Engine, src: Source, ops: seq<Operator>, m: Mutant) {
    CutSome(en, src, DigestOf(src.contents), ops, m)
  }

  ghost predicate CutSome(en: Engine, src: Source, digest: string, ops: seq<Operator>, m: Mutant) {
    exists j: nat, k: nat :: j < |ops| && CutAt(en, src, digest, ops[j], k, m)
  }

  ghost predicate CutAt(en: Engine, src: Source, digest: string, op: Operator, k: nat, m: Mutant)
  {
    k < |en.spans(op.pattern, src.contents)| && m == Cut(en, src, digest, op, k) && m.mutated != m.original
  }

  lemma {:induction false} JoinHas<T>(parts: seq<seq<T>>, x: T)
    ensures x in Join(parts) <==> exists i :: 0 <= i < |parts| && x in parts[i]
  {
    if parts != [] {
      var last := |parts| - 1;
      JoinHas(parts[..last], x);
      if x in Join(parts[..last]) {
        var i :| 0 <= i < last && x in parts[..last][i];
        assert x in parts[i];
      } else if x in parts[last] {
      } else {
        forall i | 0 <= i < |parts| ensures x !in parts[i] {
          if i < last { assert parts[..last][i] == parts[i]; }
        }
      }
    }
  }

  lemma OperatorHas(en: Engine, src: Source, digest: string, op: Operator, m: Mutant)
    ensures m in Join(OperatorParts(en, src, digest, op)) <==> exists k: nat :: CutAt(en, src, digest, op, k, m)
  {
    var parts := OperatorParts(en, src, digest, op);
    JoinHas(parts, m);
    if m in Join(parts) {
      var k :| 0 <= k < |parts| && m in parts[k];
      assert CutAt(en, src, digest, op, k, m);
    } else if exists k: nat :: CutAt(en, src, digest, op, k, m) {
      var k: nat :| CutAt(en, src, digest, op, k, m);
      assert m in parts[k];
    }
  }

  lemma FileHas(en: Engine, src: Source, digest: string, ops: seq<Operator>, m: Mutant)
    ensures m in Join(FileParts(en, src, digest, ops)) <==> CutSome(en, src, digest, ops, m)
  {
    var parts := FileParts(en, src, digest, ops);
    forall j | 0 <= j < |ops| ensures m in parts[j] <==> exists k: nat :: CutAt(en, src, digest, ops[j], k, m) {
      OperatorHas(en, src, digest, ops[j], m);
    }
    JoinHas(parts, m);
  }

  /** The plan holds a mutant for each match whose rewrite changes it, and nothing else. */
  lemma PlanHas(en: Engine, sources: seq<Source>, ops: seq<Operator>, m: Mutant)
    ensures m in Plan(en, sources, ops) <==> exists n: nat :: n < |sources| && CutFrom(en, sources[n], ops, m)
  {
    hide CutSome, FileParts, DigestOf;
    var parts := PlanParts(en, sources, ops);
    JoinHas(parts, m);
    if m in Join(parts) {
      var n :| 0 <= n < |parts| && m in parts[n];
      FileHas(en, sources[n], DigestOf(sources[n].contents), ops, m);
    } else if exists n: nat :: n < |sources| && CutFrom(en, sources[n], ops, m) {
      var n: nat :| n < |sources| && CutFrom(en, sources[n], ops, m);
      FileHas(en, sources[n], DigestOf(sources[n].contents), ops, m);
      assert m in parts[n];
    }
  }

  /** A mutant applies to the source it was cut from, changes its span and nothing else, and gives
      another file. */
  lemma OwnSource(en: Engine, src: Source, ops: seq<Operator>, m: Mutant)
    requires CutFrom(en, src, ops, m)
    ensures Patched(src.contents, m).Ok?
    ensures var t := Patched(src.contents, m).contents; var after := m.start + |m.mutated|;
            && t != src.contents
            && m.start <= m.end <= |src.contents| && |t| == |src.contents| - (m.end - m.start) + |m.mutated|
            && t[..m.start] == src.contents[..m.start]
            && t[m.start..after] == m.mutated != src.contents[m.start..m.end]
            && t[after..] == src.contents[m.end..]
  {
    var j: nat, k: nat :| j < |ops| && CutAt(en, src, m.digest, ops[j], k, m);
    var sp := en.spans(ops[j].pattern, src.contents)[k];
    assert m.start == sp.start <= sp.end == m.end <= |src.contents|;
    var t, after := Patched(src.contents, m).contents, m.start + |m.mutated|;
    assert t[m.start..after] == m.mutated;
  }

  /** A file edited in one byte since the plan was made is refused. */
  lemma EditRefused(en: Engine, src: Source, ops: seq<Operator>, m: Mutant, edited: Text, i: nat)
    requires CutFrom(en, src, ops, m)
    requires i < |edited| == |src.contents| && edited[i] != src.contents[i]
    requires edited[..i] == src.contents[..i] && edited[i + 1..] == src.contents[i + 1..]
    ensures Patched(edited, m) == Stale
  {
    OneByteTold(edited, src.contents, i);
  }

  lemma {:induction false} CutLeft(a: string, b: string, c: char, x: string, y: string)
    requires a + [c] + x == b + [c] + y && c !in a && c !in b
    ensures a == b && x == y
  {
    var s := a + [c] + x;
    assert s[|a|] == c && s[|b|] == c;
    assert a <= s && b <= s;
    assert a == s[..|a|] && b == s[..|b|];
    assert x == s[|a| + 1..] && y == s[|b| + 1..];
  }

  lemma {:induction false} CutRight(a: string, b: string, c: char, x: string, y: string)
    requires a + [c] + x == b + [c] + y && c !in x && c !in y
    ensures a == b && x == y
  {
    var s := a + [c] + x;
    assert s[|a|] == c && s[|b|] == c;
    assert x == s[|a| + 1..] && y == s[|b| + 1..];
    assert c in s[|b| + 1..] || |a| <= |b|;
    assert c in s[|a| + 1..] || |b| <= |a|;
    assert a == s[..|a|] && b == s[..|b|];
    assert x == s[|a| + 1..] && y == s[|b| + 1..];
  }

  /** An id read from the right gives back its parts, when no operator id holds an `@`. */
  lemma IdInjective(op: string, path: string, line: nat, k: nat, op': string, path': string, line': nat, k': nat)
    requires '@' !in op && '@' !in op'
    requires Id(op, path, line, k) == Id(op', path', line', k')
    ensures op == op' && path == path' && line == line' && k == k'
  {
    var a, b := op + "@" + path + ":" + Show(line), op' + "@" + path' + ":" + Show(line');
    CutRight(a, b, '#', Show(k), Show(k'));
    ShowInjective(k, k');
    CutRight(op + "@" + path, op' + "@" + path', ':', Show(line), Show(line'));
    ShowInjective(line, line');
    CutLeft(op, op', '@', path, path');
  }

  ghost predicate DistinctIds(ms: seq<Mutant>) {
    forall i, j :: 0 <= i < j < |ms| ==> ms[i].id != ms[j].id
  }

  /** No id of one is an id of the other. */
  ghost predicate ApartIds(a: seq<Mutant>, b: seq<Mutant>) {
    forall x, y :: x in a && y in b ==> x.id != y.id
  }

  lemma {:induction false} JoinDistinct(parts: seq<seq<Mutant>>)
    requires forall i :: 0 <= i < |parts| ==> DistinctIds(parts[i])
    requires forall i, j :: 0 <= i < j < |parts| ==> ApartIds(parts[i], parts[j])
    ensures DistinctIds(Join(parts))
  {
    if parts != [] {
      var last := |parts| - 1;
      var a: seq<Mutant>, b: seq<Mutant> := Join(parts[..last]), parts[last];
      JoinDistinct(parts[..last]);
      forall i, j | 0 <= i < j < |a + b| ensures (a + b)[i].id != (a + b)[j].id {
        if i < |a| <= j {
          JoinHas(parts[..last], a[i]);
          var n :| 0 <= n < last && a[i] in parts[..last][n];
          assert ApartIds(parts[n], b) && b[j - |a|] in b;
        }
      }
    }
  }

  predicate TidyOperators(ops: seq<Operator>) {
    && (forall i, j :: 0 <= i < j < |ops| ==> ops[i].id != ops[j].id)
    && (forall i :: 0 <= i < |ops| ==> '@' !in ops[i].id)
  }

  /** Mutants of different sources, operators or matches have different ids. */
  lemma CutsApart(en: Engine, src: Source, digest: string, op: Operator, k: nat, x: Mutant,
        src': Source, digest': string, op': Operator, k': nat, y: Mutant)
    requires CutAt(en, src, digest, op, k, x) && CutAt(en, src', digest', op', k', y) && '@' !in op.id && '@' !in op'.id
    requires src.path != src'.path || op.id != op'.id || k != k'
    ensures x.id != y.id
  {
    if x.id == y.id { IdInjective(op.id, src.path, x.line, k, op'.id, src'.path, y.line, k'); }
  }

  lemma OperatorDistinct(en: Engine, src: Source, digest: string, op: Operator)
    requires '@' !in op.id
    ensures DistinctIds(Join(OperatorParts(en, src, digest, op)))
  {
    var parts := OperatorParts(en, src, digest, op);
    forall i, j | 0 <= i < j < |parts| ensures ApartIds(parts[i], parts[j]) {
      forall x: Mutant, y: Mutant | x in parts[i] && y in parts[j] ensures x.id != y.id {
        CutsApart(en, src, digest, op, i, x, src, digest, op, j, y);
      }
    }
    JoinDistinct(parts);
  }

  lemma OperatorsApart(en: Engine, src: Source, digest: string, op: Operator, op': Operator)
    requires '@' !in op.id && '@' !in op'.id && op.id != op'.id
    ensures ApartIds(Join(OperatorParts(en, src, digest, op)), Join(OperatorParts(en, src, digest, op')))
  {
    forall x, y | x in Join(OperatorParts(en, src, digest, op)) &&
        y in Join(OperatorParts(en, src, digest, op')) ensures x.id != y.id {
      OperatorHas(en, src, digest, op, x);
      OperatorHas(en, src, digest, op', y);
      var k: nat :| CutAt(en, src, digest, op, k, x);
      var k': nat :| CutAt(en, src, digest, op', k', y);
      CutsApart(en, src, digest, op, k, x, src, digest, op', k', y);
    }
  }

  lemma FileDistinct(en: Engine, src: Source, digest: string, ops: seq<Operator>)
    requires TidyOperators(ops)
    ensures DistinctIds(Join(FileParts(en, src, digest, ops)))
  {
    var parts := FileParts(en, src, digest, ops);
    forall j | 0 <= j < |parts| ensures DistinctIds(parts[j]) {
      OperatorDistinct(en, src, digest, ops[j]);
    }
    forall i, j | 0 <= i < j < |parts| ensures ApartIds(parts[i], parts[j]) {
      OperatorsApart(en, src, digest, ops[i], ops[j]);
    }
    JoinDistinct(parts);
  }

  lemma FilesApart(en: Engine, src: Source, digest: string, src': Source, digest': string, ops: seq<Operator>)
    requires TidyOperators(ops) && src.path != src'.path
    ensures ApartIds(Join(FileParts(en, src, digest, ops)), Join(FileParts(en, src', digest', ops)))
  {
    forall x, y | x in Join(FileParts(en, src, digest, ops)) &&
        y in Join(FileParts(en, src', digest', ops)) ensures x.id != y.id {
      FileHas(en, src, digest, ops, x);
      FileHas(en, src', digest', ops, y);
      var j: nat, k: nat :| j < |ops| && CutAt(en, src, digest, ops[j], k, x);
      var j': nat, k': nat :| j' < |ops| && CutAt(en, src', digest', ops[j'], k', y);
      CutsApart(en, src, digest, ops[j], k, x, src', digest', ops[j'], k', y);
    }
  }

  /** Ids are distinct strings when paths are, and operator ids are and hold no `@`. */
  lemma IdsDistinct(en: Engine, sources: seq<Source>, ops: seq<Operator>)
    requires TidyOperators(ops)
    requires forall m, n :: 0 <= m < n < |sources| ==> sources[m].path != sources[n].path
    ensures DistinctIds(Plan(en, sources, ops))
  {
    var parts := PlanParts(en, sources, ops);
    forall i | 0 <= i < |parts| ensures DistinctIds(parts[i]) {
      FileDistinct(en, sources[i], DigestOf(sources[i].contents), ops);
    }
    forall i, j | 0 <= i < j < |parts| ensures ApartIds(parts[i], parts[j]) {
      FilesApart(en, sources[i], DigestOf(sources[i].contents), sources[j], DigestOf(sources[j].contents), ops);
    }
    JoinDistinct(parts);
  }

  // ------------------------------------------------- what a mutant says

  /** `m` is of the `k`th match of operator `op` in `src`: it names the operator, the invariant expected to
      kill it and whether it is critical, the file and the digest it had, the place and the text of the
      match, and the text with the match rewritten, which differs. */
  ghost predicate Tells(en: Engine, src: Source, op: Operator, k: nat, m: Mutant) {
    && k < |en.spans(op.pattern, src.contents)|
    && var at := en.spans(op.pattern, src.contents)[k];
       && at.start <= at.end <= |src.contents|
       && m.operator == op.id && m.killer == op.killer && m.critical == op.critical
       && m.file == src.path && m.digest == DigestOf(src.contents) && m.start == at.start && m.end == at.end
       && m.original == src.contents[at.start..at.end]
       && m.mutated == en.rewrite(op.pattern, m.original, op.replacement) && m.mutated != m.original
       && m.line == LineOf(src.contents[..at.start])
       && m.id == op.id + "@" + src.path + ":" + Show(m.line) + "#" + Show(k)
  }

  /** The plan holds exactly the mutants that say so of some match. */
  lemma {:induction false} PlanTells(en: Engine, sources: seq<Source>, ops: seq<Operator>, m: Mutant)
    ensures m in Plan(en, sources, ops) <==>
              exists n: nat, j: nat, k: nat :: n < |sources| && j < |ops| && Tells(en, sources[n], ops[j], k, m)
  {
    PlanHas(en, sources, ops, m);
    hide Plan, DigestOf, LineOf, Show;
    forall n: nat, j: nat, k: nat | n < |sources| && j < |ops|
      ensures CutAt(en, sources[n], DigestOf(sources[n].contents), ops[j], k, m) <==>
              Tells(en, sources[n], ops[j], k, m)
    {
      CutTells(en, sources[n], ops[j], k, m);
    }
    if n: nat :| n < |sources| && CutFrom(en, sources[n], ops, m) {
      var j: nat, k: nat :| j < |ops| && CutAt(en, sources[n], DigestOf(sources[n].contents), ops[j], k, m);
      assert Tells(en, sources[n], ops[j], k, m);
    }
    if n: nat, j: nat, k: nat :| n < |sources| && j < |ops| && Tells(en, sources[n], ops[j], k, m) {
      assert CutAt(en, sources[n], DigestOf(sources[n].contents), ops[j], k, m);
      assert CutFrom(en, sources[n], ops, m);
    }
  }

  lemma CutTells(en: Engine, src: Source, op: Operator, k: nat, m: Mutant)
    ensures CutAt(en, src, DigestOf(src.contents), op, k, m) <==> Tells(en, src, op, k, m)
  {
    assert InText(en.spans(op.pattern, src.contents), |src.contents|);
    hide DigestOf, LineOf, Show;
  }

  /** The line given is that of the match exactly when the match does not start a line, the first aside:
      of one that does, it is the line before. */
  lemma LineExact(above: Text)
    ensures LineOf(above) == Newlines(above) + 1 <==> above == [] || above[|above| - 1] != NEWLINE
    ensures above != [] && above[|above| - 1] == NEWLINE ==> LineOf(above) == Newlines(above)
  {
  }
}
